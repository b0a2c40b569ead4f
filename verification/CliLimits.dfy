/** Where a cluster does not mean its flags one by one. */
module CliLimits {
  import opened CliParse
  import opened CliClusters
  import opened CliAnywhere
  import opened CliGrowth

  // A program with -o [value], n + 2 required values, and the flags -a and -b

  function Plain(short: string, positional: bool, expectedMin: nat, expectedMax: nat): Opt
    requires expectedMin <= expectedMax && |short| <= 1 && (short != "" ==> ValidFirst(short[0]))
  {
    Declared([], if short == "" then [] else [short], positional, positional, 1, 1, expectedMin, expectedMax, false,
             false, None, expectedMax == 0, false, [], "", _ => true)
  }

  function Program(n: nat): Config {
    Config([Plain("o", false, 0, 1), Plain("", true, n + 2, n + 2), Plain("a", false, 0, 0), Plain("b", false, 0, 0)],
           false, false, false, false, false)
  }

  function Values(n: nat): seq<string> {
    seq(n, _ => "y")
  }

  function StartOf(args: seq<string>): State {
    State(args, [[], [], [], []], [], [], false)
  }

  lemma Counts(n: nat, results: seq<seq<string>>)
    requires |results| == 4 && results[1] == []
    ensures CountRemaining(results, Program(n).options) == n + 2
  {
    var options := Program(n).options;
    assert CountRemaining(results[4..], options[4..]) == 0;
    assert results[3..][1..] == results[4..] && options[3..][1..] == options[4..];
    assert CountRemaining(results[3..], options[3..]) == 0;
    assert results[2..][1..] == results[3..] && options[2..][1..] == options[3..];
    assert CountRemaining(results[2..], options[2..]) == 0;
    assert results[1..][1..] == results[2..] && options[1..][1..] == options[2..];
    assert ItemsMin(options[1]) == n + 2;
    assert CountRemaining(results[1..], options[1..]) == n + 2;
  }

  lemma Numbers(n: nat)
    ensures
      var options := Program(n).options;
      && MaxNum(options[0]) == 1 && MinNum(options[0]) == 0 && ItemsMin(options[1]) == n + 2
      && MaxNum(options[2]) == 0 && MaxNum(options[3]) == 0
  {
  }

  lemma Finds(n: nat)
    ensures FindOption(Program(n).options, "o", Short) == Some(0)
    ensures FindOption(Program(n).options, "a", Short) == Some(2)
    ensures FindOption(Program(n).options, "b", Short) == Some(3)
  {
    var options := Program(n).options;
    assert Matches(options[0], "o", Short) && Matches(options[2], "a", Short) && Matches(options[3], "b", Short);
  }

  lemma Words(n: nat)
    ensures Recognize(Program(n), "-o") == Short && Recognize(Program(n), "-a") == Short
    ensures Recognize(Program(n), "x") == Nothing && Recognize(Program(n), "y") == Nothing
    ensures SplitShort("-o") == Some(("o", ""))
  {
    assert "-o"[2..] == "";
  }

  /** An option with no minimum: what its optional part leaves is the result. */
  lemma CollectIs(app: Config, st: State, i: nat, name: string, full: Eating)
    requires Fits(app, st) && i < |app.options| && MinNum(app.options[i]) == 0 && MaxNum(app.options[i]) > 0
    requires !app.options[i].injectSeparator && Optional(app, Eating(st, 0), i, name) == Going(full)
    ensures Collect(app, st, i, name, "", "") == Ok(full.state)
  {
    hide MaxNum, MinNum, Optional, Pieces, FlagValue;
    assert Gather(app, Eating(st, 0), i) == Eating(st, 0);
  }

  lemma OptionStep(n: nat, args: seq<string>, full: Eating)
    requires args != [] && Optional(Program(n), Eating(StartOf(args), 0), 0, "o") == Going(full)
    ensures ParseSingle(Program(n), StartOf(args + ["-o"])) == Ok(full.state)
  {
    Words(n);
    Finds(n);
    Numbers(n);
    CollectIs(Program(n), StartOf(args), 0, "o", full);
    var st := StartOf(args + ["-o"]);
    assert Pop(st.args) == args && st.(args := args) == StartOf(args);
    hide Recognize, FindOption, MaxNum, MinNum, Optional, SplitShort, Collect;
    assert SplitArg("-o", Short) == Parts("o", "", "");
  }

  lemma AddFirst(n: nat, args: seq<string>, s: string)
    requires |s| <= 1
    ensures AddInOrder(Program(n), StartOf(args), 0, s) == State(args, [[s], [], [], []], [0], [], false)
  {
    assert Pieces(Program(n).options[0], s) == [s];
    var none: seq<string> := [];
    assert none + [s] == [s];
    assert StartOf(args).results[0 := [s]] == [[s], [], [], []];
  }

  /** -o with too few arguments left takes its default. */
  lemma TakesDefault(n: nat, args: seq<string>)
    requires 0 < |args| <= n + 2 && Top(args) == "x"
    ensures ParseSingle(Program(n), StartOf(args + ["-o"])) == Ok(State(args, [[""], [], [], []], [0], [], false))
  {
    var app, st := Program(n), StartOf(args);
    Words(n);
    Numbers(n);
    Counts(n, st.results);
    assert FlagValue(app.options[0], "o", "") == Value("");
    hide Recognize, MaxNum, MinNum, CountRemaining, Pieces, FlagValue;
    EatStep(app, Eating(st, 0), 0, n + 2);
    AddFirst(n, args, "");
    OptionStep(n, args, Eating(State(args, [[""], [], [], []], [0], [], false), 0));
  }

  lemma EatsX(n: nat, left: seq<string>) returns (ate: Eating)
    requires |left| + 1 > n + 2 && Top(left) == "-a"
    ensures ate == Eating(State(left, [["x"], [], [], []], [0], [], false), 1)
    ensures Eat(Program(n), Eating(StartOf(left + ["x"]), 0), 0, n + 2) == ate
  {
    var app, st := Program(n), StartOf(left + ["x"]);
    ate := Eating(State(left, [["x"], [], [], []], [0], [], false), 1);
    Words(n);
    Numbers(n);
    assert Pieces(app.options[0], "x") == ["x"];
    hide Recognize, MaxNum, Pieces, Eat;
    assert Pop(st.args) == left && st.(args := left) == StartOf(left);
    AddFirst(n, left, "x");
    EatStep(app, Eating(st, 0), 0, n + 2);
    EatStep(app, ate, 0, n + 2);
  }

  /** -o with one more argument left eats x. */
  lemma EatsValue(n: nat, left: seq<string>)
    requires |left| + 1 > n + 2 && Top(left) == "-a"
    ensures ParseSingle(Program(n), StartOf((left + ["x"]) + ["-o"])) ==
      Ok(State(left, [["x"], [], [], []], [0], [], false))
  {
    var app, st := Program(n), StartOf(left + ["x"]);
    var ate := EatsX(n, left);
    Words(n);
    Numbers(n);
    Counts(n, st.results);
    hide Recognize, MaxNum, MinNum, CountRemaining, Pieces, Eat, FlagValue;
    OptionStep(n, left + ["x"], ate);
  }

  /** A plain word is the next required value. */
  lemma TakesPositional(n: nat, st: State, s: string)
    requires Fits(Program(n), st) && st.args != [] && Top(st.args) == s && (s == "x" || s == "y")
    requires !st.positionalOnly && |st.results[1]| < n + 2
    ensures ParseSingle(Program(n), st) == Ok(State(
      Pop(st.args), st.results[1 := st.results[1] + [s]], st.order + [1], st.missing, false))
  {
    var app := Program(n);
    Words(n);
    Numbers(n);
    assert Pieces(app.options[1], s) == [s];
    assert FindPositional(app, st, 0, s, false) == Some(1) by {
      assert !Takes(app, st, 0, s, false) && Takes(app, st, 1, s, false);
    }
    hide Recognize, Pieces, FindPositional, CountRemaining;
  }

  lemma {:induction false} ValuesEnd(n: nat, st: State, k: nat)
    requires Fits(Program(n), st) && st.args == Values(k) && !st.positionalOnly && |st.results[1]| + k <= n + 2
    ensures ParseAll(Program(n), st).Ok?
    decreases k
  {
    assert |st.results| == 4;
    hide ParseSingle, Program, Measure;
    if k > 0 {
      TakesPositional(n, st, "y");
      ParseAllStep(Program(n), st);
      assert Pop(st.args) == Values(k - 1);
      ValuesEnd(n, ParseSingle(Program(n), st).state, k - 1);
    }
  }

  lemma ABPlain(n: nat)
    ensures AllPlain(Program(n), "ab")
  {
    Finds(n);
    Numbers(n);
  }

  /** The arguments -o x -ab y .. y, reversed, and the same with -a -b. */
  function Clustered(n: nat): seq<string> {
    Values(n) + ["-ab"] + ["x", "-o"]
  }

  function Separate(n: nat): seq<string> {
    Values(n) + Singles("ab") + ["x", "-o"]
  }

  lemma SinglesAB()
    ensures Singles("ab") == ["-b", "-a"]
  {
    assert "ab"[1..] == "b" && "b"[1..] == "";
    assert "-" + ['b'] == "-b" && "-" + ['a'] == "-a";
    assert Singles("b") == Singles("") + ["-b"] == ["-b"];
    assert Singles("ab") == Singles("b") + ["-a"];
  }

  lemma Position(app: Config, st: State, one: State, two: State, below: seq<string>)
    requires Fits(app, st) && st.args == below + ["x"] + ["-o"] && ParseSingle(app, st) == Ok(one)
    requires one.args == below + ["x"] && ParseSingle(app, one) == Ok(two)
    requires two.args == below && !two.positionalOnly
    ensures InOptionPosition(app, st, below)
  {
    hide ParseSingle, Measure;
    SingleDecreases(app, st);
    SingleDecreases(app, one);
    assert InOptionPosition(app, two, below);
    assert InOptionPosition(app, one, below);
  }

  lemma FirstTwo(n: nat, below: seq<string>, one: State, two: State)
    requires |below| <= n + 1
    requires one == State(below + ["x"], [[""], [], [], []], [0], [], false)
    requires two == State(below, [[""], ["x"], [], []], [0, 1], [], false)
    ensures ParseSingle(Program(n), StartOf((below + ["x"]) + ["-o"])) == Ok(one)
    ensures ParseSingle(Program(n), one) == Ok(two)
  {
    hide ParseSingle;
    TakesDefault(n, below + ["x"]);
    TakesPositional(n, one, "x");
    var none: seq<string> := [];
    assert none + ["x"] == ["x"];
    assert Pop(one.args) == below && one.results[1 := ["x"]] == two.results;
  }

  lemma ClusteredRun(n: nat)
    ensures InOptionPosition(Program(n), StartOf(Clustered(n)), Values(n) + ["-ab"])
    ensures
      var end := ParseAll(Program(n), StartOf(Clustered(n)));
      end.Ok? && |end.state.results| > 0 && [""] <= end.state.results[0]
  {
    var app, st, below := Program(n), StartOf(Clustered(n)), Values(n) + ["-ab"];
    var one := State(below + ["x"], [[""], [], [], []], [0], [], false);
    var two := State(below, [[""], ["x"], [], []], [0, 1], [], false);
    assert st.args == (below + ["x"]) + ["-o"];
    FirstTwo(n, below, one, two);
    ClusterEnds(n, two);
    ParsingGrows(app, two);
    FollowSteps(app, st, one, two, below);
  }

  lemma FollowSteps(app: Config, st: State, one: State, two: State, below: seq<string>)
    requires Fits(app, st) && st.args == below + ["x"] + ["-o"] && ParseSingle(app, st) == Ok(one)
    requires one.args == below + ["x"] && ParseSingle(app, one) == Ok(two)
    requires two.args == below && !two.positionalOnly
    ensures InOptionPosition(app, st, below) && ParseAll(app, st) == ParseAll(app, two)
  {
    hide ParseSingle, ParseAll, InOptionPosition;
    Position(app, st, one, two, below);
    ParseAllStep(app, st);
    ParseAllStep(app, one);
  }

  lemma SeparateRun(n: nat)
    ensures
      var end := ParseAll(Program(n), StartOf(Separate(n)));
      end.Ok? ==> |end.state.results| > 0 && ["x"] <= end.state.results[0]
  {
    var app, st, left := Program(n), StartOf(Separate(n)), Values(n) + ["-b", "-a"];
    var ate := State(left, [["x"], [], [], []], [0], [], false);
    SinglesAB();
    assert st.args == (left + ["x"]) + ["-o"];
    EatsValue(n, left);
    hide ParseSingle, Measure, ParseAll, Program;
    ParseAllStep(app, st);
    ParsingGrows(app, ate);
  }

  /** For every number n of arguments after the cluster, one missing value more than ClusterAnywhere allows
      makes -o x -ab y .. y and -o x -a -b y .. y different programs: x goes to the required values in the
      first and to -o in the second. */
  lemma ClusterMatters(n: nat)
    ensures AllPlain(Program(n), "ab") && InOptionPosition(Program(n), StartOf(Clustered(n)), Values(n) + ["-ab"])
    ensures CountRemaining(StartOf(Clustered(n)).results, Program(n).options) == |Values(n)| + 2
    ensures ParseAll(Program(n), StartOf(Clustered(n))) != ParseAll(Program(n), StartOf(Separate(n)))
  {
    ABPlain(n);
    Counts(n, StartOf(Clustered(n)).results);
    ClusteredRun(n);
    SeparateRun(n);
    hide ParseAll, Program, AllPlain, CountRemaining, InOptionPosition;
    DifferentFirst(ParseAll(Program(n), StartOf(Clustered(n))), ParseAll(Program(n), StartOf(Separate(n))));
  }

  lemma HitKeeps(app: Config, st: State, c: char, i: nat)
    requires Fits(app, st) && PlainFlag(app, c) && i < |app.options| && FindOption(app.options, [c], Short) != Some(i)
    ensures FlagHit(app, st, c).results[i] == st.results[i]
  {
    hide FindOption, MaxNum, FlagValue, Pieces;
  }

  lemma ClusterEnds(n: nat, st: State)
    requires Fits(Program(n), st) && st.args == Values(n) + ["-ab"] && !st.positionalOnly && |st.results[1]| <= 1
    ensures ParseAll(Program(n), st).Ok?
  {
    var app := Program(n);
    ABPlain(n);
    Finds(n);
    assert PlainFlag(app, "ab"[0]) && PlainFlag(app, "ab"[1]);
    assert "-" + "ab" == "-ab" && "ab"[1..] == "b" && "b"[1..] == "";
    hide PlainFlag, FindOption, Steps, ParseAll, FlagHit, Program;
    var first := FlagHit(app, st, 'a');
    var both := FlagHit(app, first, 'b');
    HitKeeps(app, st, 'a', 1);
    HitKeeps(app, first, 'b', 1);
    assert FlagHits(app, both, "") == both;
    assert FlagHits(app, st, "ab") == both;
    ClusterSteps(app, st, Values(n), "ab");
    StepsThenAll(app, st, 2);
    ValuesEnd(n, both.(args := Values(n)), n);
  }

  lemma DifferentFirst(a: Outcome, b: Outcome)
    requires a.Ok? && |a.state.results| > 0 && [""] <= a.state.results[0]
    requires b.Ok? ==> |b.state.results| > 0 && ["x"] <= b.state.results[0]
    ensures a != b
  {
    if b.Ok? {
      assert a.state.results[0][0] == "" && b.state.results[0][0] == "x";
    }
  }
}
