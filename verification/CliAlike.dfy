/** Why the condition on the steps before a cluster is not one on the whole parse: a step may do something else
    and the next one make up for it. */
module CliAlike {
  import opened CliParse
  import opened CliClusters
  import opened CliAnywhere

  // A program with -f <values>, which also takes positional values, two required values, and the flags -a and -b

  function Files(): Opt {
    Declared([], ["f"], true, false, 1, 1, 1, 1, true, false, None, false, false, [], "", _ => true)
  }

  function Needed(): Opt {
    Declared([], [], true, true, 1, 1, 2, 2, false, false, None, false, false, [], "", _ => true)
  }

  function Flag(name: char): Opt
    requires ValidFirst(name)
  {
    Declared([], [[name]], false, false, 1, 1, 0, 0, false, false, None, true, false, [], "", _ => true)
  }

  function Program(): Config {
    Config([Files(), Needed(), Flag('a'), Flag('b')], false, false, false, false, false)
  }

  function StartOf(args: seq<string>): State {
    State(args, [[], [], [], []], [], [], false)
  }

  function WithV(args: seq<string>): State {
    State(args, [["v"], [], [], []], [0], [], false)
  }

  function WithX(args: seq<string>): State {
    State(args, [["v", "x"], [], [], []], [0, 0], [], false)
  }

  lemma Numbers()
    ensures MaxNum(Files()) == 1 == MinNum(Files()) && ItemsMin(Needed()) == 2 && ItemsMin(Files()) == 1
    ensures MaxNum(Flag('a')) == 0 == MaxNum(Flag('b'))
    ensures Pieces(Files(), "v") == ["v"] && Pieces(Files(), "x") == ["x"]
  {
  }

  lemma Finds()
    ensures FindOption(Program().options, "f", Short) == Some(0)
    ensures FindOption(Program().options, "a", Short) == Some(2)
    ensures FindOption(Program().options, "b", Short) == Some(3)
  {
    var options := Program().options;
    assert Matches(options[0], "f", Short) && Matches(options[2], "a", Short) && Matches(options[3], "b", Short);
  }

  lemma Words()
    ensures Recognize(Program(), "-fv") == Short && SplitShort("-fv") == Some(("f", "v"))
    ensures Recognize(Program(), "x") == Nothing && Recognize(Program(), "-a") == Short
  {
    assert "-fv"[2..] == "v";
  }

  lemma Counts(results: seq<seq<string>>)
    requires |results| == 4 && results[1] == []
    ensures CountRemaining(results, Program().options) == 2
  {
    var options := Program().options;
    Numbers();
    assert CountRemaining(results[4..], options[4..]) == 0;
    assert results[3..][1..] == results[4..] && options[3..][1..] == options[4..];
    assert CountRemaining(results[3..], options[3..]) == 0;
    assert results[2..][1..] == results[3..] && options[2..][1..] == options[3..];
    assert CountRemaining(results[2..], options[2..]) == 0;
    assert results[1..][1..] == results[2..] && options[1..][1..] == options[2..];
    assert CountRemaining(results[1..], options[1..]) == 2;
  }

  lemma CollectStep(args: seq<string>, full: Eating)
    requires Eat(Program(), Eating(WithV(args), 1), 0, 2) == full && full.collected >= 1
    requires full.state.args != [] && Recognize(Program(), Top(full.state.args)) != PositionalMark
    requires Fits(Program(), full.state)
    ensures Collect(Program(), StartOf(args), 0, "f", "", "v") == Ok(full.state)
    ensures CollectAgrees(Program(), StartOf(args), 0, "f", "", "v", 1) <==> !SizeStops(Program(), full, 0, 2, 1)
  {
    var app, e := Program(), Eating(WithV(args), 1);
    Numbers();
    Counts(WithV(args).results);
    FirstValueIs(args);
    SizeOne(full);
    hide Recognize, MaxNum, MinNum, CountRemaining, Eat, Pieces, FirstValue, Separated, SizeStops, FlagValue, Partial;
    assert Gather(app, e, 0) == e;
    assert Optional(app, e, 0, "f") == Going(full);
  }

  /** -fv on top: v is taken, and what the loop over optional arguments then does decides the step. */
  lemma FirstStep(args: seq<string>, full: Eating)
    requires Eat(Program(), Eating(WithV(args), 1), 0, 2) == full && full.collected >= 1
    requires full.state.args != [] && Recognize(Program(), Top(full.state.args)) != PositionalMark
    requires Fits(Program(), full.state)
    ensures ParseSingle(Program(), StartOf(args + ["-fv"])) == Ok(full.state)
    ensures StepAgrees(Program(), StartOf(args + ["-fv"]), 1) <==> !SizeStops(Program(), full, 0, 2, 1)
  {
    var app, st := Program(), StartOf(args + ["-fv"]);
    Words();
    Finds();
    Numbers();
    CollectStep(args, full);
    assert Pop(st.args) == args && st.(args := args) == StartOf(args) && Top(st.args) == "-fv";
    hide Recognize, FindOption, MaxNum, SplitShort, Eat, SizeStops, Collect, CollectAgrees;
    assert SplitArg("-fv", Short) == Parts("f", "", "v");
  }

  lemma SizeOne(full: Eating)
    requires Fits(Program(), full.state)
    ensures Partial(Program(), full, 0) == Ok(full.state)
  {
  }

  lemma FirstValueIs(args: seq<string>)
    ensures
      var st := StartOf(args);
      FirstValue(Program(), Separated(Program(), st, 0), 0, "f", "", "v") == Going(Eating(WithV(args), 1))
  {
    var app, st := Program(), StartOf(args);
    Numbers();
    hide MaxNum, Pieces;
    var none: seq<string> := [];
    assert none + ["v"] == ["v"] && st.results[0 := ["v"]] == WithV(args).results;
    assert Separated(app, st, 0) == st;
    assert AddInOrder(app, st, 0, "v") == WithV(args);
  }

  /** With two arguments left and two required values missing, the loop stops before x. */
  lemma StopsBefore()
    ensures Eat(Program(), Eating(WithV(["-ab", "x"]), 1), 0, 2) == Eating(WithV(["-ab", "x"]), 1)
    ensures SizeStops(Program(), Eating(WithV(["-ab", "x"]), 1), 0, 2, 1)
  {
    Words();
    Numbers();
    hide Recognize, MaxNum, Pieces;
  }

  lemma AddX(args: seq<string>)
    ensures AddInOrder(Program(), WithV(args), 0, "x") == WithX(args)
  {
    Numbers();
    hide Pieces;
    assert ["v"] + ["x"] == ["v", "x"] && [0] + [0] == [0, 0];
    assert WithV(args).results[0 := ["v", "x"]] == WithX(args).results;
  }

  lemma EatsX()
    ensures Eat(Program(), Eating(WithV(["-b", "-a", "x"]), 1), 0, 2) == Eating(WithX(["-b", "-a"]), 2)
  {
    var app, e, ate := Program(), Eating(WithV(["-b", "-a", "x"]), 1), Eating(WithX(["-b", "-a"]), 2);
    Words();
    Numbers();
    AddX(["-b", "-a"]);
    hide Recognize, MaxNum, Pieces, Eat, AddInOrder;
    assert Pop(e.state.args) == ["-b", "-a"] && e.state.(args := ["-b", "-a"]) == WithV(["-b", "-a"]);
    EatStep(app, e, 0, 2);
    EatStep(app, ate, 0, 2);
  }

  /** x is then a positional value of the same option. */
  lemma TakesX()
    ensures ParseSingle(Program(), WithV(["-ab", "x"])) == Ok(WithX(["-ab"]))
  {
    var app, st := Program(), WithV(["-ab", "x"]);
    Words();
    AddX(["-ab", "x"]);
    assert Takes(app, st, 0, "x", false);
    assert FindPositional(app, st, 0, "x", false) == Some(0);
    hide Recognize, Pieces, FindPositional, CountRemaining, AddResult;
    assert Pop(st.args) == ["-ab"];
    assert Separated(app, st, 0) == st;
  }

  lemma FlagsPlain()
    ensures AllPlain(Program(), "ab") && Singles("ab") == ["-b", "-a"]
  {
    Finds();
    Numbers();
    assert "ab"[1..] == "b" && "b"[1..] == "" && "-" + ['b'] == "-b" && "-" + ['a'] == "-a";
    assert Singles("b") == Singles("") + ["-b"] == ["-b"];
    assert Singles("ab") == Singles("b") + ["-a"];
  }

  lemma ClusteredFirst(st: State)
    requires st == StartOf(["-ab", "x", "-fv"])
    ensures ParseSingle(Program(), st) == Ok(WithV(["-ab", "x"])) && !StepAgrees(Program(), st, 1)
  {
    hide ParseSingle, StepAgrees, Eat, SizeStops, Recognize;
    assert ["-ab", "x"] + ["-fv"] == st.args;
    StopsBefore();
    Words();
    FirstStep(["-ab", "x"], Eating(WithV(["-ab", "x"]), 1));
  }

  lemma SeparateFirst(st: State)
    requires st == StartOf(["-b", "-a", "x", "-fv"])
    ensures ParseSingle(Program(), st) == Ok(WithX(["-b", "-a"]))
  {
    hide ParseSingle, StepAgrees, Eat, SizeStops, Recognize;
    assert ["-b", "-a", "x"] + ["-fv"] == st.args;
    EatsX();
    Words();
    FirstStep(["-b", "-a", "x"], Eating(WithX(["-b", "-a"]), 2));
  }

  lemma SameFlags()
    ensures ParseAll(Program(), WithX(["-ab"])) == ParseAll(Program(), WithX(["-b", "-a"]))
  {
    hide ParseAll, AllPlain;
    FlagsPlain();
    var none: seq<string> := [];
    assert "-" + "ab" == "-ab" && none + ["-ab"] == ["-ab"] && none + ["-b", "-a"] == ["-b", "-a"];
    ClusterIsSingles(Program(), WithX([]), none, "ab");
  }

  /** -fv x -ab and -fv x -a -b: the first step differs, and both parses end alike. */
  lemma DifferentStepSameEnd()
    ensures AllPlain(Program(), "ab") && InOptionPosition(Program(), StartOf(["-ab", "x", "-fv"]), ["-ab"])
    ensures !StepAgrees(Program(), StartOf(["-ab", "x", "-fv"]), 1)
    ensures ParseAll(Program(), StartOf(["-ab", "x", "-fv"])) == ParseAll(Program(), StartOf(["-b", "-a", "x", "-fv"]))
  {
    hide ParseSingle, ParseAll, StepAgrees, AllPlain, Measure, InOptionPosition;
    var clustered, single := StartOf(["-ab", "x", "-fv"]), StartOf(["-b", "-a", "x", "-fv"]);
    ClusteredFirst(clustered);
    SeparateFirst(single);
    TakesX();
    FlagsPlain();
    SameFlags();
    ParseAllStep(Program(), clustered);
    ParseAllStep(Program(), WithV(["-ab", "x"]));
    ParseAllStep(Program(), single);
    Position(Program(), clustered);
  }

  lemma Position(app: Config, st: State)
    requires Fits(app, st) && Fits(app, WithV(["-ab", "x"])) && st.args == ["-ab", "x", "-fv"]
    requires ParseSingle(app, st) == Ok(WithV(["-ab", "x"])) && ParseSingle(app, WithV(["-ab", "x"])) == Ok(WithX(["-ab"]))
    ensures InOptionPosition(app, st, ["-ab"])
  {
    hide ParseSingle, Measure;
    SingleDecreases(app, st);
    SingleDecreases(app, WithV(["-ab", "x"]));
    assert InOptionPosition(app, WithX(["-ab"]), ["-ab"]);
    assert InOptionPosition(app, WithV(["-ab", "x"]), ["-ab"]);
  }
}
