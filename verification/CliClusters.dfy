/** A cluster of short flags, -abc, means -a -b -c. */
module CliClusters {
  import opened CliParse

  /** A known flag that takes no argument and collects no extra ones. */
  predicate PlainFlag(app: Config, c: char) {
    var found := FindOption(app.options, [c], Short);
    found.Some? && MaxNum(app.options[found.value]) == 0 && !app.options[found.value].allowExtra
  }

  predicate AllPlain(app: Config, cs: string) {
    forall i :: 0 <= i < |cs| ==> PlainFlag(app, cs[i])
  }

  /** The separate arguments, on the reversed vector. */
  function Singles(cs: string): seq<string> {
    if cs == "" then [] else Singles(cs[1..]) + ["-" + [cs[0]]]
  }

  /** What one occurrence of a flag does to the results and the order. */
  function FlagHit(app: Config, st: State, c: char): (r: State)
    requires Fits(app, st) && PlainFlag(app, c)
    ensures Fits(app, r) && r.args == st.args && r.missing == st.missing && r.positionalOnly == st.positionalOnly
  {
    var i := FindOption(app.options, [c], Short).value;
    var text := FlagValue(app.options[i], [c], "");
    if text.Value? then AddInOrder(app, Separated(app, st, i), i, text.text) else st
  }

  function FlagHits(app: Config, st: State, cs: string): (r: State)
    requires Fits(app, st) && AllPlain(app, cs)
    ensures Fits(app, r) && r.args == st.args && r.missing == st.missing && r.positionalOnly == st.positionalOnly
    decreases |cs|
  {
    if cs == "" then st else FlagHits(app, FlagHit(app, st, cs[0]), cs[1..])
  }

  lemma MinOfPlain(o: Opt)
    ensures MaxNum(o) == 0 ==> MinNum(o) == 0
  {
    if o.sizeMax > 0 && o.expectedMin > 0 {
      assert o.sizeMax * o.expectedMin > 0 && o.sizeMax * o.expectedMax > 0;
    }
  }

  lemma PlainIsShort(app: Config, c: char, rest: string)
    requires PlainFlag(app, c)
    ensures ValidFirst(c) && Recognize(app, "-" + [c] + rest) == Short
    ensures SplitShort("-" + [c] + rest) == Some(([c], rest))
  {
    hide FindOption, MaxNum;
    var i := FindOption(app.options, [c], Short).value;
    assert Matches(app.options[i], [c], Short);
    var o := app.options[i];
    var k :| 0 <= k < |o.shortNames| && o.shortNames[k] == [c];
    var s := "-" + [c] + rest;
    assert s[1] == c && s[..2] == ['-', c] && s[2..] == rest;
  }

  lemma CollectPlain(app: Config, st: State, c: char, rest: string)
    requires Fits(app, st) && PlainFlag(app, c)
    ensures Collect(app, st, FindOption(app.options, [c], Short).value, [c], "", rest) == Ok(FlagHit(app, st, c))
  {
    hide FindOption, MaxNum, MinNum, Pieces, DefaultFlag;
    var i := FindOption(app.options, [c], Short).value;
    MinOfPlain(app.options[i]);
    var e := Eating(FlagHit(app, st, c), 0);
    assert FirstValue(app, Separated(app, st, i), i, [c], "", rest) == Going(e);
    assert Gather(app, e, i) == e;
    assert Optional(app, e, i, [c]) == Going(e);
  }

  /** One step takes the first flag of a cluster and pushes the rest back. */
  lemma HitStep(app: Config, st: State, below: seq<string>, c: char, rest: string)
    requires Fits(app, st) && PlainFlag(app, c) && !st.positionalOnly
    requires st.args == below + ["-" + [c] + rest]
    ensures ParseSingle(app, st) ==
      Ok(FlagHit(app, st, c).(args := if rest == "" then below else below + ["-" + rest]))
  {
    hide FindOption, MaxNum, FlagHit, Collect, Recognize, SplitShort;
    PlainIsShort(app, c, rest);
    var s := "-" + [c] + rest;
    assert Top(st.args) == s && Pop(st.args) == below;
    CollectPlain(app, st.(args := below), c, rest);
    HitArgs(app, st, c, below);
  }

  lemma HitArgs(app: Config, st: State, c: char, args: seq<string>)
    requires Fits(app, st) && PlainFlag(app, c)
    ensures FlagHit(app, st.(args := args), c) == FlagHit(app, st, c).(args := args)
  {
    hide FindOption, MaxNum, FlagValue, Pieces;
  }

  lemma {:induction false} HitsArgs(app: Config, st: State, cs: string, args: seq<string>)
    requires Fits(app, st) && AllPlain(app, cs)
    ensures FlagHits(app, st.(args := args), cs) == FlagHits(app, st, cs).(args := args)
    decreases |cs|
  {
    hide PlainFlag, FlagHit;
    if cs != "" {
      HitArgs(app, st, cs[0], args);
      HitsArgs(app, FlagHit(app, st, cs[0]), cs[1..], args);
    }
  }

  // Steps

  function Steps(app: Config, st: State, n: nat): (r: Outcome)
    requires Fits(app, st)
    ensures r.Ok? ==> Fits(app, r.state)
    decreases n
  {
    if n == 0 || st.args == [] then Ok(st)
    else
      var r := ParseSingle(app, st);
      if r.Ok? then Steps(app, r.state, n - 1) else r
  }

  lemma {:induction false} StepsThenAll(app: Config, st: State, n: nat)
    requires Fits(app, st)
    ensures ParseAll(app, st) == if Steps(app, st, n).Ok? then ParseAll(app, Steps(app, st, n).state) else Steps(app, st, n)
    decreases n
  {
    hide ParseSingle;
    if n > 0 && st.args != [] {
      ParseAllStep(app, st);
      var r := ParseSingle(app, st);
      if r.Ok? {
        StepsThenAll(app, r.state, n - 1);
      }
    }
  }

  lemma OneStep(app: Config, st: State, n: nat)
    requires Fits(app, st) && st.args != [] && ParseSingle(app, st).Ok? && n > 0
    ensures Steps(app, st, n) == Steps(app, ParseSingle(app, st).state, n - 1)
  {
    hide ParseSingle;
  }

  lemma NoStep(app: Config, st: State)
    requires Fits(app, st)
    ensures Steps(app, st, 0) == Ok(st)
  {
  }

  lemma {:induction false} ClusterSteps(app: Config, st: State, below: seq<string>, cs: string)
    requires Fits(app, st) && AllPlain(app, cs) && cs != "" && !st.positionalOnly && st.args == below + ["-" + cs]
    ensures Steps(app, st, |cs|) == Ok(FlagHits(app, st, cs).(args := below))
    decreases |cs|
  {
    hide PlainFlag, FlagHit, ParseSingle, Steps;
    var c, rest := cs[0], cs[1..];
    assert "-" + cs == "-" + [c] + rest;
    HitStep(app, st, below, c, rest);
    OneStep(app, st, |cs|);
    var next := ParseSingle(app, st).state;
    if rest == "" {
      NoStep(app, next);
    } else {
      ClusterSteps(app, next, below, rest);
      HitsArgs(app, FlagHit(app, st, c), rest, next.args);
    }
  }

  lemma {:induction false} SinglesSteps(app: Config, st: State, below: seq<string>, cs: string)
    requires Fits(app, st) && AllPlain(app, cs) && !st.positionalOnly && st.args == below + Singles(cs)
    ensures Steps(app, st, |cs|) == Ok(FlagHits(app, st, cs).(args := below))
    decreases |cs|
  {
    hide PlainFlag, FlagHit, ParseSingle, Steps;
    if cs == "" {
      NoStep(app, st);
      assert below + [] == below;
    } else {
      var c, rest := cs[0], cs[1..];
      assert "-" + [c] + "" == "-" + [c];
      assert st.args == (below + Singles(rest)) + ["-" + [c] + ""];
      HitStep(app, st, below + Singles(rest), c, "");
      OneStep(app, st, |cs|);
      var next := ParseSingle(app, st).state;
      SinglesSteps(app, next, below, rest);
      HitsArgs(app, FlagHit(app, st, c), rest, next.args);
    }
  }

  /** A cluster that is next means its flags one by one, whatever follows it: the whole parse ends alike. */
  lemma ClusterIsSingles(app: Config, st: State, below: seq<string>, cs: string)
    requires Fits(app, st) && AllPlain(app, cs) && cs != "" && !st.positionalOnly
    ensures ParseAll(app, st.(args := below + ["-" + cs])) == ParseAll(app, st.(args := below + Singles(cs)))
  {
    hide PlainFlag, ParseAll, Steps, FlagHits;
    var cluster, singles := st.(args := below + ["-" + cs]), st.(args := below + Singles(cs));
    ClusterSteps(app, cluster, below, cs);
    SinglesSteps(app, singles, below, cs);
    StepsThenAll(app, cluster, |cs|);
    StepsThenAll(app, singles, |cs|);
    HitsArgs(app, cluster, cs, singles.args);
  }
}
