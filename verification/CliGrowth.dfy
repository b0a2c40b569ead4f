/** Parsing only ever extends results, so no parse makes more required values missing. */
module CliGrowth {
  import opened CliParse

  predicate Grown(a: seq<seq<string>>, b: seq<seq<string>>) {
    |a| == |b| && forall j :: 0 <= j < |a| ==> a[j] <= b[j]
  }

  lemma {:induction false} CountShrinks(a: seq<seq<string>>, b: seq<seq<string>>, options: seq<Opt>)
    requires Grown(a, b) && |a| == |options|
    ensures CountRemaining(b, options) <= CountRemaining(a, options)
    decreases |options|
  {
    hide ItemsMin;
    if options != [] {
      assert a[0] <= b[0];
      forall j | 0 <= j < |a[1..]| ensures a[1..][j] <= b[1..][j] {
        assert a[j + 1] <= b[j + 1];
      }
      CountShrinks(a[1..], b[1..], options[1..]);
    }
  }

  lemma AddGrows(app: Config, st: State, i: nat, s: string)
    requires Fits(app, st) && i < |app.options|
    ensures Grown(st.results, AddResult(app, st, i, s).results)
    ensures Grown(st.results, Separated(app, st, i).results)
  {
    hide Pieces;
  }

  lemma {:induction false} GatherGrows(app: Config, e: Eating, i: nat)
    requires Fits(app, e.state) && i < |app.options|
    ensures Grown(e.state.results, Gather(app, e, i).state.results)
    decreases |e.state.args|
  {
    hide Pieces, MinNum;
    if MinNum(app.options[i]) > e.collected && e.state.args != [] {
      var s := Top(e.state.args);
      var next := AddInOrder(app, e.state.(args := Pop(e.state.args)), i, s);
      AddGrows(app, e.state, i, s);
      GatherGrows(app, Eating(next, e.collected + |Pieces(app.options[i], s)|), i);
    }
  }

  lemma {:induction false} EatGrows(app: Config, e: Eating, i: nat, remaining: nat)
    requires Fits(app, e.state) && i < |app.options|
    ensures Grown(e.state.results, Eat(app, e, i, remaining).state.results)
    decreases |e.state.args|
  {
    hide Pieces, MaxNum, Recognize;
    if EatsNext(app, e, i, remaining) {
      var s := Top(e.state.args);
      var next := AddInOrder(app, e.state.(args := Pop(e.state.args)), i, s);
      AddGrows(app, e.state, i, s);
      EatGrows(app, Eating(next, e.collected + |Pieces(app.options[i], s)|), i, remaining);
    }
  }

  lemma CollectGrows(app: Config, st: State, i: nat, name: string, value: string, rest: string)
    requires Fits(app, st) && i < |app.options|
    ensures Collect(app, st, i, name, value, rest).Ok? ==>
      Grown(st.results, Collect(app, st, i, name, value, rest).state.results)
  {
    hide Pieces, MaxNum, MinNum, Recognize, FlagValue, CountRemaining, Gather, Eat;
    if Collect(app, st, i, name, value, rest).Ok? {
      var first := FirstValue(app, Separated(app, st, i), i, name, value, rest);
      var gathered := Gather(app, first.eating, i);
      GatherGrows(app, first.eating, i);
      EatGrows(app, gathered, i, CountRemaining(gathered.state.results, app.options));
    }
  }

  lemma GrownTwice(a: seq<seq<string>>, b: seq<seq<string>>, c: seq<seq<string>>)
    requires Grown(a, b) && Grown(b, c)
    ensures Grown(a, c)
  {
    forall j | 0 <= j < |a| ensures a[j] <= c[j] {
      assert a[j] <= b[j] && b[j] <= c[j];
    }
  }

  lemma ArgGrows(app: Config, st: State, kind: Classifier)
    requires Fits(app, st) && st.args != [] && Recognize(app, Top(st.args)) == kind && IsOption(kind)
    ensures ParseArg(app, st, kind).Ok? ==> Grown(st.results, ParseArg(app, st, kind).state.results)
  {
    var parts := SplitArg(Top(st.args), kind);
    hide Collect, FindOption, Recognize, SplitArg, MaxNum;
    var found := FindOption(app.options, parts.name, kind);
    if found.Some? {
      CollectGrows(app, st.(args := Pop(st.args)), found.value, parts.name, parts.value, parts.rest);
    }
  }

  lemma PositionalGrows(app: Config, st: State)
    requires Fits(app, st) && st.args != []
    ensures ParsePositional(app, st).Ok? ==> Grown(st.results, ParsePositional(app, st).state.results)
  {
    hide CountRemaining, FindPositional, AddResult, Separated;
    forall i | 0 <= i < |app.options| ensures Grown(st.results, TakePositional(app, st, i).results) {
      AddGrows(app, st, i, "");
      AddGrows(app, Separated(app, st, i), i, Top(st.args));
      GrownTwice(st.results, Separated(app, st, i).results, TakePositional(app, st, i).results);
    }
  }

  lemma SingleGrows(app: Config, st: State)
    requires Fits(app, st) && st.args != []
    ensures ParseSingle(app, st).Ok? ==> Grown(st.results, ParseSingle(app, st).state.results)
  {
    hide ParseArg, ParsePositional, Recognize;
    var kind := if st.positionalOnly then Nothing else Recognize(app, Top(st.args));
    if IsOption(kind) {
      ArgGrows(app, st, kind);
    }
    PositionalGrows(app, st);
  }

  /** No parse loses, changes or reorders a result that an option already has. */
  lemma {:induction false} ParsingGrows(app: Config, st: State)
    requires Fits(app, st)
    ensures ParseAll(app, st).Ok? ==> Grown(st.results, ParseAll(app, st).state.results)
    decreases Measure(st.args)
  {
    hide ParseSingle;
    if st.args != [] {
      ParseAllStep(app, st);
      SingleGrows(app, st);
      SingleDecreases(app, st);
      var r := ParseSingle(app, st);
      if r.Ok? {
        ParsingGrows(app, r.state);
        if ParseAll(app, st).Ok? {
          GrownTwice(st.results, r.state.results, ParseAll(app, r.state).state.results);
        }
      }
    }
  }

  /** A step leaves no more required values missing than there were. */
  lemma SingleKeepsCount(app: Config, st: State)
    requires Fits(app, st) && st.args != [] && ParseSingle(app, st).Ok?
    ensures CountRemaining(ParseSingle(app, st).state.results, app.options) <= CountRemaining(st.results, app.options)
  {
    hide ParseSingle, CountRemaining;
    SingleGrows(app, st);
    CountShrinks(st.results, ParseSingle(app, st).state.results, app.options);
  }
}
