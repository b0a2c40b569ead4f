/** A cluster anywhere in option position: when what the parser does before it gets there is the same. */
module CliAnywhere {
  import opened CliParse
  import opened CliClusters
  import opened CliGrowth

  // Where a step looks at the number of arguments

  /** The optional-argument loop stops for the required values only, and would go on with that many arguments
      more. */
  predicate SizeStops(app: Config, e: Eating, i: nat, remaining: nat, extra: nat)
    requires i < |app.options|
  {
    Wants(app, e, i) && |e.state.args| <= remaining < |e.state.args| + extra
  }

  predicate OptionAgrees(app: Config, e: Eating, i: nat, extra: nat)
    requires Fits(app, e.state) && i < |app.options|
  {
    var o, remaining := app.options[i], CountRemaining(e.state.results, app.options);
    (MaxNum(o) <= e.collected && !o.allowExtra) || !SizeStops(app, Eat(app, e, i, remaining), i, remaining, extra)
  }

  predicate CollectAgrees(app: Config, st: State, i: nat, name: string, value: string, rest: string, extra: nat)
    requires Fits(app, st) && i < |app.options|
  {
    var first := FirstValue(app, Separated(app, st, i), i, name, value, rest);
    first.Going? ==> OptionAgrees(app, Gather(app, first.eating, i), i, extra)
  }

  predicate ArgAgrees(app: Config, st: State, kind: Classifier, extra: nat)
    requires Fits(app, st) && st.args != [] && Recognize(app, Top(st.args)) == kind && IsOption(kind)
  {
    var parts := SplitArg(Top(st.args), kind);
    var found := FindOption(app.options, parts.name, kind);
    found.Some? ==>
      CollectAgrees(app, st.(args := Pop(st.args)), found.value, parts.name, parts.value, parts.rest, extra)
  }

  /** With positionals at the end, required ones take precedence once the arguments get few. */
  predicate PositionalAgrees(app: Config, st: State, extra: nat)
    requires Fits(app, st) && st.args != []
  {
    var s, early := Top(st.args), FindPositional(app, st, 0, Top(st.args), true);
    app.positionalsAtEnd && |st.args| <= CountRemaining(st.results, app.options) < |st.args| + extra && early.Some? ==>
      early == FindPositional(app, st, 0, s, false)
  }

  /** Would this step do the same with extra arguments more at the bottom? */
  predicate StepAgrees(app: Config, st: State, extra: nat)
    requires Fits(app, st) && st.args != []
  {
    var kind := if st.positionalOnly then Nothing else Recognize(app, Top(st.args));
    match kind
    case PositionalMark => true
    case Nothing => PositionalAgrees(app, st, extra)
    case _ => ArgAgrees(app, st, kind, extra)
  }

  // The bottom of the argument vector

  /** The optional-argument loop stops at this bottom. */
  predicate Stops(app: Config, bottom: seq<string>) {
    bottom != [] && IsOption(Recognize(app, Top(bottom)))
  }

  /** The same state on another bottom. */
  function Swap(st: State, bottom: seq<string>, other: seq<string>): (r: State)
    requires bottom <= st.args
    ensures other <= r.args && |r.args| - |other| == |st.args| - |bottom|
  {
    st.(args := other + st.args[|bottom|..])
  }

  lemma SwapPop(st: State, bottom: seq<string>, other: seq<string>)
    requires bottom <= st.args && |bottom| < |st.args|
    ensures bottom <= Pop(st.args) && Top(Swap(st, bottom, other).args) == Top(st.args)
    ensures Pop(Swap(st, bottom, other).args) == Swap(st.(args := Pop(st.args)), bottom, other).args
  {
  }

  lemma SwapPush(args: seq<string>, bottom: seq<string>, other: seq<string>, s: string)
    requires bottom <= args
    ensures bottom <= args + [s] && other + (args + [s])[|bottom|..] == (other + args[|bottom|..]) + [s]
  {
  }

  lemma {:induction false} GatherLocal(app: Config, e: Eating, i: nat, bottom: seq<string>, other: seq<string>)
    requires Fits(app, e.state) && i < |app.options| && bottom != [] && other != [] && bottom <= e.state.args
    requires |bottom| <= |Gather(app, e, i).state.args|
    ensures
      var r := Gather(app, e, i);
      bottom <= r.state.args &&
      Gather(app, e.(state := Swap(e.state, bottom, other)), i) == r.(state := Swap(r.state, bottom, other))
    decreases |e.state.args|
  {
    hide Pieces, MinNum;
    if MinNum(app.options[i]) > e.collected {
      assert |Gather(app, e, i).state.args| < |e.state.args|;
      SwapPop(e.state, bottom, other);
      var s := Top(e.state.args);
      var next := AddInOrder(app, e.state.(args := Pop(e.state.args)), i, s);
      GatherLocal(app, Eating(next, e.collected + |Pieces(app.options[i], s)|), i, bottom, other);
    }
  }

  /** The outcome leaves fewer arguments above its bottom. */
  predicate Fewer(o: Outcome, other: seq<string>, r: State, bottom: seq<string>) {
    o.Ok? ==> |o.state.args| + |bottom| < |r.args| + |other|
  }

  lemma WantsLocal(app: Config, e: Eating, i: nat, bottom: seq<string>, other: seq<string>)
    requires i < |app.options| && Stops(app, bottom) && Stops(app, other) && bottom <= e.state.args
    ensures Wants(app, e.(state := Swap(e.state, bottom, other)), i) == Wants(app, e, i)
    ensures Wants(app, e, i) ==> |bottom| < |e.state.args|
  {
    hide MaxNum, Recognize;
    if |e.state.args| > |bottom| {
      SwapPop(e.state, bottom, other);
    } else {
      assert e.state.args == bottom && Swap(e.state, bottom, other).args == other;
    }
  }

  lemma EatShrinks(app: Config, e: Eating, i: nat, remaining: nat)
    requires Fits(app, e.state) && i < |app.options| && EatsNext(app, e, i, remaining)
    ensures |Eat(app, e, i, remaining).state.args| < |e.state.args|
  {
    hide Pieces, EatsNext, Eat;
    EatStep(app, e, i, remaining);
    EatsNextIs(app, e, i, remaining);
  }

  lemma EatsNextIs(app: Config, e: Eating, i: nat, remaining: nat)
    requires i < |app.options|
    ensures EatsNext(app, e, i, remaining) <==> Wants(app, e, i) && remaining < |e.state.args|
    ensures Wants(app, e, i) ==> e.state.args != []
  {
    hide MaxNum, Recognize;
  }

  /** The loop eats the same on both bottoms exactly when it does not stop for the required values alone. */
  lemma {:induction false} EatIff(app: Config, e: Eating, i: nat, remaining: nat, bottom: seq<string>, other: seq<string>)
    requires Fits(app, e.state) && i < |app.options| && Stops(app, bottom) && Stops(app, other)
    requires bottom <= e.state.args && |bottom| <= |other|
    ensures
      var r := Eat(app, e, i, remaining);
      var t := Eat(app, e.(state := Swap(e.state, bottom, other)), i, remaining);
      && bottom <= r.state.args
      && (!SizeStops(app, r, i, remaining, |other| - |bottom|) ==> t == r.(state := Swap(r.state, bottom, other)))
      && (SizeStops(app, r, i, remaining, |other| - |bottom|) ==> Fewer(Ok(t.state), other, r.state, bottom))
    decreases |e.state.args|
  {
    hide Pieces, Wants, EatsNext, Eat, Stops;
    var swapped := e.(state := Swap(e.state, bottom, other));
    WantsLocal(app, e, i, bottom, other);
    EatsNextIs(app, e, i, remaining);
    EatsNextIs(app, swapped, i, remaining);
    EatStep(app, e, i, remaining);
    EatStep(app, swapped, i, remaining);
    if EatsNext(app, e, i, remaining) {
      SwapPop(e.state, bottom, other);
      var s := Top(e.state.args);
      var next := AddInOrder(app, e.state.(args := Pop(e.state.args)), i, s);
      EatIff(app, Eating(next, e.collected + |Pieces(app.options[i], s)|), i, remaining, bottom, other);
    } else if EatsNext(app, swapped, i, remaining) {
      EatShrinks(app, swapped, i, remaining);
    }
  }

  lemma DropLocal(app: Config, st: State, bottom: seq<string>, other: seq<string>)
    requires Stops(app, bottom) && Stops(app, other) && bottom <= st.args
    ensures bottom <= DropMark(app, st).args
    ensures DropMark(app, Swap(st, bottom, other)) == Swap(DropMark(app, st), bottom, other)
  {
    hide Recognize;
    if |st.args| > |bottom| {
      SwapPop(st, bottom, other);
    } else {
      assert st.args == bottom && Swap(st, bottom, other).args == other;
    }
  }

  lemma NoMark(app: Config, e: Eating, i: nat)
    requires i < |app.options| && Wants(app, e, i)
    ensures DropMark(app, e.state) == e.state
  {
    hide MaxNum, Recognize;
  }

  lemma OptionalIff(app: Config, e: Eating, i: nat, name: string, bottom: seq<string>, other: seq<string>)
    requires Fits(app, e.state) && i < |app.options| && Stops(app, bottom) && Stops(app, other)
    requires bottom <= e.state.args && |bottom| <= |other| && Optional(app, e, i, name).Going?
    ensures
      var r := Optional(app, e, i, name).eating;
      var t := Optional(app, e.(state := Swap(e.state, bottom, other)), i, name);
      && bottom <= r.state.args
      && (OptionAgrees(app, e, i, |other| - |bottom|) ==> t == Going(r.(state := Swap(r.state, bottom, other))))
      && (!OptionAgrees(app, e, i, |other| - |bottom|) ==>
           t.Going? ==> Fewer(Ok(t.eating.state), other, r.state, bottom))
  {
    hide Pieces, MaxNum, MinNum, Recognize, CountRemaining, Eat, DropMark, FlagValue, Stops, Wants;
    var remaining := CountRemaining(e.state.results, app.options);
    var eaten := Eat(app, e, i, remaining);
    EatIff(app, e, i, remaining, bottom, other);
    DropLocal(app, eaten.state, bottom, other);
    if Wants(app, eaten, i) {
      NoMark(app, eaten, i);
    }
  }

  lemma FirstLocal(app: Config, st: State, i: nat, name: string, value: string, rest: string, args: seq<string>)
    requires Fits(app, st) && i < |app.options|
    ensures
      var r := FirstValue(app, Separated(app, st, i), i, name, value, rest);
      var s := FirstValue(app, Separated(app, st.(args := args), i), i, name, value, rest);
      if r.Going? then s == Going(r.eating.(state := r.eating.state.(args := args))) else s == r
  {
    hide Pieces, MaxNum, FlagValue;
  }

  /** An option's own work never looks below the bottom, if its result does not; and it looks at the size
      exactly where the two bottoms disagree. */
  lemma CollectIff(
      app: Config, st: State, i: nat, name: string, value: string, rest: string, bottom: seq<string>, other: seq<string>)
    requires Fits(app, st) && i < |app.options| && Stops(app, bottom) && Stops(app, other)
    requires bottom <= st.args && |bottom| <= |other| && Collect(app, st, i, name, value, rest).Ok?
    requires MinNum(app.options[i]) == 0 || |bottom| <= |Collect(app, st, i, name, value, rest).state.args|
    ensures
      var r := Collect(app, st, i, name, value, rest).state;
      var t := Collect(app, Swap(st, bottom, other), i, name, value, rest);
      var agrees := CollectAgrees(app, st, i, name, value, rest, |other| - |bottom|);
      && bottom <= r.args
      && (agrees ==> t == Ok(Swap(r, bottom, other)))
      && (!agrees ==> Fewer(t, other, r, bottom))
  {
    hide Pieces, MaxNum, MinNum, Recognize, Gather, Optional, OptionAgrees, Separated, FirstValue, Swap, Stops;
    var swapped := Swap(st, bottom, other).args;
    FirstLocal(app, st, i, name, value, rest, swapped);
    SwapIs(st, bottom, other);
    var first := FirstValue(app, Separated(app, st, i), i, name, value, rest).eating;
    SwapIs(first.state, bottom, other);
    var gathered := Gather(app, first, i);
    NothingToGather(app, first, i);
    assert |bottom| <= |gathered.state.args|;
    StopsIs(app, bottom, other);
    GatherLocal(app, first, i, bottom, other);
    OptionalIff(app, gathered, i, name, bottom, other);
    var full := Optional(app, gathered, i, name).eating;
    SwapIs(full.state, bottom, other);
    SwapIs(Partial(app, full, i).state, bottom, other);
  }

  lemma StopsIs(app: Config, bottom: seq<string>, other: seq<string>)
    requires Stops(app, bottom) && Stops(app, other)
    ensures bottom != [] && other != []
  {
  }

  lemma SwapIs(st: State, bottom: seq<string>, other: seq<string>)
    requires bottom <= st.args
    ensures Swap(st, bottom, other) == st.(args := other + st.args[|bottom|..])
  {
  }

  lemma NothingToGather(app: Config, e: Eating, i: nat)
    requires Fits(app, e.state) && i < |app.options|
    ensures MinNum(app.options[i]) == 0 ==> Gather(app, e, i) == e
  {
    hide MinNum;
  }

  // Whole steps

  lemma ArgIff(app: Config, st: State, kind: Classifier, bottom: seq<string>, other: seq<string>)
    requires Fits(app, st) && Stops(app, bottom) && Stops(app, other) && |bottom| <= |other|
    requires bottom <= st.args && |bottom| < |st.args|
    requires Recognize(app, Top(st.args)) == kind && IsOption(kind)
    requires ParseArg(app, st, kind).Ok? && bottom <= ParseArg(app, st, kind).state.args
    ensures Recognize(app, Top(Swap(st, bottom, other).args)) == kind
    ensures ParseArg(app, Swap(st, bottom, other), kind) == Ok(Swap(ParseArg(app, st, kind).state, bottom, other)) <==>
      ArgAgrees(app, st, kind, |other| - |bottom|)
  {
    var current := Top(st.args);
    var parts := SplitArg(current, kind);
    hide Collect, CollectAgrees, Recognize, FindOption, Stops, SplitArg, MaxNum, MinNum;
    SwapPop(st, bottom, other);
    var popped := st.(args := Pop(st.args));
    var found := FindOption(app.options, parts.name, kind);
    if found.Some? {
      var i := found.value;
      var collected := Collect(app, popped, i, parts.name, parts.value, parts.rest);
      MinOfPlain(app.options[i]);
      CollectIff(app, popped, i, parts.name, parts.value, parts.rest, bottom, other);
      hide Swap, Fewer;
      var pushes := MaxNum(app.options[i]) == 0 && parts.rest != "";
      PushedIff(collected.state, Collect(app, Swap(popped, bottom, other), i, parts.name, parts.value, parts.rest),
                "-" + parts.rest, pushes, CollectAgrees(app, popped, i, parts.name, parts.value, parts.rest, |other| - |bottom|),
                bottom, other);
      SwapIs(st, bottom, other);
      SwapIs(popped, bottom, other);
    } else {
      SwapIs(popped, bottom, other);
    }
  }

  /** Pushing the rest of a cluster back keeps both an agreement and a disagreement. */
  lemma PushedIff(r: State, t: Outcome, s: string, pushes: bool, agrees: bool, bottom: seq<string>, other: seq<string>)
    requires bottom <= r.args && (agrees ==> t == Ok(Swap(r, bottom, other))) && (!agrees ==> Fewer(t, other, r, bottom))
    ensures bottom <= Pushed(Ok(r), s, pushes).state.args
    ensures Pushed(t, s, pushes) == Ok(Swap(Pushed(Ok(r), s, pushes).state, bottom, other)) <==> agrees
  {
    SwapPush(r.args, bottom, other, s);
  }

  function Pushed(o: Outcome, s: string, pushes: bool): (r: Outcome)
    ensures r.Ok? <==> o.Ok?
  {
    if o.Ok? && pushes then Ok(o.state.(args := o.state.args + [s])) else o
  }

  lemma {:induction false} FindPositionalArgs(
      app: Config, st: State, i: nat, s: string, requiredOnly: bool, args: seq<string>)
    requires Fits(app, st) && i <= |app.options|
    ensures FindPositional(app, st.(args := args), i, s, requiredOnly) == FindPositional(app, st, i, s, requiredOnly)
    decreases |app.options| - i
  {
    hide ItemsMin;
    if i < |app.options| {
      FindPositionalArgs(app, st, i + 1, s, requiredOnly, args);
    }
  }

  lemma TakeLocal(app: Config, st: State, i: nat, bottom: seq<string>, other: seq<string>)
    requires Fits(app, st) && i < |app.options| && bottom <= st.args && |bottom| < |st.args|
    ensures bottom <= TakePositional(app, st, i).args
    ensures TakePositional(app, Swap(st, bottom, other), i) == Swap(TakePositional(app, st, i), bottom, other)
    ensures TakePositional(app, st, i).order == st.order + [i]
  {
    SwapPop(st, bottom, other);
    hide Pieces;
  }

  lemma PositionalIff(app: Config, st: State, bottom: seq<string>, other: seq<string>)
    requires Fits(app, st) && bottom != [] && |bottom| <= |other| && bottom <= st.args && |bottom| < |st.args|
    requires ParsePositional(app, st).Ok? && bottom <= ParsePositional(app, st).state.args
    ensures ParsePositional(app, Swap(st, bottom, other)) == Ok(Swap(ParsePositional(app, st).state, bottom, other)) <==>
      PositionalAgrees(app, st, |other| - |bottom|)
  {
    SwapPop(st, bottom, other);
    hide CountRemaining, FindPositional, TakePositional;
    var s, swapped := Top(st.args), Swap(st, bottom, other);
    FindPositionalArgs(app, st, 0, s, false, swapped.args);
    FindPositionalArgs(app, st, 0, s, true, swapped.args);
    RequiredIsPositional(app, st, s);
    var early, late := FindPositional(app, st, 0, s, true), FindPositional(app, st, 0, s, false);
    if early.Some? {
      TakeLocal(app, st, early.value, bottom, other);
      TakeLocal(app, st, late.value, bottom, other);
      if early != late {
        assert (st.order + [early.value])[|st.order|] != (st.order + [late.value])[|st.order|];
      }
    } else if late.Some? {
      TakeLocal(app, st, late.value, bottom, other);
    }
  }

  lemma RequiredIsPositional(app: Config, st: State, s: string)
    requires Fits(app, st)
    ensures FindPositional(app, st, 0, s, true).Some? ==> FindPositional(app, st, 0, s, false).Some?
  {
    hide ItemsMin;
    var early := FindPositional(app, st, 0, s, true);
    if early.Some? {
      assert Takes(app, st, early.value, s, true) && Takes(app, st, early.value, s, false);
    }
  }

  /** One step above the cluster gives the same result with the flags one by one below it if and only if it
      does not look at the number of arguments where the two differ. */
  lemma SingleIff(app: Config, st: State, bottom: seq<string>, other: seq<string>)
    requires Fits(app, st) && Stops(app, bottom) && Stops(app, other) && |bottom| <= |other|
    requires bottom <= st.args && |bottom| < |st.args|
    requires ParseSingle(app, st).Ok? && bottom <= ParseSingle(app, st).state.args
    ensures ParseSingle(app, Swap(st, bottom, other)) == Ok(Swap(ParseSingle(app, st).state, bottom, other)) <==>
      StepAgrees(app, st, |other| - |bottom|)
  {
    hide ParseArg, ParsePositional, ArgAgrees, PositionalAgrees, Recognize;
    SwapPop(st, bottom, other);
    var kind := if st.positionalOnly then Nothing else Recognize(app, Top(st.args));
    if IsOption(kind) {
      ArgIff(app, st, kind, bottom, other);
    } else if kind == Nothing {
      PositionalIff(app, st, bottom, other);
    }
  }

  // The theorem

  /** The parse comes to the bottom as the start of an argument, not of a value, and before any --. */
  predicate InOptionPosition(app: Config, st: State, bottom: seq<string>)
    requires Fits(app, st)
    decreases Measure(st.args)
  {
    && bottom <= st.args
    && if st.args == bottom then !st.positionalOnly
       else
         SingleDecreases(app, st);
         var r := ParseSingle(app, st);
         r.Ok? && InOptionPosition(app, r.state, bottom)
  }

  /** Every step on the way to the bottom would do the same with extra arguments more. */
  predicate AgreesAlong(app: Config, st: State, bottom: seq<string>, extra: nat)
    requires Fits(app, st) && InOptionPosition(app, st, bottom)
    decreases Measure(st.args)
  {
    st.args == bottom ||
    (SingleDecreases(app, st);
     StepAgrees(app, st, extra) && AgreesAlong(app, ParseSingle(app, st).state, bottom, extra))
  }

  lemma {:induction false} SameUpToBottom(app: Config, st: State, below: seq<string>, cs: string)
    requires Fits(app, st) && AllPlain(app, cs) && cs != ""
    requires InOptionPosition(app, st, below + ["-" + cs]) && AgreesAlong(app, st, below + ["-" + cs], |cs| - 1)
    ensures ParseAll(app, st) == ParseAll(app, Swap(st, below + ["-" + cs], below + Singles(cs)))
    decreases Measure(st.args)
  {
    hide AllPlain, ParseSingle, ParseAll, Stops, StepAgrees;
    var bottom, other := below + ["-" + cs], below + Singles(cs);
    if st.args == bottom {
      assert Swap(st, bottom, other) == st.(args := other) by { assert other + st.args[|bottom|..] == other; }
      assert st == st.(args := bottom);
      ClusterIsSingles(app, st, below, cs);
    } else {
      BottomsStop(app, below, cs);
      SingleDecreases(app, st);
      SingleIff(app, st, bottom, other);
      ParseAllStep(app, st);
      ParseAllStep(app, Swap(st, bottom, other));
      SameUpToBottom(app, ParseSingle(app, st).state, below, cs);
    }
  }

  lemma {:induction false} SinglesLength(cs: string)
    ensures |Singles(cs)| == |cs|
  {
    if cs != "" {
      SinglesLength(cs[1..]);
    }
  }

  lemma BottomsStop(app: Config, below: seq<string>, cs: string)
    requires AllPlain(app, cs) && cs != ""
    ensures Stops(app, below + ["-" + cs]) && Stops(app, below + Singles(cs))
    ensures |below + Singles(cs)| - |below + ["-" + cs]| == |cs| - 1
  {
    hide PlainFlag, Recognize;
    PlainIsShort(app, cs[0], cs[1..]);
    PlainIsShort(app, cs[0], "");
    assert "-" + cs == "-" + [cs[0]] + cs[1..];
    assert "-" + [cs[0]] + "" == "-" + [cs[0]];
    SinglesLength(cs);
    assert Top(below + Singles(cs)) == "-" + [cs[0]];
  }

  /** Replacing -abc by -a -b -c anywhere in option position changes nothing at the end: not the results, the
      order, the missing list, nor an exception. The guard is about the steps before the cluster, and it is
      exact for each of them. */
  lemma ClusterAnywhere(app: Config, st: State, below: seq<string>, cs: string, above: seq<string>)
    requires Fits(app, st) && AllPlain(app, cs) && cs != "" && st.args == below + ["-" + cs] + above
    requires InOptionPosition(app, st, below + ["-" + cs]) && AgreesAlong(app, st, below + ["-" + cs], |cs| - 1)
    ensures ParseAll(app, st) == ParseAll(app, st.(args := below + Singles(cs) + above))
  {
    hide AllPlain, ParseAll, InOptionPosition, AgreesAlong;
    var bottom := below + ["-" + cs];
    assert st.args[|bottom|..] == above;
    SameUpToBottom(app, st, below, cs);
  }

  // Where the guard always holds

  /** No option takes more arguments than it needs, and positionals come where they stand. */
  predicate FixedArity(app: Config) {
    !app.positionalsAtEnd &&
    forall i :: 0 <= i < |app.options| ==> !app.options[i].allowExtra && MaxNum(app.options[i]) <= MinNum(app.options[i])
  }

  lemma FixedAgrees(app: Config, st: State, extra: nat)
    requires Fits(app, st) && st.args != [] && FixedArity(app) && ParseSingle(app, st).Ok?
    ensures StepAgrees(app, st, extra)
  {
    hide MaxNum, MinNum, Recognize, FindOption, SplitArg, Separated, FirstValue, Gather, Optional, FindPositional, CountRemaining, Eat;
  }

  /** With enough arguments below, no step ever stops for the required values. */
  lemma EnoughAgrees(app: Config, st: State, bottom: seq<string>, extra: nat)
    requires Fits(app, st) && Stops(app, bottom) && bottom <= st.args && |bottom| < |st.args|
    requires CountRemaining(st.results, app.options) <= |bottom|
    requires ParseSingle(app, st).Ok? && bottom <= ParseSingle(app, st).state.args
    ensures StepAgrees(app, st, extra)
  {
    hide ParseArg, ParsePositional, ArgAgrees, CountRemaining, FindPositional, Recognize, Stops;
    var kind := if st.positionalOnly then Nothing else Recognize(app, Top(st.args));
    if IsOption(kind) {
      EnoughForArg(app, st, kind, bottom, extra);
    }
  }

  lemma EnoughForArg(app: Config, st: State, kind: Classifier, bottom: seq<string>, extra: nat)
    requires Fits(app, st) && Stops(app, bottom) && bottom <= st.args && |bottom| < |st.args|
    requires Recognize(app, Top(st.args)) == kind && IsOption(kind)
    requires CountRemaining(st.results, app.options) <= |bottom|
    requires ParseArg(app, st, kind).Ok? && bottom <= ParseArg(app, st, kind).state.args
    ensures ArgAgrees(app, st, kind, extra)
  {
    var parts := SplitArg(Top(st.args), kind);
    hide Collect, CollectAgrees, Recognize, FindOption, Stops, SplitArg, MaxNum, MinNum, CountRemaining;
    var popped := st.(args := Pop(st.args));
    assert bottom <= popped.args;
    var found := FindOption(app.options, parts.name, kind);
    if found.Some? {
      MinOfPlain(app.options[found.value]);
      EnoughForCollect(app, popped, found.value, parts.name, parts.value, parts.rest, bottom, extra);
    }
  }

  lemma EnoughForCollect(
      app: Config, st: State, i: nat, name: string, value: string, rest: string, bottom: seq<string>, extra: nat)
    requires Fits(app, st) && i < |app.options| && Stops(app, bottom) && bottom <= st.args
    requires CountRemaining(st.results, app.options) <= |bottom|
    requires Collect(app, st, i, name, value, rest).Ok?
    requires MinNum(app.options[i]) == 0 || |bottom| <= |Collect(app, st, i, name, value, rest).state.args|
    ensures CollectAgrees(app, st, i, name, value, rest, extra)
  {
    hide Pieces, MaxNum, MinNum, Recognize, Gather, Optional, Eat, Wants, CountRemaining, Stops, Swap;
    FirstGrows(app, st, i, name, value, rest);
    hide FirstValue, Separated;
    var first := FirstValue(app, Separated(app, st, i), i, name, value, rest).eating;
    var gathered := Gather(app, first, i);
    NothingToGather(app, first, i);
    assert |bottom| <= |gathered.state.args|;
    StopsIs(app, bottom, bottom);
    GatherLocal(app, first, i, bottom, bottom);
    GatherGrows(app, first, i);
    GrownTwice(st.results, first.state.results, gathered.state.results);
    CountShrinks(st.results, gathered.state.results, app.options);
    var remaining := CountRemaining(gathered.state.results, app.options);
    EatIff(app, gathered, i, remaining, bottom, bottom);
    WantsLocal(app, Eat(app, gathered, i, remaining), i, bottom, bottom);
  }

  lemma FirstGrows(app: Config, st: State, i: nat, name: string, value: string, rest: string)
    requires Fits(app, st) && i < |app.options|
    ensures
      var r := FirstValue(app, Separated(app, st, i), i, name, value, rest);
      r.Going? ==> Grown(st.results, r.eating.state.results)
  {
    hide Pieces, MaxNum, FlagValue;
  }

  /** Three conditions under which a caller need not look at the run: the cluster has one flag, the program has
      only options of fixed arity, or at most as many required values are missing as there are arguments from
      the cluster on. */
  lemma {:induction false} GuardHolds(app: Config, st: State, bottom: seq<string>, extra: nat)
    requires Fits(app, st) && Stops(app, bottom) && InOptionPosition(app, st, bottom)
    requires extra == 0 || FixedArity(app) || CountRemaining(st.results, app.options) <= |bottom|
    ensures AgreesAlong(app, st, bottom, extra)
    decreases Measure(st.args)
  {
    hide ParseSingle, Stops, StepAgrees, CountRemaining, FixedArity;
    if st.args != bottom {
      SingleDecreases(app, st);
      if extra == 0 {
        NothingExtra(app, st);
      } else if FixedArity(app) {
        FixedAgrees(app, st, extra);
      } else {
        NextInPosition(app, st, bottom);
        EnoughAgrees(app, st, bottom, extra);
      }
      SingleKeepsCount(app, st);
      GuardHolds(app, ParseSingle(app, st).state, bottom, extra);
    }
  }

  /** The same for a caller who knows one of them. */
  lemma ClusterAnywhereIf(app: Config, st: State, below: seq<string>, cs: string, above: seq<string>)
    requires Fits(app, st) && AllPlain(app, cs) && cs != "" && st.args == below + ["-" + cs] + above
    requires InOptionPosition(app, st, below + ["-" + cs])
    requires |cs| == 1 || FixedArity(app) || CountRemaining(st.results, app.options) <= |below| + 1
    ensures ParseAll(app, st) == ParseAll(app, st.(args := below + Singles(cs) + above))
  {
    hide AllPlain, ParseAll, InOptionPosition, AgreesAlong, Stops, FixedArity, CountRemaining;
    BottomsStop(app, below, cs);
    GuardHolds(app, st, below + ["-" + cs], |cs| - 1);
    ClusterAnywhere(app, st, below, cs, above);
  }

  lemma NextInPosition(app: Config, st: State, bottom: seq<string>)
    requires Fits(app, st) && InOptionPosition(app, st, bottom) && st.args != bottom
    ensures ParseSingle(app, st).Ok? && bottom <= ParseSingle(app, st).state.args && |bottom| < |st.args|
  {
    hide ParseSingle;
    SingleDecreases(app, st);
  }

  lemma NothingExtra(app: Config, st: State)
    requires Fits(app, st) && st.args != []
    ensures StepAgrees(app, st, 0)
  {
    hide MaxNum, MinNum, Recognize, FindOption, SplitArg, Separated, FirstValue, Gather, Wants, FindPositional, CountRemaining, Eat;
  }
}
