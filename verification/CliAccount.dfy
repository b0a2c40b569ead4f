/** Where every argument of a parse ends up: taken by an option, or in the missing list in order. */
module CliAccount {
  import opened CliParse
  import opened CliGrowth
  import opened CliMark
  import opened CliValues

  /** A word that is left, or words that an option takes with the rest of a cluster that it pushes back. Words
      are in the order of the argument vector: the last is the first on the command line. */
  datatype Fate = Left(kind: Classifier, word: string) | Took(option: nat, words: seq<string>, rest: string)

  /** The fates use the arguments up, one after the other, down to those that remain. */
  predicate UsesUp(args: seq<string>, log: seq<Fate>, remain: seq<string>)
    decreases |log|
  {
    if log == [] then args == remain
    else
      match log[0]
      case Left(_, word) => args != [] && Top(args) == word && UsesUp(Pop(args), log[1..], remain)
      case Took(_, words, rest) =>
        && words != [] && |words| <= |args| && args[|args| - |words|..] == words
        && UsesUp(args[..|args| - |words|] + (if rest == "" then [] else ["-" + rest]), log[1..], remain)
  }

  function Lefts(log: seq<Fate>): seq<(Classifier, string)> {
    if log == [] then []
    else (if log[0].Left? then [(log[0].kind, log[0].word)] else []) + Lefts(log[1..])
  }

  predicate HasName(o: Opt, name: string, kind: Classifier) {
    match kind
    case Long => name in o.longNames
    case Short => name in o.shortNames
    case _ => name in o.longNames || name in o.shortNames
  }

  /** i is the first option with the name that the word gives; None says that there is no such option. */
  predicate Named(app: Config, word: string, i: Option<nat>) {
    var kind := Recognize(app, word);
    && IsOption(kind)
    && var name := SplitArg(word, kind).name;
       match i
       case None => forall j :: 0 <= j < |app.options| ==> !HasName(app.options[j], name, kind)
       case Some(i) =>
         && i < |app.options| && HasName(app.options[i], name, kind)
         && forall j :: 0 <= j < i ==> !HasName(app.options[j], name, kind)
  }

  lemma FoundIsNamed(app: Config, word: string, kind: Classifier)
    requires Recognize(app, word) == kind && IsOption(kind)
    ensures Named(app, word, FindOption(app.options, SplitArg(word, kind).name, kind))
  {
    hide Recognize, SplitArg;
    forall o: Opt, name: string ensures HasName(o, name, kind) <==> Matches(o, name, kind) {
    }
  }

  /** Why the fate is right: an option is named by its word or is a positional; a word is left as an option
      only if no option has its name, and as anything else only if no positional takes it even at the end. */
  predicate Right(app: Config, fate: Fate, results: seq<seq<string>>)
    requires |results| == |app.options|
  {
    match fate
    case Took(i, words, rest) =>
      && i < |app.options| && words != []
      && (Named(app, Top(words), Some(i)) || (app.options[i].positional && |words| == 1 && rest == ""))
    case Left(kind, word) =>
      if kind == PositionalMark then word == "--"
      else if kind == Nothing then app.prefixCommand || AllClosed(app, results, word)
      else Recognize(app, word) == kind && Named(app, word, None)
  }

  predicate Touches(log: seq<Fate>, i: nat) {
    exists k :: 0 <= k < |log| && log[k].Took? && log[k].option == i
  }

  /** The log accounts for everything between two states. */
  predicate Accounts(app: Config, st: State, log: seq<Fate>, end: State, results: seq<seq<string>>)
    requires Fits(app, st) && |results| == |app.options|
  {
    && Fits(app, end) && UsesUp(st.args, log, end.args) && end.missing == st.missing + Lefts(log)
    && (forall k :: 0 <= k < |log| ==> Right(app, log[k], results))
    && (forall i: nat :: i < |app.options| && !Touches(log, i) ==> end.results[i] == st.results[i])
  }

  // Putting logs together

  lemma {:induction false} UsesUpBoth(a: seq<string>, first: seq<Fate>, b: seq<string>, second: seq<Fate>, c: seq<string>)
    requires UsesUp(a, first, b) && UsesUp(b, second, c)
    ensures UsesUp(a, first + second, c)
    decreases |first|
  {
    var both := first + second;
    if first == [] {
      assert both == second;
    } else {
      assert both[0] == first[0] && both[1..] == first[1..] + second;
      match first[0]
      case Left(_, word) => UsesUpBoth(Pop(a), first[1..], b, second, c);
      case Took(_, words, rest) =>
        UsesUpBoth(a[..|a| - |words|] + (if rest == "" then [] else ["-" + rest]), first[1..], b, second, c);
    }
  }

  lemma {:induction false} LeftsOfBoth(first: seq<Fate>, second: seq<Fate>)
    ensures Lefts(first + second) == Lefts(first) + Lefts(second)
    decreases |first|
  {
    var both := first + second;
    if first == [] {
      assert both == second;
    } else {
      assert both[0] == first[0] && both[1..] == first[1..] + second;
      LeftsOfBoth(first[1..], second);
    }
  }

  lemma TouchesBoth(first: seq<Fate>, second: seq<Fate>, i: nat)
    requires Touches(first, i) || Touches(second, i)
    ensures Touches(first + second, i)
  {
    var both := first + second;
    if Touches(first, i) {
      var k :| 0 <= k < |first| && first[k].Took? && first[k].option == i;
      assert both[k] == first[k];
    } else {
      var k :| 0 <= k < |second| && second[k].Took? && second[k].option == i;
      assert both[|first| + k] == second[k];
    }
  }

  lemma AccountsBoth(app: Config, st: State, first: seq<Fate>, mid: State, second: seq<Fate>, end: State, results: seq<seq<string>>)
    requires Fits(app, st) && |results| == |app.options| && Accounts(app, st, first, mid, results)
    requires Accounts(app, mid, second, end, results)
    ensures Accounts(app, st, first + second, end, results)
  {
    hide UsesUp, Lefts, Right, Touches;
    UsesUpBoth(st.args, first, mid.args, second, end.args);
    LeftsOfBoth(first, second);
    assert (st.missing + Lefts(first)) + Lefts(second) == st.missing + (Lefts(first) + Lefts(second));
    forall i: nat | i < |app.options| && !Touches(first + second, i)
      ensures !Touches(first, i) && !Touches(second, i)
    {
      if Touches(first, i) || Touches(second, i) {
        TouchesBoth(first, second, i);
      }
    }
  }

  // One step

  /** Everything but results, order and arguments stays, and of the results only those of option i change. */
  predicate OnlyOption(st: State, next: State, i: nat) {
    && next.missing == st.missing && next.positionalOnly == st.positionalOnly && |next.results| == |st.results|
    && next.args <= st.args && forall j :: 0 <= j < |st.results| && j != i ==> next.results[j] == st.results[j]
  }

  lemma {:induction false} GatherOnly(app: Config, e: Eating, i: nat)
    requires Fits(app, e.state) && i < |app.options|
    ensures OnlyOption(e.state, Gather(app, e, i).state, i)
    decreases |e.state.args|
  {
    hide MinNum, Pieces;
    if MinNum(app.options[i]) > e.collected && e.state.args != [] {
      var s := Top(e.state.args);
      var next := AddInOrder(app, e.state.(args := Pop(e.state.args)), i, s);
      GatherOnly(app, Eating(next, e.collected + |Pieces(app.options[i], s)|), i);
    }
  }

  lemma {:induction false} EatOnly(app: Config, e: Eating, i: nat, remaining: nat)
    requires Fits(app, e.state) && i < |app.options|
    ensures OnlyOption(e.state, Eat(app, e, i, remaining).state, i)
    decreases |e.state.args|
  {
    hide MaxNum, Pieces, Recognize;
    if EatsNext(app, e, i, remaining) {
      var s := Top(e.state.args);
      var next := AddInOrder(app, e.state.(args := Pop(e.state.args)), i, s);
      EatOnly(app, Eating(next, e.collected + |Pieces(app.options[i], s)|), i, remaining);
    }
  }

  lemma CollectOnly(app: Config, st: State, i: nat, name: string, value: string, rest: string)
    requires Fits(app, st) && i < |app.options|
    ensures Collect(app, st, i, name, value, rest).Ok? ==> OnlyOption(st, Collect(app, st, i, name, value, rest).state, i)
  {
    hide Pieces, MaxNum, MinNum, Recognize, FlagValue, CountRemaining, Gather, Eat;
    if Collect(app, st, i, name, value, rest).Ok? {
      var first := FirstValue(app, Separated(app, st, i), i, name, value, rest);
      var gathered := Gather(app, first.eating, i);
      GatherOnly(app, first.eating, i);
      EatOnly(app, gathered, i, CountRemaining(gathered.state.results, app.options));
    }
  }

  lemma OneFate(app: Config, st: State, fate: Fate, end: State, results: seq<seq<string>>)
    requires Fits(app, st) && |results| == |app.options| && Fits(app, end)
    requires UsesUp(st.args, [fate], end.args) && Right(app, fate, results)
    requires end.missing == st.missing + if fate.Left? then [(fate.kind, fate.word)] else []
    requires forall i: nat :: i < |app.options| && !(fate.Took? && fate.option == i) ==> end.results[i] == st.results[i]
    ensures Accounts(app, st, [fate], end, results)
  {
    hide UsesUp, Right;
    assert Lefts([fate]) == if fate.Left? then [(fate.kind, fate.word)] else [];
    forall i: nat | i < |app.options| && !Touches([fate], i) ensures end.results[i] == st.results[i] {
      assert [fate][0] == fate;
    }
  }

  lemma UnknownFate(app: Config, st: State, kind: Classifier, results: seq<seq<string>>)
    requires Fits(app, st) && st.args != [] && Recognize(app, Top(st.args)) == kind && IsOption(kind)
    requires |results| == |app.options| && Named(app, Top(st.args), None)
    ensures Accounts(app, st, [Left(kind, Top(st.args))], MoveToMissing(st.(args := Pop(st.args)), kind, Top(st.args)), results)
  {
    hide Named, Accounts, Recognize;
    var fate := Left(kind, Top(st.args));
    assert [fate][1..] == [] && UsesUp(st.args, [fate], Pop(st.args));
    OneFate(app, st, fate, MoveToMissing(st.(args := Pop(st.args)), kind, Top(st.args)), results);
  }

  lemma KnownFate(app: Config, st: State, i: nat, collected: State, rest: string, results: seq<seq<string>>) returns (fate: Fate)
    requires Fits(app, st) && st.args != [] && |results| == |app.options| && i < |app.options|
    requires Named(app, Top(st.args), Some(i)) && OnlyOption(st.(args := Pop(st.args)), collected, i)
    ensures Accounts(app, st, [fate], collected.(args := collected.args + if rest == "" then [] else ["-" + rest]), results)
  {
    hide Named, Accounts, UsesUp;
    var n := |collected.args|;
    var words := st.args[n..];
    fate := Took(i, words, rest);
    assert Top(words) == Top(st.args) && st.args[..n] == collected.args;
    var end := collected.(args := collected.args + if rest == "" then [] else ["-" + rest]);
    TookUses(st.args, i, n, rest, end.args);
    assert st.missing + [] == st.missing;
    OneFate(app, st, fate, end, results);
  }

  lemma ArgFate(app: Config, st: State, kind: Classifier, results: seq<seq<string>>) returns (fate: Fate)
    requires Fits(app, st) && st.args != [] && Recognize(app, Top(st.args)) == kind && IsOption(kind)
    requires |results| == |app.options| && ParseArg(app, st, kind).Ok?
    ensures Accounts(app, st, [fate], ParseArg(app, st, kind).state, results)
  {
    var parts := SplitArg(Top(st.args), kind);
    hide Collect, FindOption, Recognize, SplitArg, MaxNum, Accounts, OnlyOption;
    var found := FindOption(app.options, parts.name, kind);
    FoundIsNamed(app, Top(st.args), kind);
    hide Named;
    if found.None? {
      UnknownFate(app, st, kind, results);
      fate := Left(kind, Top(st.args));
    } else {
      var popped := st.(args := Pop(st.args));
      CollectOnly(app, popped, found.value, parts.name, parts.value, parts.rest);
      var collected := Collect(app, popped, found.value, parts.name, parts.value, parts.rest).state;
      assert collected.args + [] == collected.args;
      fate := KnownFate(app, st, found.value, collected, if MaxNum(app.options[found.value]) == 0 then parts.rest else "", results);
    }
  }

  lemma TookUses(args: seq<string>, i: nat, n: nat, rest: string, end: seq<string>)
    requires n < |args| && end == args[..n] + if rest == "" then [] else ["-" + rest]
    ensures UsesUp(args, [Took(i, args[n..], rest)], end)
  {
    var log := [Took(i, args[n..], rest)];
    assert log[1..] == [];
    assert args[|args| - |args[n..]|..] == args[n..];
  }

  lemma ClosedStays(app: Config, results: seq<seq<string>>, later: seq<seq<string>>, word: string)
    requires |results| == |app.options| && Grown(results, later) && AllClosed(app, results, word)
    ensures AllClosed(app, later, word)
  {
    forall i | 0 <= i < |app.options| ensures !Open(app, later, i, word) {
      assert results[i] <= later[i] && !Open(app, results, i, word);
    }
  }

  function AllLeftLog(words: seq<string>): seq<Fate> {
    if words == [] then [] else [Left(Nothing, words[0])] + AllLeftLog(words[1..])
  }

  lemma {:induction false} PrefixFates(app: Config, st: State, results: seq<seq<string>>)
    requires Fits(app, st) && |results| == |app.options| && app.prefixCommand
    ensures Accounts(app, st, AllLeftLog(Words(st.args)), AllMissing(st), results)
    decreases |st.args|
  {
    var log := AllLeftLog(Words(st.args));
    if st.args == [] {
      assert st.missing + [] == st.missing;
    } else {
      var fate := Left(Nothing, Top(st.args));
      var next := MoveToMissing(st, Nothing, Top(st.args)).(args := Pop(st.args));
      PrefixFates(app, next, results);
      assert Words(st.args)[1..] == Words(next.args);
      assert log == [fate] + AllLeftLog(Words(next.args));
      hide Accounts, AllLeftLog, Words, AllMissing;
      OneFate(app, st, fate, next, results);
      assert AllMissing(st) == AllMissing(next) by { AllMissingStep(st); }
      AccountsBoth(app, st, [fate], next, AllLeftLog(Words(next.args)), AllMissing(next), results);
    }
  }

  lemma AllMissingStep(st: State)
    requires st.args != []
    ensures AllMissing(st) == AllMissing(MoveToMissing(st, Nothing, Top(st.args)).(args := Pop(st.args)))
  {
  }

  lemma PositionalFate(app: Config, st: State, results: seq<seq<string>>) returns (log: seq<Fate>)
    requires Fits(app, st) && st.args != [] && |results| == |app.options| && Grown(st.results, results)
    requires ParsePositional(app, st).Ok?
    ensures Accounts(app, st, log, ParsePositional(app, st).state, results)
  {
    hide ParsePositional, Open, Accounts, AllMissing;
    var s := Top(st.args);
    var taker := PositionalStep(app, st);
    var end := ParsePositional(app, st).state;
    if taker.Some? {
      var fate := Took(taker.value, [s], "");
      log := [fate];
      TookUses(st.args, taker.value, |st.args| - 1, "", Pop(st.args));
      assert st.args[|st.args| - 1..] == [s] && Pop(st.args) + [] == Pop(st.args);
      assert app.options[taker.value].positional by { OpenIsPositional(app, st.results, taker.value, s); }
      assert st.missing + [] == st.missing;
      OneFate(app, st, fate, end, results);
    } else {
      var fate := Left(Nothing, s);
      var popped := MoveToMissing(st, Nothing, s).(args := Pop(st.args));
      ClosedStays(app, st.results, results, s);
      assert UsesUp(st.args, [fate], popped.args);
      OneFate(app, st, fate, popped, results);
      if app.prefixCommand {
        PrefixFates(app, popped, results);
        log := [fate] + AllLeftLog(Words(popped.args));
        AccountsBoth(app, st, [fate], popped, AllLeftLog(Words(popped.args)), end, results);
      } else {
        log := [fate];
      }
    }
  }

  lemma OpenIsPositional(app: Config, results: seq<seq<string>>, i: nat, word: string)
    requires |results| == |app.options| && i < |app.options| && Open(app, results, i, word)
    ensures app.options[i].positional
  {
  }

  lemma SingleFate(app: Config, st: State, results: seq<seq<string>>) returns (log: seq<Fate>)
    requires Fits(app, st) && st.args != [] && |results| == |app.options| && Grown(st.results, results)
    requires ParseSingle(app, st).Ok?
    ensures Accounts(app, st, log, ParseSingle(app, st).state, results)
  {
    hide ParseArg, ParsePositional, Recognize, AllClosed;
    var kind := if st.positionalOnly then Nothing else Recognize(app, Top(st.args));
    if IsOption(kind) {
      var fate := ArgFate(app, st, kind, results);
      log := [fate];
    } else if kind == PositionalMark {
      var fate := Left(PositionalMark, "--");
      log := [fate];
      assert Top(st.args) == "--" by { MarkIsMark(app, Top(st.args)); }
      assert UsesUp(st.args, log, Pop(st.args));
      OneFate(app, st, fate, ParseSingle(app, st).state, results);
    } else {
      log := PositionalFate(app, st, results);
    }
  }

  lemma MarkIsMark(app: Config, s: string)
    requires Recognize(app, s) == PositionalMark
    ensures s == "--"
  {
  }

  lemma NoFates(app: Config, st: State, results: seq<seq<string>>)
    requires Fits(app, st) && |results| == |app.options|
    ensures Accounts(app, st, [], st, results)
  {
    assert st.missing + [] == st.missing;
  }

  lemma {:induction false} FatesUpTo(app: Config, st: State, end: State) returns (log: seq<Fate>)
    requires Fits(app, st) && ParseAll(app, st) == Ok(end)
    ensures Fits(app, end) && Accounts(app, st, log, end, end.results)
    decreases Measure(st.args)
  {
    hide ParseSingle, Accounts, ParseAll;
    if st.args == [] {
      NoFates(app, st, st.results);
      LastStep(app, Ok(st));
      log := [];
    } else {
      ParseAllStep(app, st);
      SingleDecreases(app, st);
      var next := ParseSingle(app, st).state;
      ParsingGrows(app, st);
      var first := SingleFate(app, st, end.results);
      var second := FatesUpTo(app, next, end);
      log := first + second;
      AccountsBoth(app, st, first, next, second, end, end.results);
    }
  }

  /** Every argument is accounted for: the fates use all of them up, those that are left are the missing list in
      order, each fate is right, and an option that took nothing keeps its results. */
  lemma EveryArgument(app: Config, st: State) returns (log: seq<Fate>)
    requires Fits(app, st) && ParseAll(app, st).Ok?
    ensures
      var end := ParseAll(app, st).state;
      && UsesUp(st.args, log, []) && end.missing == st.missing + Lefts(log)
      && (forall k :: 0 <= k < |log| ==> Right(app, log[k], end.results))
      && (forall i: nat :: i < |app.options| && !Touches(log, i) ==> end.results[i] == st.results[i])
  {
    log := FatesUpTo(app, st, ParseAll(app, st).state);
  }
}
