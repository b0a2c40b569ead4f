/** What happens after --: every word goes to a positional or is missing, whatever it starts with. */
module CliMark {
  import opened CliParse
  import opened CliGrowth
  import opened CliValues

  /** The arguments in the order of the command line. */
  function Words(args: seq<string>): (words: seq<string>)
    ensures |words| == |args|
    ensures forall k :: 0 <= k < |words| ==> words[k] == args[|args| - 1 - k]
  {
    if args == [] then [] else [Top(args)] + Words(Pop(args))
  }

  /** Is option i a positional that would still take the word? */
  predicate Open(app: Config, results: seq<seq<string>>, i: nat, word: string)
    requires |results| == |app.options| && i < |app.options|
  {
    var o := app.options[i];
    && o.positional && (|results[i]| < o.sizeMin * o.expectedMin || o.allowExtra)
    && (app.validatePositionals ==> o.accepts(word))
  }

  predicate AllClosed(app: Config, results: seq<seq<string>>, word: string)
    requires |results| == |app.options|
  {
    forall i :: 0 <= i < |app.options| ==> !Open(app, results, i, word)
  }

  /** Is option i a required positional that still lacks values? */
  predicate Owed(app: Config, results: seq<seq<string>>, i: nat, word: string)
    requires |results| == |app.options| && i < |app.options|
  {
    app.options[i].required && |results[i]| < app.options[i].sizeMin * app.options[i].expectedMin && Open(app, results, i, word)
  }

  /** The first positional that takes a word; where positionals come at the end and no more words are left than
      values are required, the first that lacks some. */
  predicate TakesFirst(app: Config, results: seq<seq<string>>, left: nat, word: string, i: nat)
    requires |results| == |app.options| && i < |app.options|
  {
    if app.positionalsAtEnd && left <= CountRemaining(results, app.options) &&
       exists j :: 0 <= j < |app.options| && Owed(app, results, j, word)
    then Owed(app, results, i, word) && forall j :: 0 <= j < i ==> !Owed(app, results, j, word)
    else Open(app, results, i, word) && forall j :: 0 <= j < i ==> !Open(app, results, j, word)
  }

  /** The words are dealt out one after the other, each to the positional that takes it first; a word that none
      takes is left, and after it a prefix command leaves all others. */
  predicate Deals(app: Config, results: seq<seq<string>>, words: seq<string>, takers: seq<Option<nat>>, end: seq<seq<string>>)
    requires |results| == |app.options|
    decreases |words|
  {
    if words == [] then takers == [] && end == results
    else
      && |takers| == |words|
      && match takers[0]
         case None =>
           && AllClosed(app, results, words[0]) && !app.positionalsAtEnd
           && if app.prefixCommand then end == results && forall k :: 0 <= k < |takers| ==> takers[k] == None
              else Deals(app, results, words[1..], takers[1..], end)
         case Some(i) =>
           && i < |app.options| && TakesFirst(app, results, |words|, words[0], i)
           && Deals(app, results[i := results[i] + Gap(app.options[i], results[i]) + Pieces(app.options[i], words[0])],
                    words[1..], takers[1..], end)
  }

  /** The words that nobody took, as missing arguments. */
  function Untaken(words: seq<string>, takers: seq<Option<nat>>): seq<(Classifier, string)>
    requires |words| == |takers|
  {
    if words == [] then []
    else (if takers[0].None? then [(Nothing, words[0])] else []) + Untaken(words[1..], takers[1..])
  }

  function Taken(takers: seq<Option<nat>>): seq<nat> {
    if takers == [] then [] else (if takers[0].Some? then [takers[0].value] else []) + Taken(takers[1..])
  }

  function Nobody(n: nat): (takers: seq<Option<nat>>)
    ensures |takers| == n && forall k :: 0 <= k < n ==> takers[k] == None
  {
    if n == 0 then [] else [None] + Nobody(n - 1)
  }

  lemma {:induction false} AllLeft(st: State, words: seq<string>)
    requires words == Words(st.args)
    ensures AllMissing(st) == st.(args := [], missing := st.missing + Untaken(words, Nobody(|words|)))
    ensures Taken(Nobody(|words|)) == []
    decreases |words|
  {
    if st.args == [] {
      assert st.missing + [] == st.missing;
    } else {
      var next := MoveToMissing(st, Nothing, Top(st.args)).(args := Pop(st.args));
      AllLeft(next, words[1..]);
      var rest := Untaken(words[1..], Nobody(|words| - 1));
      assert Nobody(|words|)[1..] == Nobody(|words| - 1);
      assert st.missing + ([(Nothing, words[0])] + rest) == (st.missing + [(Nothing, words[0])]) + rest;
    }
  }

  lemma OpenIff(app: Config, st: State, i: nat, s: string)
    requires Fits(app, st) && i < |app.options|
    ensures Takes(app, st, i, s, false) <==> Open(app, st.results, i, s)
    ensures Takes(app, st, i, s, true) <==> Owed(app, st.results, i, s)
  {
  }

  lemma TakenIs(app: Config, st: State, i: nat)
    requires Fits(app, st) && i < |app.options| && st.args != []
    ensures TakePositional(app, st, i) == Given(app, st, i, Top(st.args)).(args := Pop(st.args))
  {
    hide Separated, Given;
    GivenIs(app, st, i, Top(st.args));
  }

  /** One word: who takes it, or that nobody does. */
  lemma PositionalStep(app: Config, st: State) returns (taker: Option<nat>)
    requires Fits(app, st) && st.args != []
    ensures taker.Some? ==>
      && taker.value < |app.options| && TakesFirst(app, st.results, |st.args|, Top(st.args), taker.value)
      && Open(app, st.results, taker.value, Top(st.args))
      && ParsePositional(app, st) == Ok(Given(app, st, taker.value, Top(st.args)).(args := Pop(st.args)))
    ensures taker.None? ==> AllClosed(app, st.results, Top(st.args))
    ensures taker.None? && app.positionalsAtEnd ==> ParsePositional(app, st) == Thrown(Extras(st.args))
    ensures taker.None? && !app.positionalsAtEnd ==>
      var popped := MoveToMissing(st, Nothing, Top(st.args)).(args := Pop(st.args));
      ParsePositional(app, st) == Ok(if app.prefixCommand then AllMissing(popped) else popped)
  {
    var s := Top(st.args);
    var early := if app.positionalsAtEnd && |st.args| <= CountRemaining(st.results, app.options)
      then FindPositional(app, st, 0, s, true) else None;
    taker := if early.Some? then early else FindPositional(app, st, 0, s, false);
    forall i | 0 <= i < |app.options|
      ensures Takes(app, st, i, s, false) <==> Open(app, st.results, i, s)
      ensures Takes(app, st, i, s, true) <==> Owed(app, st.results, i, s)
      ensures Owed(app, st.results, i, s) ==> Open(app, st.results, i, s)
    {
      OpenIff(app, st, i, s);
    }
    hide CountRemaining, FindPositional, TakePositional, Given, Takes, Open, Owed;
    if taker.Some? {
      TakenIs(app, st, taker.value);
    }
  }

  lemma PositionalOnlyStep(app: Config, st: State)
    requires Fits(app, st) && st.args != [] && st.positionalOnly
    ensures ParseSingle(app, st) == ParsePositional(app, st)
  {
    hide ParsePositional;
    assert ParsePositional(app, st).Ok? ==> ParsePositional(app, st).state.(positionalOnly := true) == ParsePositional(app, st).state;
  }

  /** A parse that only takes positionals deals its words out, and throws only where positionals at the end
      leave a word. */
  lemma {:induction false} PositionalOnly(app: Config, st: State) returns (takers: seq<Option<nat>>)
    requires Fits(app, st) && st.positionalOnly
    ensures ParseAll(app, st).Thrown? ==> app.positionalsAtEnd && ParseAll(app, st).error.Extras?
    ensures ParseAll(app, st).Ok? ==>
      var end := ParseAll(app, st).state;
      && |takers| == |st.args| && Deals(app, st.results, Words(st.args), takers, end.results)
      && end.missing == st.missing + Untaken(Words(st.args), takers) && end.order == st.order + Taken(takers)
    decreases |st.args|
  {
    takers := [];
    if st.args == [] {
      assert st.missing + [] == st.missing && st.order + [] == st.order;
    } else {
      hide ParseSingle, ParseAll, Open, TakesFirst, Given, ParsePositional, Gap, Pieces;
      ParseAllStep(app, st);
      PositionalOnlyStep(app, st);
      var taker := PositionalStep(app, st);
      var words := Words(st.args);
      if taker.Some? {
        var next := ParseSingle(app, st).state;
        var rest := PositionalOnly(app, next);
        takers := [taker] + rest;
        if ParseAll(app, st).Ok? {
          TakenBy(app, st, taker.value, rest, next, ParseAll(app, st).state);
        }
      } else if !app.positionalsAtEnd {
        var popped := MoveToMissing(st, Nothing, Top(st.args)).(args := Pop(st.args));
        if app.prefixCommand {
          AllLeft(popped, words[1..]);
          LastStep(app, ParseSingle(app, st));
          takers := Nobody(|words|);
          PrefixLeft(app, st, popped);
        } else {
          var rest := PositionalOnly(app, popped);
          takers := [None] + rest;
          if ParseAll(app, st).Ok? {
            TakenByNone(app, st, rest, ParseAll(app, st).state);
          }
        }
      }
    }
  }

  lemma TakenBy(app: Config, st: State, i: nat, rest: seq<Option<nat>>, next: State, end: State)
    requires Fits(app, st) && st.args != [] && i < |app.options|
    requires TakesFirst(app, st.results, |st.args|, Top(st.args), i)
    requires next == Given(app, st, i, Top(st.args)).(args := Pop(st.args)) && |rest| == |next.args|
    requires Deals(app, next.results, Words(next.args), rest, end.results)
    requires end.missing == next.missing + Untaken(Words(next.args), rest) && end.order == next.order + Taken(rest)
    ensures
      var takers := [Some(i)] + rest;
      && Deals(app, st.results, Words(st.args), takers, end.results)
      && end.missing == st.missing + Untaken(Words(st.args), takers) && end.order == st.order + Taken(takers)
  {
    hide Open, TakesFirst, Gap, Pieces, Words;
    WordsStep(st.args);
    LogStep(Words(st.args), Some(i), rest, st, next, end);
    DealsTo(app, st, i, rest, end.results);
  }

  lemma WordsStep(args: seq<string>)
    requires args != []
    ensures Words(args)[0] == Top(args) && Words(args)[1..] == Words(Pop(args))
  {
  }

  lemma LogStep(words: seq<string>, taker: Option<nat>, rest: seq<Option<nat>>, st: State, next: State, end: State)
    requires words != [] && |rest| == |words| - 1
    requires next.missing == st.missing + if taker.None? then [(Nothing, words[0])] else []
    requires next.order == st.order + if taker.Some? then [taker.value] else []
    requires end.missing == next.missing + Untaken(words[1..], rest) && end.order == next.order + Taken(rest)
    ensures end.missing == st.missing + Untaken(words, [taker] + rest) && end.order == st.order + Taken([taker] + rest)
  {
    UntakenStep(words, taker, rest);
    TakenStep(taker, rest);
    hide Untaken, Taken;
    Assoc(st.missing, if taker.None? then [(Nothing, words[0])] else [], Untaken(words[1..], rest));
    Assoc(st.order, if taker.Some? then [taker.value] else [], Taken(rest));
  }

  lemma Assoc<T>(a: seq<T>, b: seq<T>, c: seq<T>)
    ensures (a + b) + c == a + (b + c)
  {
  }

  lemma UntakenStep(words: seq<string>, taker: Option<nat>, rest: seq<Option<nat>>)
    requires words != [] && |rest| == |words| - 1
    ensures Untaken(words, [taker] + rest) == (if taker.None? then [(Nothing, words[0])] else []) + Untaken(words[1..], rest)
  {
    assert ([taker] + rest)[1..] == rest;
  }

  lemma TakenStep(taker: Option<nat>, rest: seq<Option<nat>>)
    ensures Taken([taker] + rest) == (if taker.Some? then [taker.value] else []) + Taken(rest)
  {
    assert ([taker] + rest)[1..] == rest;
  }

  lemma DealsTo(app: Config, st: State, i: nat, rest: seq<Option<nat>>, end: seq<seq<string>>)
    requires Fits(app, st) && st.args != [] && i < |app.options|
    requires TakesFirst(app, st.results, |st.args|, Top(st.args), i)
    requires |rest| == |st.args| - 1 && Deals(app, Given(app, st, i, Top(st.args)).results, Words(Pop(st.args)), rest, end)
    ensures Deals(app, st.results, Words(st.args), [Some(i)] + rest, end)
  {
    hide Open, TakesFirst, Gap, Pieces, Words;
    WordsStep(st.args);
    assert ([Some(i)] + rest)[1..] == rest;
  }

  lemma TakenByNone(app: Config, st: State, rest: seq<Option<nat>>, end: State)
    requires Fits(app, st) && st.args != [] && AllClosed(app, st.results, Top(st.args))
    requires !app.positionalsAtEnd && !app.prefixCommand && |rest| == |st.args| - 1
    requires Deals(app, st.results, Words(Pop(st.args)), rest, end.results)
    requires end.missing == st.missing + [(Nothing, Top(st.args))] + Untaken(Words(Pop(st.args)), rest)
    requires end.order == st.order + Taken(rest)
    ensures
      var takers := [None] + rest;
      && Deals(app, st.results, Words(st.args), takers, end.results)
      && end.missing == st.missing + Untaken(Words(st.args), takers) && end.order == st.order + Taken(takers)
  {
    hide Open, TakesFirst, Gap, Pieces, Words;
    WordsStep(st.args);
    var popped := MoveToMissing(st, Nothing, Top(st.args)).(args := Pop(st.args));
    assert st.order + [] == st.order;
    LogStep(Words(st.args), None, rest, st, popped, end);
    assert ([None] + rest)[1..] == rest;
  }

  lemma PrefixLeft(app: Config, st: State, popped: State)
    requires Fits(app, st) && st.args != [] && AllClosed(app, st.results, Top(st.args))
    requires !app.positionalsAtEnd && app.prefixCommand
    requires popped == MoveToMissing(st, Nothing, Top(st.args)).(args := Pop(st.args))
    ensures
      var words, takers := Words(st.args), Nobody(|st.args|);
      && Deals(app, st.results, words, takers, AllMissing(popped).results)
      && AllMissing(popped).missing == st.missing + Untaken(words, takers)
      && AllMissing(popped).order == st.order + Taken(takers)
  {
    hide Open, Gap, Pieces;
    var words, takers := Words(st.args), Nobody(|st.args|);
    AllLeft(popped, words[1..]);
    assert words[1..] == Words(popped.args) && takers[1..] == Nobody(|st.args| - 1) && words[0] == Top(st.args);
    assert Untaken(words, takers) == [(Nothing, words[0])] + Untaken(words[1..], takers[1..]);
    assert Taken(takers) == Taken(takers[1..]) == [];
    assert st.order + [] == st.order;
  }

  lemma {:induction false} DealtToPositionals(
      app: Config, results: seq<seq<string>>, words: seq<string>, takers: seq<Option<nat>>, end: seq<seq<string>>)
    requires |results| == |app.options| && Deals(app, results, words, takers, end)
    ensures |end| == |results|
    ensures forall k :: 0 <= k < |takers| && takers[k].Some? ==>
      takers[k].value < |app.options| && app.options[takers[k].value].positional
    ensures forall j :: 0 <= j < |results| && !app.options[j].positional ==> end[j] == results[j]
    decreases |words|
  {
    hide Gap, Pieces;
    if words != [] {
      if takers[0].Some? {
        var i := takers[0].value;
        var next := results[i := results[i] + Gap(app.options[i], results[i]) + Pieces(app.options[i], words[0])];
        DealtToPositionals(app, next, words[1..], takers[1..], end);
      } else if !app.prefixCommand {
        DealtToPositionals(app, results, words[1..], takers[1..], end);
      }
      assert forall k :: 0 < k < |takers| ==> takers[k] == takers[1..][k - 1];
    }
  }

  /** After -- no word is read as an option: whatever it starts with it is dealt to a positional or missing, in
      order, and every option that is no positional keeps its results. */
  lemma MarkEndsOptions(app: Config, st: State, below: seq<string>) returns (takers: seq<Option<nat>>)
    requires Fits(app, st) && !st.positionalOnly && st.args == below + ["--"]
    ensures ParseAll(app, st).Thrown? ==> app.positionalsAtEnd && ParseAll(app, st).error.Extras?
    ensures ParseAll(app, st).Ok? ==>
      var end := ParseAll(app, st).state;
      && end.positionalOnly
      && |takers| == |below| && Deals(app, st.results, Words(below), takers, end.results)
      && (forall k :: 0 <= k < |takers| && takers[k].Some? ==>
           takers[k].value < |app.options| && app.options[takers[k].value].positional)
      && (forall j :: 0 <= j < |app.options| && !app.options[j].positional ==> end.results[j] == st.results[j])
      && end.missing == st.missing + [(PositionalMark, "--")] + Untaken(Words(below), takers)
      && end.order == st.order + Taken(takers)
  {
    hide Deals, ParseAll;
    assert Top(st.args) == "--" && Pop(st.args) == below;
    ParseAllStep(app, st);
    var next := ParseSingle(app, st).state;
    assert next == MoveToMissing(st.(args := below, positionalOnly := true), PositionalMark, "--");
    hide ParseSingle;
    takers := PositionalOnly(app, next);
    StaysPositional(app, next);
    if ParseAll(app, st).Ok? {
      DealtToPositionals(app, st.results, Words(below), takers, ParseAll(app, st).state.results);
    }
  }

  lemma {:induction false} StaysPositional(app: Config, st: State)
    requires Fits(app, st) && st.positionalOnly
    ensures ParseAll(app, st).Ok? ==> ParseAll(app, st).state.positionalOnly
    decreases Measure(st.args)
  {
    hide ParseSingle;
    if st.args != [] {
      ParseAllStep(app, st);
      SingleDecreases(app, st);
      PositionalOnlyStep(app, st);
      if ParseSingle(app, st).Ok? {
        StaysPositional(app, ParseSingle(app, st).state);
      }
    }
  }

  /** Where positionals come at the end the first of them ends option parsing, just as -- does. */
  lemma FirstAtEnd(app: Config, st: State)
    requires Fits(app, st) && app.positionalsAtEnd && st.args != [] && Recognize(app, Top(st.args)) == Nothing
    ensures ParseAll(app, st) == ParseAll(app, st.(positionalOnly := true))
  {
    hide ParseAll, FindPositional, CountRemaining, Recognize, TakePositional, Takes;
    var only := st.(positionalOnly := true);
    assert ParseSingle(app, st) == ParseSingle(app, only) by { SamePositional(app, st, only); }
    hide ParseSingle;
    ParseAllStep(app, st);
    ParseAllStep(app, only);
  }

  lemma {:induction false} SameTaker(app: Config, st: State, only: State, i: nat, s: string, requiredOnly: bool)
    requires Fits(app, st) && only == st.(positionalOnly := true) && i <= |app.options|
    ensures FindPositional(app, st, i, s, requiredOnly) == FindPositional(app, only, i, s, requiredOnly)
    decreases |app.options| - i
  {
    if i < |app.options| {
      SameTaker(app, st, only, i + 1, s, requiredOnly);
    }
  }

  lemma SamePositional(app: Config, st: State, only: State)
    requires Fits(app, st) && only == st.(positionalOnly := true) && app.positionalsAtEnd && st.args != []
    ensures ParsePositional(app, st).Thrown? ==> ParsePositional(app, only) == ParsePositional(app, st)
    ensures ParsePositional(app, st).Ok? ==>
      ParsePositional(app, only) == Ok(ParsePositional(app, st).state.(positionalOnly := true))
  {
    hide FindPositional, CountRemaining, Takes, Pieces;
    SameTaker(app, st, only, 0, Top(st.args), true);
    SameTaker(app, st, only, 0, Top(st.args), false);
  }

  /** A -- that follows an option ends its values, and is gone, exactly if the option could have taken more:
      then it does not end option parsing. */
  lemma MarkIsEatenIff(app: Config, e: Eating, below: seq<string>, i: nat, name: string)
    requires Fits(app, e.state) && i < |app.options| && e.state.args == below + ["--"]
    ensures
      var r := Optional(app, e, i, name);
      && r.Going? && r.eating.state.positionalOnly == e.state.positionalOnly
      && r.eating.state.args == if MaxNum(app.options[i]) > e.collected || app.options[i].allowExtra then below else e.state.args
  {
    hide MaxNum, MinNum, Pieces, CountRemaining, Inverted;
    assert Top(e.state.args) == "--" && Pop(e.state.args) == below;
    assert Recognize(app, "--") == PositionalMark;
    EatStep(app, e, i, CountRemaining(e.state.results, app.options));
    assert FlagValue(app.options[i], name, "").Value?;
  }

  lemma RestBeforeMark(app: Config, e: Eating, below: seq<string>, i: nat, name: string)
    requires Fits(app, e.state) && i < |app.options| && e.state.args == below + ["--"]
    requires MinNum(app.options[i]) <= e.collected && e.collected > 0
    requires !(Ragged(app.options[i], e.collected) && app.options[i].sizeMin == app.options[i].sizeMax)
    ensures
      var o, r := app.options[i], Rest(app, e, i, name);
      && r.Ok?
      && r.state == e.state.(
           args := if MaxNum(o) > e.collected || o.allowExtra then below else e.state.args,
           results := e.state.results[i := e.state.results[i] + if Ragged(o, e.collected) then [""] else []])
  {
    var o := app.options[i];
    assert MinNum(o) > 0 ==> o.sizeMax > 0;
    hide MaxNum, MinNum, CountRemaining, FlagValue;
    GatherStep(app, e, i);
    assert Top(e.state.args) == "--" && Pop(e.state.args) == below;
    assert Recognize(app, "--") == PositionalMark;
    EatStep(app, e, i, CountRemaining(e.state.results, app.options));
    assert Pieces(o, "") == [""] by { EmptyPiece(o); }
    hide Pieces;
    assert e.state.results[i := e.state.results[i] + []] == e.state.results by {
      assert e.state.results[i] + [] == e.state.results[i];
    }
  }

  /** Where an option could have taken more values, a flag after -- is still parsed as a flag. */
  lemma OptionAfterMark(app: Config, st: State, i: nat, name: string, value: string, j: nat, flag: string)
      returns (text: string)
    requires Fits(app, st) && !st.positionalOnly && i < |app.options| && j < |app.options| && i != j
    requires LongName(app, i, name) && value != "" && LongName(app, j, flag) && MaxNum(app.options[j]) == 0
    requires
      var o, k := app.options[i], |Pieces(app.options[i], value)|;
      && MinNum(o) <= k && k > 0 && (MaxNum(o) > k || (o.allowExtra && MaxNum(o) > 0))
      && !(Ragged(o, k) && o.sizeMin == o.sizeMax)
    requires st.args == ["--" + flag, "--", "--" + name + "=" + value]
    ensures ParseAll(app, st).Ok?
    ensures
      var o, rs, end := app.options[j], st.results[j], ParseAll(app, st).state;
      && SaysFor(o, flag, "", text) && end.results[j] == rs + Gap(o, rs) + Pieces(o, text)
      && end.missing == st.missing && !end.positionalOnly
  {
    hide MaxNum, MinNum, Pieces, Rest, ParseSingle, ParseAll, LongName, Gap, SaysFor, Ragged, DefaultFlag;
    var below := ["--" + flag];
    var marked := below + ["--"];
    assert st.args == marked + ["--" + name + "=" + value] && st.(args := st.args) == st;
    LongValue(app, st, marked, i, name, value);
    var fed := Fed(app, st.(args := marked), i, value);
    RestBeforeMark(app, fed, below, i, name);
    ParseAllStep(app, st);
    var next := ParseSingle(app, st).state;
    assert next.args == below && next.results[j] == st.results[j];
    text := FlagAlone(app, next, j, flag, "");
  }
}
