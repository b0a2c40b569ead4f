/** The loops that collect an option's values, in closed form: how many words each takes and why it stops. */
module CliLoops {
  import opened CliParse
  import opened CliWords
  import opened CliGrowth
  import opened CliClusters
  import opened CliValues
  import opened CliMark

  function Repeat(i: nat, n: nat): seq<nat> {
    if n == 0 then [] else [i] + Repeat(i, n - 1)
  }

  /** The option has been given the first n words. */
  function WithWords(app: Config, e: Eating, i: nat, n: nat): (r: Eating)
    requires Fits(app, e.state) && i < |app.options| && n <= |e.state.args|
    ensures Fits(app, r.state)
  {
    var st, values := e.state, Flattened(app.options[i], Words(e.state.args)[..n]);
    Eating(st.(args := st.args[..|st.args| - n], results := st.results[i := st.results[i] + values],
               order := st.order + Repeat(i, n)),
           e.collected + |values|)
  }

  /** How many values the option has after n words. */
  function CollectedAfter(app: Config, e: Eating, i: nat, n: nat): nat
    requires i < |app.options| && n <= |e.state.args|
  {
    e.collected + |Flattened(app.options[i], Words(e.state.args)[..n])|
  }

  /** The loop for the minimum takes word n. */
  predicate GathersWord(app: Config, e: Eating, i: nat, n: nat)
    requires i < |app.options| && n <= |e.state.args|
  {
    n < |e.state.args| && CollectedAfter(app, e, i, n) < MinNum(app.options[i])
  }

  /** The loop for optional values takes word n: the option may have more, it is no option and no mark, it is
      valid where that is checked, and taking it leaves a word for each value that is required elsewhere. */
  predicate EatsWord(app: Config, e: Eating, i: nat, remaining: nat, n: nat)
    requires i < |app.options| && n <= |e.state.args|
  {
    && n < |e.state.args| && remaining <= |e.state.args| - n - 1
    && (CollectedAfter(app, e, i, n) < MaxNum(app.options[i]) || app.options[i].allowExtra)
    && Recognize(app, Words(e.state.args)[n]) == Nothing
    && (app.validateOptional ==> app.options[i].accepts(Words(e.state.args)[n]))
  }

  /** The state after one more word. */
  function Next(app: Config, e: Eating, i: nat): (r: Eating)
    requires Fits(app, e.state) && i < |app.options| && e.state.args != []
    ensures Fits(app, r.state) && r.state.args == Pop(e.state.args)
  {
    var s := Top(e.state.args);
    Eating(AddInOrder(app, e.state.(args := Pop(e.state.args)), i, s), e.collected + |Pieces(app.options[i], s)|)
  }

  lemma NoWords(app: Config, e: Eating, i: nat)
    requires Fits(app, e.state) && i < |app.options|
    ensures WithWords(app, e, i, 0) == e && CollectedAfter(app, e, i, 0) == e.collected
  {
    assert Words(e.state.args)[..0] == [] && e.state.args[..|e.state.args|] == e.state.args;
    assert e.state.results[i] + [] == e.state.results[i] && e.state.results[i := e.state.results[i]] == e.state.results;
    assert e.state.order + [] == e.state.order;
  }

  lemma FlattenedStep(o: Opt, words: seq<string>, n: nat)
    requires n < |words|
    ensures Flattened(o, words[..n + 1]) == Pieces(o, words[0]) + Flattened(o, words[1..][..n])
  {
    hide Pieces;
    assert words[..n + 1][0] == words[0] && words[..n + 1][1..] == words[1..][..n];
  }

  lemma WordsOf(args: seq<string>, n: nat)
    requires n < |args|
    ensures Words(args)[0] == Top(args) && Words(args)[1..] == Words(Pop(args))
    ensures n > 0 ==> Words(args)[n] == Words(Pop(args))[n - 1]
  {
  }

  lemma WordStep(app: Config, e: Eating, i: nat, n: nat)
    requires Fits(app, e.state) && i < |app.options| && n < |e.state.args|
    ensures WithWords(app, e, i, n + 1) == WithWords(app, Next(app, e, i), i, n)
    ensures CollectedAfter(app, e, i, n + 1) == CollectedAfter(app, Next(app, e, i), i, n)
  {
    hide Pieces, Flattened, Words;
    var st, next, o := e.state, Next(app, e, i).state, app.options[i];
    WordsOf(st.args, 0);
    FlattenedStep(o, Words(st.args), n);
    var first, more := Pieces(o, Top(st.args)), Flattened(o, Words(next.args)[..n]);
    assert st.args[..|st.args| - (n + 1)] == next.args[..|next.args| - n];
    assert st.results[i] + (first + more) == (st.results[i] + first) + more;
    assert st.results[i := st.results[i] + first][i := st.results[i] + first + more] ==
      st.results[i := st.results[i] + first + more];
    assert st.order + ([i] + Repeat(i, n)) == (st.order + [i]) + Repeat(i, n);
  }

  lemma GathersLater(app: Config, e: Eating, i: nat, n: nat)
    requires Fits(app, e.state) && i < |app.options| && n < |e.state.args|
    ensures GathersWord(app, e, i, n + 1) <==> GathersWord(app, Next(app, e, i), i, n)
  {
    hide MinNum, CollectedAfter, Next;
    WordStep(app, e, i, n);
  }

  /** The loop for the minimum takes words as long as it lacks values and words are left. */
  lemma {:induction false} GatherRun(app: Config, e: Eating, i: nat) returns (n: nat)
    requires Fits(app, e.state) && i < |app.options|
    ensures n <= |e.state.args| && Gather(app, e, i) == WithWords(app, e, i, n)
    ensures !GathersWord(app, e, i, n) && forall k :: 0 <= k < n ==> GathersWord(app, e, i, k)
    decreases |e.state.args|
  {
    hide MinNum, Pieces, Gather, WithWords, CollectedAfter;
    GatherStep(app, e, i);
    NoWords(app, e, i);
    if MinNum(app.options[i]) > e.collected && e.state.args != [] {
      var m := GatherRun(app, Next(app, e, i), i);
      n := m + 1;
      WordStep(app, e, i, m);
      forall k | 0 <= k < n ensures GathersWord(app, e, i, k) {
        if k > 0 {
          GathersLater(app, e, i, k - 1);
        }
      }
      GathersLater(app, e, i, m);
    } else {
      n := 0;
    }
  }

  lemma EatsLater(app: Config, e: Eating, i: nat, remaining: nat, n: nat)
    requires Fits(app, e.state) && i < |app.options| && n < |e.state.args|
    ensures EatsWord(app, e, i, remaining, n + 1) <==> EatsWord(app, Next(app, e, i), i, remaining, n)
  {
    hide MaxNum, CollectedAfter, Next, Recognize, Words;
    WordStep(app, e, i, n);
    if n + 1 < |e.state.args| {
      WordsOf(e.state.args, n + 1);
    }
  }

  lemma EatsFirst(app: Config, e: Eating, i: nat, remaining: nat)
    requires Fits(app, e.state) && i < |app.options|
    ensures EatsNext(app, e, i, remaining) <==> EatsWord(app, e, i, remaining, 0)
  {
    hide MaxNum, Recognize, CollectedAfter;
    NoWords(app, e, i);
  }

  /** The loop for optional values takes exactly the words up to the first that it may not take. */
  lemma {:induction false} EatRun(app: Config, e: Eating, i: nat, remaining: nat) returns (n: nat)
    requires Fits(app, e.state) && i < |app.options|
    ensures n <= |e.state.args| && Eat(app, e, i, remaining) == WithWords(app, e, i, n)
    ensures !EatsWord(app, e, i, remaining, n) && forall k :: 0 <= k < n ==> EatsWord(app, e, i, remaining, k)
    decreases |e.state.args|
  {
    hide MaxNum, Pieces, Eat, WithWords, CollectedAfter, EatsWord, Recognize;
    EatStep(app, e, i, remaining);
    NoWords(app, e, i);
    EatsFirst(app, e, i, remaining);
    if EatsNext(app, e, i, remaining) {
      var m := EatRun(app, Next(app, e, i), i, remaining);
      n := m + 1;
      WordStep(app, e, i, m);
      forall k | 0 <= k < n ensures EatsWord(app, e, i, remaining, k) {
        if k > 0 {
          EatsLater(app, e, i, remaining, k - 1);
        }
      }
      EatsLater(app, e, i, remaining, m);
    } else {
      n := 0;
    }
  }

  // A whole option

  lemma {:induction false} FlattenedPlain(o: Opt, words: seq<string>)
    requires !o.allowExtra && o.delimiter.None?
    ensures Flattened(o, words) == words
  {
    if words != [] {
      FlattenedPlain(o, words[1..]);
    }
  }

  lemma {:induction false} RepeatBoth(i: nat, m: nat, n: nat)
    ensures Repeat(i, m + n) == Repeat(i, m) + Repeat(i, n)
  {
    if m > 0 {
      RepeatBoth(i, m - 1, n);
    }
  }

  /** Of an option whose values are never split: n words are n values. */
  lemma PlainWords(app: Config, e: Eating, i: nat, n: nat)
    requires Fits(app, e.state) && i < |app.options| && n <= |e.state.args|
    requires !app.options[i].allowExtra && app.options[i].delimiter.None?
    ensures CollectedAfter(app, e, i, n) == e.collected + n == WithWords(app, e, i, n).collected
    ensures WithWords(app, e, i, n).state == e.state.(
      args := e.state.args[..|e.state.args| - n],
      results := e.state.results[i := e.state.results[i] + Words(e.state.args)[..n]], order := e.state.order + Repeat(i, n))
  {
    FlattenedPlain(app.options[i], Words(e.state.args)[..n]);
  }

  lemma WordsTwice(app: Config, e: Eating, i: nat, m: nat)
    requires Fits(app, e.state) && i < |app.options| && m <= |e.state.args|
    requires !app.options[i].allowExtra && app.options[i].delimiter.None?
    ensures
      var n := |e.state.args| - m;
      var st := e.state;
      WithWords(app, WithWords(app, e, i, m), i, n) == Eating(
        st.(args := [], results := st.results[i := st.results[i] + Words(st.args)], order := st.order + Repeat(i, m + n)),
        e.collected + m + n)
  {
    hide WithWords, CollectedAfter, Words, Repeat;
    var st, n := e.state, |e.state.args| - m;
    var first := WithWords(app, e, i, m);
    PlainWords(app, e, i, m);
    PlainWords(app, first, i, n);
    RepeatBoth(i, m, n);
    WordsSplit(st.args, m);
    assert first.state.args[..0] == [];
    assert Words(first.state.args)[..n] == Words(first.state.args);
    var words := Words(st.args);
    assert st.results[i] + words[..m] + words[m..] == st.results[i] + words;
    assert st.results[i := st.results[i] + words[..m]][i := st.results[i] + words] == st.results[i := st.results[i] + words];
    assert st.order + Repeat(i, m) + Repeat(i, n) == st.order + (Repeat(i, m) + Repeat(i, n));
  }

  lemma WordsSplit(args: seq<string>, m: nat)
    requires m <= |args|
    ensures Words(args[..|args| - m]) == Words(args)[m..] && |Words(args[..|args| - m])| == |args| - m
  {
  }

  /** Words that an option takes without looking, for its minimum, and then those that it may take. */
  predicate AllWelcome(app: Config, i: nat, words: seq<string>)
    requires i < |app.options|
  {
    var o := app.options[i];
    && MinNum(o) <= |words| <= MaxNum(o)
    && forall k :: MinNum(o) <= k < |words| ==>
         Recognize(app, words[k]) == Nothing && (app.validateOptional ==> o.accepts(words[k]))
  }

  lemma GathersMinimum(app: Config, st: State, i: nat)
    requires Fits(app, st) && i < |app.options| && AllWelcome(app, i, Words(st.args))
    requires !app.options[i].allowExtra && app.options[i].delimiter.None?
    ensures Gather(app, Eating(st, 0), i) == WithWords(app, Eating(st, 0), i, MinNum(app.options[i]))
  {
    hide WithWords, CollectedAfter, MinNum, Words, Gather, Recognize;
    var e, min := Eating(st, 0), MinNum(app.options[i]);
    var n := GatherRun(app, e, i);
    PlainWords(app, e, i, n);
    PlainWords(app, e, i, min);
    assert n > min ==> GathersWord(app, e, i, min);
  }

  lemma EatsTheRest(app: Config, st: State, i: nat, m: nat)
    requires Fits(app, st) && i < |app.options| && AllWelcome(app, i, Words(st.args)) && m == MinNum(app.options[i])
    requires !app.options[i].allowExtra && app.options[i].delimiter.None?
    ensures
      var e := WithWords(app, Eating(st, 0), i, m);
      Eat(app, e, i, 0) == WithWords(app, e, i, |st.args| - m)
  {
    hide WithWords, CollectedAfter, MinNum, MaxNum, Words, Eat, Recognize, EatsWord;
    var e := WithWords(app, Eating(st, 0), i, m);
    PlainWords(app, Eating(st, 0), i, m);
    var n := EatRun(app, e, i, 0);
    if n < |e.state.args| {
      PlainWords(app, e, i, n);
      WordsSplit(st.args, m);
      assert Words(e.state.args)[n] == Words(st.args)[m + n];
      MayEat(app, e, i, n);
    }
  }

  lemma MayEat(app: Config, e: Eating, i: nat, n: nat)
    requires Fits(app, e.state) && i < |app.options| && n < |e.state.args|
    requires CollectedAfter(app, e, i, n) < MaxNum(app.options[i])
    requires Recognize(app, Words(e.state.args)[n]) == Nothing
    requires app.validateOptional ==> app.options[i].accepts(Words(e.state.args)[n])
    ensures EatsWord(app, e, i, 0, n)
  {
  }

  lemma OptionalTakesAll(app: Config, st: State, i: nat, name: string)
    requires Fits(app, st) && i < |app.options| && AllWelcome(app, i, Words(st.args)) && st.args != []
    requires !app.options[i].allowExtra && app.options[i].delimiter.None? && CountRemaining(st.results, app.options) == 0
    ensures
      var e := WithWords(app, Eating(st, 0), i, MinNum(app.options[i]));
      Optional(app, e, i, name) == Going(WithWords(app, e, i, |st.args| - MinNum(app.options[i])))
  {
    var min := MinNum(app.options[i]);
    var e := WithWords(app, Eating(st, 0), i, min);
    NothingOwed(app, st, i, min);
    EatsTheRest(app, st, i, min);
    hide WithWords, MinNum, MaxNum, Words, Eat, Recognize, CountRemaining, Repeat;
    WordsTwice(app, Eating(st, 0), i, min);
    PlainWords(app, Eating(st, 0), i, min);
    if MaxNum(app.options[i]) <= e.collected {
      NoWords(app, e, i);
    }
    hide AllWelcome;
    OptionalEats(app, e, i, name, WithWords(app, e, i, |st.args| - min));
  }

  lemma NothingOwed(app: Config, st: State, i: nat, n: nat)
    requires Fits(app, st) && i < |app.options| && n <= |st.args| && CountRemaining(st.results, app.options) == 0
    ensures CountRemaining(WithWords(app, Eating(st, 0), i, n).state.results, app.options) == 0
  {
    hide CountRemaining, Flattened;
    var later := WithWords(app, Eating(st, 0), i, n).state.results;
    assert Grown(st.results, later);
    CountShrinks(st.results, later, app.options);
  }

  lemma OptionalEats(app: Config, e: Eating, i: nat, name: string, eaten: Eating)
    requires Fits(app, e.state) && i < |app.options| && !app.options[i].allowExtra
    requires MaxNum(app.options[i]) <= e.collected ==> eaten == e
    requires eaten == Eat(app, e, i, CountRemaining(e.state.results, app.options))
    requires eaten.state.args == [] && eaten.collected > 0
    ensures Optional(app, e, i, name) == Going(eaten)
  {
    hide MinNum, MaxNum, Eat, CountRemaining;
  }

  lemma CollectBare(app: Config, st: State, i: nat, name: string)
    requires Fits(app, st) && i < |app.options| && MaxNum(app.options[i]) > 0
    ensures Collect(app, st, i, name, "", "") == Rest(app, Eating(Separated(app, st, i), 0), i, name)
  {
    hide MaxNum, Separated, Rest;
    CollectIsRest(app, st, i, name, "", "");
  }

  /** --name followed by words that are all welcome, and nothing else: the option has exactly those words. */
  lemma OptionCollects(app: Config, st: State, below: seq<string>, i: nat, name: string)
    requires Fits(app, st) && !st.positionalOnly && i < |app.options| && LongName(app, i, name)
    requires !app.options[i].allowExtra && app.options[i].delimiter.None? && CountRemaining(st.results, app.options) == 0
    requires below != [] && AllWelcome(app, i, Words(below)) && st.args == below + ["--" + name]
    ensures
      var o, rs := app.options[i], st.results[i];
      ParseAll(app, st) ==
        if Ragged(o, |below|) && o.sizeMin == o.sizeMax then Thrown(PartialType(i))
        else Ok(st.(
          args := [],
          results := st.results[i := rs + Gap(o, rs) + Words(below) + if Ragged(o, |below|) then [""] else []],
          order := st.order + Repeat(i, |below|)))
  {
    var o, rs := app.options[i], st.results[i];
    var here := st.(args := below);
    var begun := Separated(app, here, i);
    MoreIsPositive(app, i, |below|);
    SeparatedIs(app, here, i);
    hide MaxNum, MinNum, Rest, ParseSingle, ParseAll, LongName, Gap, Ragged, Repeat, Words, AllWelcome, Separated, Collect;
    assert st.(args := st.args) == st;
    LongSteps(app, st, below, i, name, "");
    CollectBare(app, here, i, name);
    var values := Words(below);
    assert Grown(st.results, begun.results);
    CountShrinks(st.results, begun.results, app.options);
    var taken := begun.(args := [], results := begun.results[i := begun.results[i] + values],
                        order := begun.order + Repeat(i, |below|));
    RestTakesAll(app, begun, i, name, taken);
    UpdateTwice(st.results, i, rs + Gap(o, rs), values);
    UpdateTwice(st.results, i, rs + Gap(o, rs) + values, if Ragged(o, |below|) then [""] else []);
    ParseAllStep(app, st);
    LastStep(app, ParseSingle(app, st));
  }

  lemma MoreIsPositive(app: Config, i: nat, n: nat)
    requires i < |app.options| && 0 < n <= MaxNum(app.options[i])
    ensures MaxNum(app.options[i]) > 0
  {
  }

  lemma RestTakesAll(app: Config, st: State, i: nat, name: string, taken: State)
    requires Fits(app, st) && i < |app.options| && AllWelcome(app, i, Words(st.args)) && st.args != []
    requires !app.options[i].allowExtra && app.options[i].delimiter.None? && CountRemaining(st.results, app.options) == 0
    requires taken == st.(args := [], results := st.results[i := st.results[i] + Words(st.args)],
                          order := st.order + Repeat(i, |st.args|))
    ensures
      var o := app.options[i];
      Rest(app, Eating(st, 0), i, name) ==
        if Ragged(o, |st.args|) && o.sizeMin == o.sizeMax then Thrown(PartialType(i))
        else Ok(taken.(results := taken.results[i := taken.results[i] + if Ragged(o, |st.args|) then [""] else []]))
  {
    var o := app.options[i];
    var min := MinNum(o);
    GathersMinimum(app, st, i);
    OptionalTakesAll(app, st, i, name);
    assert MinNum(o) <= |st.args|;
    hide AllWelcome, WithWords, Words, Gather, Optional, Repeat, MaxNum;
    WordsTwice(app, Eating(st, 0), i, min);
    PlainWords(app, Eating(st, 0), i, min);
    assert Rest(app, Eating(st, 0), i, name) == Partial(app, Eating(taken, |st.args|), i);
    hide Rest;
    PartialAlone(app, taken, i, |st.args|);
  }

  lemma PartialAlone(app: Config, st: State, i: nat, k: nat)
    requires Fits(app, st) && i < |app.options|
    ensures
      var o := app.options[i];
      Partial(app, Eating(st, k), i) ==
        if Ragged(o, k) && o.sizeMin == o.sizeMax then Thrown(PartialType(i))
        else Ok(st.(results := st.results[i := st.results[i] + if Ragged(o, k) then [""] else []]))
  {
    var o := app.options[i];
    assert MinNum(o) > 0 ==> o.sizeMax > 0;
    hide MinNum;
    EmptyPiece(o);
    hide Pieces;
    assert st.results[i] + [] == st.results[i];
    assert st.results[i := st.results[i]] == st.results;
  }
}
