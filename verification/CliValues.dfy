/** What a whole parse gives to an option: the value in its own argument, the value in the next one, and the
    value of a flag. */
module CliValues {
  import opened CliParse
  import opened CliWords
  import opened CliGrowth
  import opened CliClusters

  /** The empty result before a new group of values, where the option asks for one. */
  function Gap(o: Opt, rs: seq<string>): seq<string> {
    if o.injectSeparator && rs != [] && rs[|rs| - 1] != "" then [""] else []
  }

  lemma SeparatedIs(app: Config, st: State, i: nat)
    requires Fits(app, st) && i < |app.options|
    ensures Separated(app, st, i) == st.(results := st.results[i := st.results[i] + Gap(app.options[i], st.results[i])])
  {
    var rs := st.results[i];
    assert Pieces(app.options[i], "") == [""];
    assert rs + [] == rs && st.results[i := rs] == st.results;
  }

  // The ways to write an option with a value

  predicate LongName(app: Config, i: nat, name: string) {
    name != "" && ValidFirst(name[0]) && '=' !in name && FindOption(app.options, name, Long) == Some(i)
  }

  predicate ShortName(app: Config, i: nat, c: char) {
    FindOption(app.options, [c], Short) == Some(i)
  }

  predicate WindowsName(app: Config, i: nat, name: string) {
    app.windowsStyle && name != "" && ValidFirst(name[0]) && ':' !in name && FindOption(app.options, name, Windows) == Some(i)
  }

  lemma LongSteps(app: Config, st: State, below: seq<string>, i: nat, name: string, value: string)
    requires Fits(app, st) && !st.positionalOnly && LongName(app, i, name) && i < |app.options|
    ensures ParseSingle(app, st.(args := below + ["--" + name + "=" + value])) ==
      Collect(app, st.(args := below), i, name, value, "")
    ensures ParseSingle(app, st.(args := below + ["--" + name])) == Collect(app, st.(args := below), i, name, "", "")
  {
    hide FindOption, Collect, SplitLong;
    LongRoundTrip(name, value);
    var valued, bare := st.(args := below + ["--" + name + "=" + value]), st.(args := below + ["--" + name]);
    assert Pop(valued.args) == below == Pop(bare.args);
    assert Top(valued.args) == "--" + name + "=" + value && Top(bare.args) == "--" + name;
    assert |Top(bare.args)| > 2 && |Top(valued.args)| > 2;
    assert Recognize(app, Top(valued.args)) == Long && Recognize(app, Top(bare.args)) == Long;
  }

  lemma ShortStep(app: Config, st: State, below: seq<string>, i: nat, c: char, rest: string)
    requires Fits(app, st) && !st.positionalOnly && ShortName(app, i, c) && i < |app.options| && MaxNum(app.options[i]) > 0
    ensures ParseSingle(app, st.(args := below + ["-" + [c] + rest])) == Collect(app, st.(args := below), i, [c], "", rest)
  {
    hide FindOption, Collect, MaxNum;
    var s := "-" + [c] + rest;
    var o := app.options[i];
    var k :| 0 <= k < |o.shortNames| && o.shortNames[k] == [c];
    assert s[1] == c && s[..2] == ['-', c] && s[2..] == rest;
    var given := st.(args := below + [s]);
    assert Pop(given.args) == below && Top(given.args) == s;
    assert Recognize(app, s) == Short;
  }

  lemma WindowsStep(app: Config, st: State, below: seq<string>, i: nat, name: string, value: string)
    requires Fits(app, st) && !st.positionalOnly && WindowsName(app, i, name) && i < |app.options|
    ensures ParseSingle(app, st.(args := below + ["/" + name + ":" + value])) ==
      Collect(app, st.(args := below), i, name, value, "")
  {
    hide FindOption, Collect;
    var s := "/" + name + ":" + value;
    FirstAt(s, ':', 1 + |name|);
    assert s[1..1 + |name|] == name && s[2 + |name|..] == value;
    assert s[0] == '/' && s[1] == name[0];
    var given := st.(args := below + [s]);
    assert Pop(given.args) == below && Top(given.args) == s;
    assert Recognize(app, s) == Windows;
  }

  // What follows the value

  /** Collect once the value in the argument itself is added. */
  function Rest(app: Config, e: Eating, i: nat, name: string): (r: Outcome)
    requires Fits(app, e.state) && i < |app.options|
    ensures r.Ok? ==> Fits(app, r.state)
  {
    var gathered := Gather(app, e, i);
    if MinNum(app.options[i]) > gathered.collected then Thrown(TypedAtLeast(i))
    else
      var full := Optional(app, gathered, i, name);
      if full.Stopped? then Thrown(full.error) else Partial(app, full.eating, i)
  }

  /** The state with one more string given to option i. */
  function Given(app: Config, st: State, i: nat, s: string): (r: State)
    requires Fits(app, st) && i < |app.options|
    ensures Fits(app, r) && r.args == st.args
  {
    var o, rs := app.options[i], st.results[i];
    st.(results := st.results[i := rs + Gap(o, rs) + Pieces(o, s)], order := st.order + [i])
  }

  lemma GivenIs(app: Config, st: State, i: nat, s: string)
    requires Fits(app, st) && i < |app.options|
    ensures AddInOrder(app, Separated(app, st, i), i, s) == Given(app, st, i, s)
  {
    SeparatedIs(app, st, i);
    hide Separated, Pieces, Gap;
    var o, rs := app.options[i], st.results[i];
    var once := st.results[i := rs + Gap(o, rs)];
    assert once[i := rs + Gap(o, rs) + Pieces(o, s)] == st.results[i := rs + Gap(o, rs) + Pieces(o, s)];
  }

  lemma CollectIsRest(app: Config, st: State, i: nat, name: string, value: string, rest: string)
    requires Fits(app, st) && i < |app.options|
    ensures
      var first := FirstValue(app, Separated(app, st, i), i, name, value, rest);
      Collect(app, st, i, name, value, rest) ==
        if first.Stopped? then Thrown(first.error) else Rest(app, first.eating, i, name)
  {
    hide MinNum, Gather, Optional, Partial, FirstValue, Separated;
  }

  lemma CollectGiven(app: Config, st: State, i: nat, name: string, value: string, rest: string)
    requires Fits(app, st) && i < |app.options| && MaxNum(app.options[i]) > 0
    requires (value == "") != (rest == "")
    ensures
      var s := value + rest;
      Collect(app, st, i, name, value, rest) == Rest(app, Eating(Given(app, st, i, s), |Pieces(app.options[i], s)|), i, name)
  {
    hide MaxNum, Pieces, Separated, Rest, Collect, AddInOrder, Given;
    CollectIsRest(app, st, i, name, value, rest);
    GivenIs(app, st, i, value + rest);
    assert value + rest == if value != "" then value else rest;
  }

  lemma CollectNext(app: Config, st: State, below: seq<string>, i: nat, name: string, value: string)
    requires Fits(app, st) && i < |app.options| && MinNum(app.options[i]) > 0 && st.args == below + [value]
    ensures Collect(app, st, i, name, "", "") ==
      Rest(app, Eating(Given(app, st.(args := below), i, value), |Pieces(app.options[i], value)|), i, name)
  {
    MinOfPlain(app.options[i]);
    hide MaxNum, MinNum, Pieces, Separated, Rest, Collect, Given;
    CollectIsRest(app, st, i, name, "", "");
    var begun := Separated(app, st, i);
    assert Top(begun.args) == value && Pop(begun.args) == below;
    SeparatedArgs(app, st, i, below);
    GivenIs(app, st.(args := below), i, value);
    GatherFirst(app, begun, i, name);
  }

  lemma SeparatedArgs(app: Config, st: State, i: nat, args: seq<string>)
    requires Fits(app, st) && i < |app.options|
    ensures Separated(app, st.(args := args), i) == Separated(app, st, i).(args := args)
  {
    hide Pieces;
  }

  lemma GatherFirst(app: Config, st: State, i: nat, name: string)
    requires Fits(app, st) && i < |app.options| && MinNum(app.options[i]) > 0 && st.args != []
    ensures
      var s := Top(st.args);
      Rest(app, Eating(st, 0), i, name) ==
        Rest(app, Eating(AddInOrder(app, st.(args := Pop(st.args)), i, s), |Pieces(app.options[i], s)|), i, name)
  {
    hide MinNum, Pieces, Gather, Optional, Partial, AddInOrder;
    GatherStep(app, Eating(st, 0), i);
  }

  /** The name matters only for the default of an option that needs no value. */
  lemma AnyName(app: Config, e: Eating, i: nat, name: string, other: string)
    requires Fits(app, e.state) && i < |app.options| && MinNum(app.options[i]) > 0
    ensures Rest(app, e, i, name) == Rest(app, e, i, other)
  {
    hide MaxNum, MinNum, Gather, Eat, CountRemaining, DropMark, FlagValue;
  }

  lemma SameStep(app: Config, st: State, other: State)
    requires Fits(app, st) && st.args != [] && Fits(app, other) && other.args != []
    requires ParseSingle(app, st) == ParseSingle(app, other)
    ensures ParseAll(app, st) == ParseAll(app, other)
  {
    hide ParseSingle, ParseAll;
    ParseAllStep(app, st);
    ParseAllStep(app, other);
  }

  /** What option i goes on from once it has been given s. */
  function Fed(app: Config, st: State, i: nat, s: string): (e: Eating)
    requires Fits(app, st) && i < |app.options|
    ensures Fits(app, e.state)
  {
    Eating(Given(app, st, i, s), |Pieces(app.options[i], s)|)
  }

  lemma LongValue(app: Config, st: State, below: seq<string>, i: nat, name: string, value: string)
    requires Fits(app, st) && !st.positionalOnly && i < |app.options| && MaxNum(app.options[i]) > 0
    requires LongName(app, i, name) && value != ""
    ensures ParseSingle(app, st.(args := below + ["--" + name + "=" + value])) ==
      Rest(app, Fed(app, st.(args := below), i, value), i, name)
  {
    hide MaxNum, Pieces, Collect, Rest, ParseSingle, Given, LongName;
    LongSteps(app, st, below, i, name, value);
    CollectGiven(app, st.(args := below), i, name, value, "");
    assert value + "" == value;
  }

  lemma LongSpaced(app: Config, st: State, below: seq<string>, i: nat, name: string, value: string)
    requires Fits(app, st) && !st.positionalOnly && i < |app.options| && MinNum(app.options[i]) > 0
    requires LongName(app, i, name)
    ensures ParseSingle(app, st.(args := below + [value, "--" + name])) ==
      Rest(app, Fed(app, st.(args := below), i, value), i, name)
  {
    hide MinNum, Pieces, Collect, Rest, ParseSingle, Given, LongName;
    var spaced := below + [value];
    assert spaced + ["--" + name] == below + [value, "--" + name];
    LongSteps(app, st, spaced, i, name, value);
    CollectNext(app, st.(args := spaced), below, i, name, value);
  }

  lemma ShortValue(app: Config, st: State, below: seq<string>, i: nat, c: char, value: string)
    requires Fits(app, st) && !st.positionalOnly && i < |app.options| && MaxNum(app.options[i]) > 0
    requires ShortName(app, i, c) && value != ""
    ensures ParseSingle(app, st.(args := below + ["-" + [c] + value])) ==
      Rest(app, Fed(app, st.(args := below), i, value), i, [c])
  {
    hide MaxNum, Pieces, Collect, Rest, ParseSingle, Given, ShortName;
    ShortStep(app, st, below, i, c, value);
    CollectGiven(app, st.(args := below), i, [c], "", value);
    assert "" + value == value;
  }

  lemma ShortSpaced(app: Config, st: State, below: seq<string>, i: nat, c: char, value: string)
    requires Fits(app, st) && !st.positionalOnly && i < |app.options| && MinNum(app.options[i]) > 0
    requires ShortName(app, i, c)
    ensures ParseSingle(app, st.(args := below + [value, "-" + [c]])) ==
      Rest(app, Fed(app, st.(args := below), i, value), i, [c])
  {
    MinOfPlain(app.options[i]);
    hide MaxNum, MinNum, Pieces, Collect, Rest, ParseSingle, Given, ShortName;
    var spaced := below + [value];
    assert "-" + [c] + "" == "-" + [c];
    assert spaced + ["-" + [c]] == below + [value, "-" + [c]];
    ShortStep(app, st, spaced, i, c, "");
    CollectNext(app, st.(args := spaced), below, i, [c], value);
  }

  lemma WindowsValue(app: Config, st: State, below: seq<string>, i: nat, name: string, value: string)
    requires Fits(app, st) && !st.positionalOnly && i < |app.options| && MaxNum(app.options[i]) > 0
    requires WindowsName(app, i, name) && value != ""
    ensures ParseSingle(app, st.(args := below + ["/" + name + ":" + value])) ==
      Rest(app, Fed(app, st.(args := below), i, value), i, name)
  {
    hide MaxNum, Pieces, Collect, Rest, ParseSingle, Given, WindowsName;
    WindowsStep(app, st, below, i, name, value);
    CollectGiven(app, st.(args := below), i, name, value, "");
    assert value + "" == value;
  }

  /** --name=value, --name value, -nvalue, -n value and /name:value end the whole parse alike, whatever the
      value is and whatever follows, for every option that needs a value. */
  lemma SpellingsAgree(app: Config, st: State, below: seq<string>, i: nat, name: string, c: char, value: string)
    requires Fits(app, st) && !st.positionalOnly && i < |app.options| && MinNum(app.options[i]) > 0
    requires LongName(app, i, name) && value != ""
    ensures
      var parsed := ParseAll(app, st.(args := below + ["--" + name + "=" + value]));
      && ParseAll(app, st.(args := below + [value, "--" + name])) == parsed
      && (ShortName(app, i, c) ==> ParseAll(app, st.(args := below + ["-" + [c] + value])) == parsed)
      && (ShortName(app, i, c) ==> ParseAll(app, st.(args := below + [value, "-" + [c]])) == parsed)
      && (WindowsName(app, i, name) ==> ParseAll(app, st.(args := below + ["/" + name + ":" + value])) == parsed)
  {
    MinOfPlain(app.options[i]);
    hide MaxNum, MinNum, Rest, ParseAll, ParseSingle, Fed, ShortName, LongName, WindowsName;
    var first := st.(args := below + ["--" + name + "=" + value]);
    LongValue(app, st, below, i, name, value);
    LongSpaced(app, st, below, i, name, value);
    SameStep(app, st.(args := below + [value, "--" + name]), first);
    AnyName(app, Fed(app, st.(args := below), i, value), i, name, [c]);
    if ShortName(app, i, c) {
      ShortValue(app, st, below, i, c, value);
      SameStep(app, st.(args := below + ["-" + [c] + value]), first);
      ShortSpaced(app, st, below, i, c, value);
      SameStep(app, st.(args := below + [value, "-" + [c]]), first);
    }
    if WindowsName(app, i, name) {
      WindowsValue(app, st, below, i, name, value);
      SameStep(app, st.(args := below + ["/" + name + ":" + value]), first);
    }
  }

  // What is received

  /** The value of an option or flag that is given without one. */
  function Unvalued(o: Opt, name: string): string {
    var default := DefaultFlag(o.defaultFlags, name);
    if default.Some? then default.value else if o.flagLike then "true" else o.defaultStr
  }

  /** Do k values leave a group unfinished? */
  predicate Ragged(o: Opt, k: nat) {
    MinNum(o) > 0 && o.sizeMax > 0 && k % o.sizeMax != 0
  }

  /** What an option adds when nothing follows the k values it was given: its default value if it got none and
      needs none, and an empty result for the rest of a group. */
  function Completion(o: Opt, name: string, k: nat): seq<string> {
    if MinNum(o) == 0 && k == 0 then Pieces(o, Unvalued(o, name)) else if Ragged(o, k) then [""] else []
  }

  lemma NothingLeft(app: Config, e: Eating, i: nat, name: string)
    requires Fits(app, e.state) && i < |app.options| && e.state.args == []
    ensures Gather(app, e, i) == e
    ensures Optional(app, e, i, name) == Going(
      if MinNum(app.options[i]) == 0 && MaxNum(app.options[i]) > 0 && e.collected == 0
      then Eating(AddInOrder(app, e.state, i, Unvalued(app.options[i], name)), 0) else e)
  {
    hide MinNum, MaxNum, Pieces, CountRemaining, Recognize, Inverted;
    GatherStep(app, e, i);
    EatStep(app, e, i, CountRemaining(e.state.results, app.options));
    assert FlagValue(app.options[i], name, "") == Value(Unvalued(app.options[i], name));
  }

  /** The end of the work on an option when its argument is the last one. */
  lemma RestAlone(app: Config, st: State, i: nat, name: string, k: nat)
    requires Fits(app, st) && i < |app.options| && st.args == [] && MaxNum(app.options[i]) > 0
    ensures
      var o := app.options[i];
      Rest(app, Eating(st, k), i, name) ==
        if k < MinNum(o) then Thrown(TypedAtLeast(i))
        else if Ragged(o, k) && o.sizeMin == o.sizeMax then Thrown(PartialType(i))
        else Ok(st.(results := st.results[i := st.results[i] + Completion(o, name, k)],
                    order := if MinNum(o) == 0 && k == 0 then st.order + [i] else st.order))
  {
    var o := app.options[i];
    hide MaxNum, Pieces, Gather, Optional, Unvalued;
    assert MinNum(o) > 0 ==> o.sizeMax > 0;
    hide MinNum;
    NothingLeft(app, Eating(st, k), i, name);
    assert Pieces(o, "") == [""] by { EmptyPiece(o); }
    assert st.results[i := st.results[i] + []] == st.results by { assert st.results[i] + [] == st.results[i]; }
  }

  lemma EmptyPiece(o: Opt)
    ensures Pieces(o, "") == [""]
  {
  }

  /** The parse of --name=value alone: the option receives exactly the pieces of the value, nothing else
      changes, and it throws exactly if they are too few or leave a group unfinished that must not be. */
  lemma ValueAlone(app: Config, st: State, i: nat, name: string, value: string)
    requires Fits(app, st) && !st.positionalOnly && i < |app.options| && MaxNum(app.options[i]) > 0
    requires LongName(app, i, name) && value != "" && st.args == ["--" + name + "=" + value]
    ensures
      var o, rs := app.options[i], st.results[i];
      var k := |Pieces(o, value)|;
      ParseAll(app, st) ==
        if k < MinNum(o) then Thrown(TypedAtLeast(i))
        else if Ragged(o, k) && o.sizeMin == o.sizeMax then Thrown(PartialType(i))
        else Ok(st.(args := [],
                    results := st.results[i := rs + Gap(o, rs) + Pieces(o, value) + Completion(o, name, k)],
                    order := st.order + if MinNum(o) == 0 && k == 0 then [i, i] else [i]))
    ensures !app.options[i].allowExtra && (app.options[i].delimiter.None? || app.options[i].delimiter.value !in value) ==>
      Pieces(app.options[i], value) == [value]
  {
    var o, rs := app.options[i], st.results[i];
    if !o.allowExtra {
      PiecesOfValue(o, value, "");
    }
    hide MaxNum, MinNum, Pieces, Rest, ParseSingle, ParseAll, LongName, Gap, Completion, Ragged;
    assert [] + ["--" + name + "=" + value] == ["--" + name + "=" + value];
    assert st.(args := st.args) == st;
    LongValue(app, st, [], i, name, value);
    var given := Given(app, st.(args := []), i, value);
    RestAlone(app, given, i, name, |Pieces(o, value)|);
    UpdateTwice(st.results, i, rs + Gap(o, rs) + Pieces(o, value), Completion(o, name, |Pieces(o, value)|));
    assert st.order + [i, i] == (st.order + [i]) + [i];
    ParseAllStep(app, st);
    LastStep(app, ParseSingle(app, st));
  }

  lemma UpdateTwice(results: seq<seq<string>>, i: nat, rs: seq<string>, more: seq<string>)
    requires i < |results|
    ensures results[i := rs][i := rs + more] == results[i := rs + more]
  {
  }

  lemma LastStep(app: Config, r: Outcome)
    requires r.Ok? ==> Fits(app, r.state)
    ensures r.Ok? && r.state.args == [] ==> ParseAll(app, r.state) == r
  {
    hide ParseSingle;
  }

  lemma RestGrows(app: Config, e: Eating, i: nat, name: string)
    requires Fits(app, e.state) && i < |app.options|
    ensures Rest(app, e, i, name).Ok? ==> Grown(e.state.results, Rest(app, e, i, name).state.results)
  {
    hide Pieces, MaxNum, MinNum, Recognize, FlagValue, CountRemaining, Gather, Eat;
    if Rest(app, e, i, name).Ok? {
      var gathered := Gather(app, e, i);
      GatherGrows(app, e, i);
      EatGrows(app, gathered, i, CountRemaining(gathered.state.results, app.options));
    }
  }

  lemma StepReceives(app: Config, st: State, e: Eating, i: nat, name: string)
    requires Fits(app, st) && st.args != [] && Fits(app, e.state) && i < |app.options|
    requires ParseSingle(app, st) == Rest(app, e, i, name) && ParseAll(app, st).Ok?
    ensures e.state.results[i] <= ParseAll(app, st).state.results[i]
  {
    hide ParseSingle, ParseAll, Rest;
    ParseAllStep(app, st);
    RestGrows(app, e, i, name);
    var next := ParseSingle(app, st).state;
    ParsingGrows(app, next);
    assert e.state.results[i] <= next.results[i] <= ParseAll(app, next).state.results[i];
  }

  /** Whatever follows --name=value, the option has the pieces of the value right after what it had before. */
  lemma ValueReceived(app: Config, st: State, below: seq<string>, i: nat, name: string, value: string)
    requires Fits(app, st) && !st.positionalOnly && i < |app.options| && MaxNum(app.options[i]) > 0
    requires LongName(app, i, name) && value != "" && st.args == below + ["--" + name + "=" + value]
    ensures
      var o, rs := app.options[i], st.results[i];
      ParseAll(app, st).Ok? ==> rs + Gap(o, rs) + Pieces(o, value) <= ParseAll(app, st).state.results[i]
  {
    hide MaxNum, Pieces, Rest, ParseSingle, ParseAll, LongName, Gap;
    assert st.(args := st.args) == st;
    LongValue(app, st, below, i, name, value);
    if ParseAll(app, st).Ok? {
      StepReceives(app, st, Fed(app, st.(args := below), i, value), i, name);
    }
  }

  // Flags

  /** What a flag appends for =input: text stands for the opposite of the input where the flag's default is
      false, for its default where there is no input, and is the input itself everywhere else. */
  predicate SaysFor(o: Opt, name: string, input: string, text: string) {
    if input == "" || input == "{}" then text == Unvalued(o, name)
    else if DefaultFlag(o.defaultFlags, name) != Some("false") || ToFlagValue(input) == Invalid then text == input
    else if ToFlagValue(input) == Parsed(0) then text == "0"
    else ToFlagValue(input).Parsed? && Negates(ToFlagValue(text), ToFlagValue(input).n)
  }

  /** The opposite of a 64-bit number; that of the smallest is too large. */
  predicate Negates(given: Number, n: int) {
    given == if n == INT64_MIN then TooLarge else Parsed(-n)
  }

  predicate MayNotSay(o: Opt, name: string, input: string) {
    var default := DefaultFlag(o.defaultFlags, name);
    o.disableOverride && input != "" && input != "{}" && input != if default.Some? then default.value else "true"
  }

  predicate CannotSay(o: Opt, name: string, input: string) {
    input != "" && input != "{}" && DefaultFlag(o.defaultFlags, name) == Some("false") && ToFlagValue(input) == TooLarge
  }

  predicate AllDecimal(s: string) {
    forall i :: 0 <= i < |s| ==> IsDecimal(s[i])
  }

  lemma {:induction false} MagnitudeAppend(s: string, before: nat, c: char)
    requires AllDecimal(s) && IsDecimal(c)
    ensures Magnitude(s + [c], before) == 10 * Magnitude(s, before) + (c as int - '0' as int)
    decreases |s|
  {
    var t := s + [c];
    if s == "" {
      assert t[1..] == "";
    } else {
      assert t[1..] == s[1..] + [c] && t[0] == s[0];
      MagnitudeAppend(s[1..], 10 * before + (s[0] as int - '0' as int), c);
    }
  }

  lemma {:induction false} DigitsBack(n: nat)
    ensures AllDecimal(Digits(n)) && Magnitude(Digits(n), 0) == n
    ensures |Digits(n)| >= 1 && (|Digits(n)| == 1 <==> n < 10)
  {
    var c := ('0' as int + n % 10) as char;
    if n < 10 {
      assert Digits(n) == [c];
      MagnitudeAppend("", 0, c);
      assert "" + [c] == [c];
    } else {
      DigitsBack(n / 10);
      MagnitudeAppend(Digits(n / 10), 0, c);
    }
  }

  lemma LowerNumber(s: string)
    requires AllDecimal(s) || (s != "" && s[0] == '-' && AllDecimal(s[1..]))
    ensures Lower(s) == s
  {
    forall i | 0 <= i < |s| ensures !('A' <= s[i] <= 'Z') {
      assert i > 0 ==> s[i] == s[1..][i - 1];
    }
  }

  lemma LongWordIsNumber(s: string)
    requires |s| > 1 && (s[0] == '-' || IsDecimal(s[0])) && Lower(s) == s
    ensures ToFlagValue(s) == Stoll(s)
  {
    hide Stoll, Lower;
    assert s[0] < 'a';
  }

  /** A printed number is read back, unless it is a single digit that stands for false, or too large. */
  lemma PrintedBack(n: int)
    requires n != 0 && n != -1 && -INT64_MAX <= n <= -INT64_MIN
    ensures ToFlagValue(ToString(n)) == if n == -INT64_MIN then TooLarge else Parsed(n)
  {
    var s := ToString(n);
    if n < 0 {
      DigitsBack(-n);
      assert s[1..] == Digits(-n);
      LowerNumber(s);
      LongWordIsNumber(s);
      assert Stoll(s) == Signed(Digits(-n), -1);
    } else {
      DigitsBack(n);
      LowerNumber(s);
      if n < 10 {
        assert s == [('0' as int + n) as char];
      } else {
        LongWordIsNumber(s);
        assert Stoll(s) == Signed(Digits(n), 1);
      }
    }
  }

  lemma {:induction false} StollRange(s: string)
    ensures Stoll(s).Parsed? ==> INT64_MIN <= Stoll(s).n <= INT64_MAX
  {
    if s != "" && (s[0] == ' ' || 9 <= s[0] as int <= 13) {
      StollRange(s[1..]);
    }
  }

  lemma {:induction false} JunkIgnored(s: string, junk: string, before: nat)
    requires AllDecimal(s) && (junk != "" ==> !IsDecimal(junk[0]))
    ensures Magnitude(s + junk, before) == Magnitude(s, before)
    decreases |s|
  {
    var t := s + junk;
    if s == "" {
      assert t == junk;
    } else {
      assert t[1..] == s[1..] + junk && t[0] == s[0];
      JunkIgnored(s[1..], junk, 10 * before + (s[0] as int - '0' as int));
    }
  }

  /** The digits of a number, after its sign and with what follows them. */
  lemma SignedReads(n: nat, sign: int, junk: string)
    requires junk != "" ==> !IsDecimal(junk[0])
    ensures
      var value := sign * n;
      Signed(Digits(n) + junk, sign) == if INT64_MIN <= value <= INT64_MAX then Parsed(value) else TooLarge
  {
    hide Digits, Magnitude;
    DigitsBack(n);
    JunkIgnored(Digits(n), junk, 0);
    assert (Digits(n) + junk)[0] == Digits(n)[0];
  }

  lemma PrintedReads(n: int, junk: string)
    requires junk != "" ==> !IsDecimal(junk[0])
    ensures Stoll(ToString(n) + junk) == if INT64_MIN <= n <= INT64_MAX then Parsed(n) else TooLarge
  {
    PrintedAs(n);
    hide Digits, ToString, Signed, Stoll, AllDecimal, Magnitude;
    if n < 0 {
      SignedReads(-n, -1, junk);
      StollSign("-" + Digits(-n) + junk);
      assert ("-" + Digits(-n) + junk)[1..] == Digits(-n) + junk;
    } else {
      SignedReads(n, 1, junk);
      FirstDigit(n);
      StollSign(Digits(n) + junk);
    }
  }

  lemma FirstDigit(n: nat)
    ensures Digits(n) != "" && IsDecimal(Digits(n)[0])
  {
    DigitsBack(n);
  }

  lemma StollSign(s: string)
    requires s != ""
    ensures s[0] == '-' ==> Stoll(s) == Signed(s[1..], -1)
    ensures s[0] == '+' ==> Stoll(s) == Signed(s[1..], 1)
    ensures IsDecimal(s[0]) ==> Stoll(s) == Signed(s, 1)
  {
    hide Signed;
  }

  predicate AllSpace(s: string) {
    forall i :: 0 <= i < |s| ==> s[i] == ' ' || 9 <= s[i] as int <= 13
  }

  lemma {:induction false} SpaceSkipped(space: string, s: string)
    requires AllSpace(space)
    ensures Stoll(space + s) == Stoll(s)
    decreases |space|
  {
    hide Signed;
    var t := space + s;
    if space == "" {
      assert t == s;
    } else {
      assert t[0] == space[0] && t[1..] == space[1..] + s;
      SpaceSkipped(space[1..], s);
    }
  }

  /** The number parser reads a printed number, a positive one after + too, after any space and whatever follows
      it but a digit. */
  lemma StollReads(space: string, n: int, junk: string)
    requires AllSpace(space) && (junk != "" ==> !('0' <= junk[0] <= '9'))
    ensures
      var number := if -0x8000_0000_0000_0000 <= n <= 0x7fff_ffff_ffff_ffff then Parsed(n) else TooLarge;
      && Stoll(space + (ToString(n) + junk)) == number
      && (n >= 0 ==> Stoll(space + ("+" + ToString(n) + junk)) == number)
  {
    hide ToString, Signed, Stoll, AllSpace;
    PrintedReads(n, junk);
    SpaceSkipped(space, ToString(n) + junk);
    if n >= 0 {
      var s := "+" + ToString(n) + junk;
      PrintedAs(n);
      SignedReads(n, 1, junk);
      assert s[1..] == Digits(n) + junk;
      StollSign(s);
      SpaceSkipped(space, s);
    }
  }

  /** Without a digit in that place there is no number. */
  lemma StollRefuses(space: string, sign: string, junk: string)
    requires AllSpace(space) && sign in ["", "-", "+"] && (junk != "" ==> !('0' <= junk[0] <= '9'))
    requires sign == "" && junk != "" ==> junk[0] != '-' && junk[0] != '+' && !AllSpace([junk[0]])
    ensures Stoll(space + (sign + junk)) == Invalid
  {
    SpaceSkipped(space, sign + junk);
    if sign == "" {
      assert sign + junk == junk;
      if junk != "" {
        assert [junk[0]][0] == junk[0];
      }
    } else {
      assert (sign + junk)[1..] == junk;
    }
  }

  lemma PrintedAs(n: int)
    ensures ToString(n) == if n < 0 then "-" + Digits(-n) else Digits(n)
  {
  }

  lemma InvertedNegates(input: string)
    requires ToFlagValue(input).Parsed? && ToFlagValue(input).n != 0
    ensures Inverted(input).Value? && Negates(ToFlagValue(Inverted(input).text), ToFlagValue(input).n)
  {
    var n := ToFlagValue(input).n;
    assert INT64_MIN <= n <= INT64_MAX by { StollRange(Lower(input)); }
    hide Stoll, ToString;
    if n == 1 || n == -1 {
      assert ToFlagValue("true") == Parsed(1) && ToFlagValue("false") == Parsed(-1);
    } else {
      hide ToFlagValue;
      PrintedBack(-n);
    }
  }

  lemma FlagSays(o: Opt, name: string, input: string) returns (text: string)
    ensures FlagValue(o, name, input) ==
      if MayNotSay(o, name, input) then Fails(FlagOverride(name))
      else if CannotSay(o, name, input) then Fails(OutOfRange)
      else Value(text)
    ensures !MayNotSay(o, name, input) && !CannotSay(o, name, input) ==> SaysFor(o, name, input, text)
  {
    hide DefaultFlag, ToFlagValue, Negates, Inverted;
    var v := FlagValue(o, name, input);
    text := if v.Value? then v.text else "";
    InvertedIs(input);
  }

  lemma InvertedIs(input: string)
    ensures ToFlagValue(input) == Invalid ==> Inverted(input) == Value(input)
    ensures ToFlagValue(input) == TooLarge ==> Inverted(input) == Fails(OutOfRange)
    ensures ToFlagValue(input) == Parsed(0) ==> Inverted(input) == Value("0")
    ensures ToFlagValue(input).Parsed? && ToFlagValue(input).n != 0 ==>
      Inverted(input).Value? && Negates(ToFlagValue(Inverted(input).text), ToFlagValue(input).n)
  {
    hide ToFlagValue;
    assert ToString(0) == "0";
    if ToFlagValue(input).Parsed? && ToFlagValue(input).n != 0 {
      InvertedNegates(input);
    }
  }

  function FlagArgument(name: string, input: string): string {
    if input == "" then "--" + name else "--" + name + "=" + input
  }

  lemma FlagStep(app: Config, st: State, below: seq<string>, i: nat, name: string, input: string) returns (text: string)
    requires Fits(app, st) && !st.positionalOnly && i < |app.options| && MaxNum(app.options[i]) == 0
    requires LongName(app, i, name)
    ensures
      var o := app.options[i];
      ParseSingle(app, st.(args := below + [FlagArgument(name, input)])) ==
        if MayNotSay(o, name, input) then Thrown(FlagOverride(name))
        else if CannotSay(o, name, input) then Thrown(OutOfRange)
        else Rest(app, Eating(Given(app, st.(args := below), i, text), 0), i, name)
    ensures !MayNotSay(app.options[i], name, input) && !CannotSay(app.options[i], name, input) ==>
      SaysFor(app.options[i], name, input, text)
  {
    text := FlagSays(app.options[i], name, input);
    hide MaxNum, Collect, Rest, ParseSingle, LongName, MayNotSay, CannotSay, SaysFor, FlagValue, Separated, Given, AddInOrder;
    LongSteps(app, st, below, i, name, input);
    CollectIsRest(app, st.(args := below), i, name, input, "");
    GivenIs(app, st.(args := below), i, text);
  }

  lemma RestOfFlag(app: Config, st: State, i: nat, name: string)
    requires Fits(app, st) && i < |app.options| && st.args == [] && MaxNum(app.options[i]) == 0
    ensures Rest(app, Eating(st, 0), i, name) == Ok(st)
  {
    MinOfPlain(app.options[i]);
    hide MaxNum, MinNum, Gather, Optional;
    NothingLeft(app, Eating(st, 0), i, name);
  }

  /** The parse of --flag or --flag=input alone, for every flag and input: what is appended, and exactly when
      it throws. */
  lemma FlagAlone(app: Config, st: State, i: nat, name: string, input: string) returns (text: string)
    requires Fits(app, st) && !st.positionalOnly && i < |app.options| && MaxNum(app.options[i]) == 0
    requires LongName(app, i, name) && st.args == [FlagArgument(name, input)]
    ensures
      var o, rs := app.options[i], st.results[i];
      ParseAll(app, st) ==
        if MayNotSay(o, name, input) then Thrown(FlagOverride(name))
        else if CannotSay(o, name, input) then Thrown(OutOfRange)
        else Ok(st.(args := [], results := st.results[i := rs + Gap(o, rs) + Pieces(o, text)], order := st.order + [i]))
    ensures !MayNotSay(app.options[i], name, input) && !CannotSay(app.options[i], name, input) ==>
      SaysFor(app.options[i], name, input, text)
  {
    hide MaxNum, Pieces, Rest, ParseSingle, ParseAll, LongName, MayNotSay, CannotSay, SaysFor, Gap;
    assert [] + st.args == st.args && st.(args := st.args) == st;
    text := FlagStep(app, st, [], i, name, input);
    RestOfFlag(app, Given(app, st.(args := []), i, text), i, name);
    ParseAllStep(app, st);
    LastStep(app, ParseSingle(app, st));
  }

  /** Whatever follows a flag, its results go on with that text. */
  lemma FlagReceived(app: Config, st: State, below: seq<string>, i: nat, name: string, input: string) returns (text: string)
    requires Fits(app, st) && !st.positionalOnly && i < |app.options| && MaxNum(app.options[i]) == 0
    requires LongName(app, i, name) && st.args == below + [FlagArgument(name, input)]
    ensures
      var o, rs := app.options[i], st.results[i];
      && (MayNotSay(o, name, input) ==> ParseAll(app, st) == Thrown(FlagOverride(name)))
      && (ParseAll(app, st).Ok? ==>
           SaysFor(o, name, input, text) && rs + Gap(o, rs) + Pieces(o, text) <= ParseAll(app, st).state.results[i])
  {
    hide MaxNum, Pieces, Rest, ParseSingle, ParseAll, LongName, MayNotSay, CannotSay, SaysFor, Gap, FlagArgument;
    assert st.(args := st.args) == st;
    text := FlagStep(app, st, below, i, name, input);
    ParseAllStep(app, st);
    if ParseAll(app, st).Ok? {
      StepReceives(app, st, Eating(Given(app, st.(args := below), i, text), 0), i, name);
    }
  }

  /** The opposite of a zero is a zero, and the word 0 stands for false. */
  lemma ZeroIsFalse(o: Opt, name: string)
    requires !o.disableOverride && DefaultFlag(o.defaultFlags, name) == Some("false")
    ensures ToFlagValue("00") == Parsed(0) && FlagValue(o, name, "00") == Value("0") && ToFlagValue("0") == Parsed(-1)
  {
    hide DefaultFlag;
    assert Lower("00") == "00" && Lower("0") == "0";
    assert Magnitude("00"[1..][1..], 0) == 0 && Magnitude("00"[1..], 0) == 0 && Magnitude("00", 0) == 0;
    assert Stoll("00") == Parsed(0);
    assert ToString(0) == "0";
  }
}
