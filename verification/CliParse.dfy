/** The parse functions of a flat CLI11 application, as functions of its state. The argument vector is
    reversed: the next argument is the last element. */
module CliParse {
  datatype Option<+T> = None | Some(value: T)

  // Options

  const VECTOR_SIZE: nat := 0x2000_0000
  const INT_MAX: nat := 0x7fff_ffff

  datatype Declared = Declared(
    longNames: seq<string>, shortNames: seq<string>, positional: bool, required: bool,
    sizeMin: nat, sizeMax: nat, expectedMin: nat, expectedMax: nat, allowExtra: bool,
    injectSeparator: bool, delimiter: Option<char>,
    flagLike: bool, disableOverride: bool, defaultFlags: seq<(string, string)>, defaultStr: string,
    accepts: string -> bool)

  /** The setters keep both ranges ordered, and a short name is one valid character. */
  predicate WellFormed(o: Declared) {
    o.sizeMin <= o.sizeMax && o.expectedMin <= o.expectedMax &&
    forall i :: 0 <= i < |o.shortNames| ==> |o.shortNames[i]| == 1 && ValidFirst(o.shortNames[i][0])
  }

  type Opt = o: Declared | WellFormed(o)
    witness Declared([], [], false, false, 0, 0, 0, 0, false, false, None, false, false, [], "", _ => true)

  predicate ValidFirst(c: char) {
    c != '-' && c != '!' && c != ' ' && c != '\n'
  }

  function CheckedProduct(a: nat, b: nat): nat {
    if a * b <= INT_MAX then a * b else VECTOR_SIZE
  }

  function ItemsMin(o: Opt): nat {
    o.sizeMin * o.expectedMin
  }

  function MinNum(o: Opt): nat {
    if o.sizeMin < ItemsMin(o) then o.sizeMin else ItemsMin(o)
  }

  function MaxNum(o: Opt): nat {
    var items := CheckedProduct(o.sizeMax, o.expectedMax);
    if items >= VECTOR_SIZE / 16 && !o.allowExtra then CheckedProduct(o.sizeMax, o.expectedMin) else items
  }

  // Adding results

  /** getline until the end of the stream: a delimiter at the end starts no new piece. */
  function Pieced(s: string, delimiter: char): (parts: seq<string>)
    ensures s != "" ==> parts != []
    ensures forall i :: 0 <= i < |parts| ==> |parts[i]| <= |s|
  {
    if s == "" then []
    else if s[0] == delimiter then [""] + Pieced(s[1..], delimiter)
    else
      var rest := Pieced(s[1..], delimiter);
      if rest == [] then [s] else [[s[0]] + rest[0]] + rest[1..]
  }

  function Split(s: string, delimiter: char): (parts: seq<string>)
    ensures parts != [] && forall i :: 0 <= i < |parts| ==> |parts[i]| <= |s|
  {
    if s == "" then [""] else Pieced(s, delimiter)
  }

  function NonEmpty(parts: seq<string>): seq<string> {
    if parts == [] then [] else (if parts[0] == "" then [] else [parts[0]]) + NonEmpty(parts[1..])
  }

  /** The results that one added string becomes: a bracketed list, or pieces between delimiters. */
  function Pieces(o: Opt, s: string): seq<string>
    decreases |s|, 0
  {
    if o.allowExtra && |s| > 1 && s[0] == '[' && s[|s| - 1] == ']' then
      AllPieces(o, |s| - 1, Split(s[1..|s| - 1], ','))
    else if o.delimiter.Some? && o.delimiter.value in s then NonEmpty(Split(s, o.delimiter.value))
    else [s]
  }

  function AllPieces(o: Opt, n: nat, parts: seq<string>): seq<string>
    requires forall i :: 0 <= i < |parts| ==> |parts[i]| <= n
    decreases n, |parts|
  {
    if parts == [] then []
    else (if parts[0] == "" then [] else Pieces(o, parts[0])) + AllPieces(o, n, parts[1..])
  }

  // The application

  datatype Classifier = PositionalMark | Long | Short | Windows | Nothing

  datatype Config = Config(
    options: seq<Opt>, windowsStyle: bool, positionalsAtEnd: bool, validatePositionals: bool,
    validateOptional: bool, prefixCommand: bool)

  datatype State = State(
    args: seq<string>, results: seq<seq<string>>, order: seq<nat>, missing: seq<(Classifier, string)>,
    positionalOnly: bool)

  datatype Error = TypedAtLeast(option: nat) | PartialType(option: nat) | FlagOverride(name: string) |
    OutOfRange | Extras(args: seq<string>)

  datatype Outcome = Ok(state: State) | Thrown(error: Error)

  predicate Fits(app: Config, st: State) {
    |st.results| == |app.options|
  }

  // Splitting and recognizing an argument

  function FindChar(s: string, c: char): (at: nat)
    ensures at <= |s| && (at < |s| ==> s[at] == c) && c !in s[..at]
  {
    if s == "" || s[0] == c then 0
    else
      var at := FindChar(s[1..], c) + 1;
      assert s[..at] == [s[0]] + s[1..][..at - 1];
      at
  }

  /** The text before the separator from an offset on, and the text after it. */
  function SplitAt(s: string, from: nat, c: char): (string, string)
    requires from <= |s| && forall j :: 0 <= j < from ==> s[j] != c
  {
    var at := FindChar(s, c);
    if at < |s| then (s[from..at], s[at + 1..]) else (s[from..], "")
  }

  function SplitLong(s: string): Option<(string, string)> {
    if |s| > 2 && s[..2] == "--" && ValidFirst(s[2]) then Some(SplitAt(s, 2, '=')) else None
  }

  function SplitShort(s: string): Option<(string, string)> {
    if |s| > 1 && s[0] == '-' && ValidFirst(s[1]) then Some(([s[1]], s[2..])) else None
  }

  function SplitWindows(s: string): Option<(string, string)> {
    if |s| > 1 && s[0] == '/' && ValidFirst(s[1]) then Some(SplitAt(s, 1, ':')) else None
  }

  predicate Matches(o: Opt, name: string, kind: Classifier) {
    match kind
    case Long => name in o.longNames
    case Short => name in o.shortNames
    case _ => name in o.longNames || name in o.shortNames
  }

  /** The first option of that name. */
  function FindOption(options: seq<Opt>, name: string, kind: Classifier): (found: Option<nat>)
    ensures found.Some? ==> found.value < |options| && Matches(options[found.value], name, kind)
    ensures found.Some? ==> forall i :: 0 <= i < found.value ==> !Matches(options[i], name, kind)
    ensures found.None? ==> forall i :: 0 <= i < |options| ==> !Matches(options[i], name, kind)
  {
    if options == [] then None
    else if Matches(options[0], name, kind) then Some(0)
    else
      match FindOption(options[1..], name, kind)
      case None => None
      case Some(i) => Some(i + 1)
  }

  function Recognize(app: Config, s: string): Classifier {
    if s == "--" then PositionalMark
    else if SplitLong(s).Some? then Long
    else if SplitShort(s).Some? then
      if '0' <= s[1] <= '9' && FindOption(app.options, [s[1]], Short).None? then Nothing else Short
    else if app.windowsStyle && SplitWindows(s).Some? then Windows
    else Nothing
  }

  // Parts of _parse_arg

  function Top(args: seq<string>): string
    requires args != []
  {
    args[|args| - 1]
  }

  function Pop(args: seq<string>): seq<string>
    requires args != []
  {
    args[..|args| - 1]
  }

  function AddResult(app: Config, st: State, i: nat, s: string): State
    requires Fits(app, st) && i < |app.options|
  {
    st.(results := st.results[i := st.results[i] + Pieces(app.options[i], s)])
  }

  function AddInOrder(app: Config, st: State, i: nat, s: string): State
    requires Fits(app, st) && i < |app.options|
  {
    AddResult(app, st, i, s).(order := st.order + [i])
  }

  /** An empty result between the groups of an option that separates them. */
  function Separated(app: Config, st: State, i: nat): (r: State)
    requires Fits(app, st) && i < |app.options|
    ensures Fits(app, r) && r.args == st.args && r.order == st.order && r.missing == st.missing
    ensures r.positionalOnly == st.positionalOnly
  {
    var rs := st.results[i];
    if app.options[i].injectSeparator && rs != [] && rs[|rs| - 1] != "" then AddResult(app, st, i, "") else st
  }

  /** The value of the first pair of that name. */
  function DefaultFlag(flags: seq<(string, string)>, name: string): (default: Option<string>)
    ensures default.None? <==> forall k :: 0 <= k < |flags| ==> flags[k].0 != name
    ensures default.Some? ==>
      exists k :: 0 <= k < |flags| && flags[k] == (name, default.value) && forall j :: 0 <= j < k ==> flags[j].0 != name
  {
    if flags == [] then None else if flags[0].0 == name then Some(flags[0].1) else DefaultFlag(flags[1..], name)
  }

  datatype Value = Value(text: string) | Fails(error: Error)

  function Lower(s: string): string {
    seq(|s|, i requires 0 <= i < |s| => if 'A' <= s[i] <= 'Z' then s[i] - 'A' + 'a' else s[i])
  }

  /** A number, std::invalid_argument or std::out_of_range. */
  datatype Number = Parsed(n: int) | Invalid | TooLarge

  const INT64_MIN: int := -0x8000_0000_0000_0000
  const INT64_MAX: int := 0x7fff_ffff_ffff_ffff

  predicate IsDecimal(c: char) {
    '0' <= c <= '9'
  }

  /** The decimal digits up to the first other character, after those read before. */
  function Magnitude(s: string, before: nat): nat {
    if s == "" || !IsDecimal(s[0]) then before else Magnitude(s[1..], 10 * before + (s[0] as int - '0' as int))
  }

  function Signed(s: string, sign: int): Number {
    if s == "" || !IsDecimal(s[0]) then Invalid
    else
      var n := sign * Magnitude(s, 0);
      if INT64_MIN <= n <= INT64_MAX then Parsed(n) else TooLarge
  }

  /** std::stoll: leading space, a sign, digits; what follows them is ignored. */
  function Stoll(s: string): Number {
    if s == "" then Invalid
    else if s[0] == ' ' || 9 <= s[0] as int <= 13 then Stoll(s[1..])
    else if s[0] == '-' then Signed(s[1..], -1)
    else if s[0] == '+' then Signed(s[1..], 1)
    else Signed(s, 1)
  }

  /** to_flag_value */
  function ToFlagValue(input: string): Number {
    var val := Lower(input);
    if input == "true" then Parsed(1)
    else if input == "false" then Parsed(-1)
    else if |val| == 1 then
      if '1' <= val[0] <= '9' then Parsed(val[0] as int - '0' as int)
      else if val[0] in "0fn-" then Parsed(-1)
      else if val[0] in "ty+" then Parsed(1)
      else Invalid
    else if val == "true" || val == "on" || val == "yes" || val == "enable" then Parsed(1)
    else if val == "false" || val == "off" || val == "no" || val == "disable" then Parsed(-1)
    else Stoll(val)
  }

  function Digits(n: nat): string {
    (if n < 10 then "" else Digits(n / 10)) + [('0' as int + n % 10) as char]
  }

  /** std::to_string */
  function ToString(n: int): string {
    if n < 0 then "-" + Digits(-n) else Digits(n)
  }

  /** The value given to a flag whose default is false: its opposite, or itself if it is no flag value. */
  function Inverted(input: string): Value {
    match ToFlagValue(input)
    case Parsed(n) => Value(if n == 1 then "false" else if n == -1 then "true" else ToString(-n))
    case Invalid => Value(input)
    case TooLarge => Fails(OutOfRange)
  }

  function FlagValue(o: Opt, name: string, input: string): Value {
    var default := DefaultFlag(o.defaultFlags, name);
    var given := input != "" && input != "{}";
    if o.disableOverride && given && input != (if default.Some? then default.value else "true") then
      Fails(FlagOverride(name))
    else if !given then
      Value(if default.Some? then default.value else if o.flagLike then "true" else o.defaultStr)
    else if default.None? || default.value != "false" then Value(input)
    else Inverted(input)
  }

  function Missing(results: seq<seq<string>>, options: seq<Opt>, i: nat): nat
    requires |results| == |options| && i < |options|
  {
    var o := options[i];
    if o.positional && o.required && |results[i]| < ItemsMin(o) then ItemsMin(o) - |results[i]| else 0
  }

  /** How many values the required positionals still lack. */
  function CountRemaining(results: seq<seq<string>>, options: seq<Opt>): nat
    requires |results| == |options|
    decreases |options|
  {
    if options == [] then 0 else Missing(results, options, 0) + CountRemaining(results[1..], options[1..])
  }

  datatype Eating = Eating(state: State, collected: nat)

  /** The loop that gathers the minimum. */
  function Gather(app: Config, e: Eating, i: nat): (r: Eating)
    requires Fits(app, e.state) && i < |app.options|
    ensures Fits(app, r.state) && r.state.args <= e.state.args
    ensures r.state.missing == e.state.missing && r.state.positionalOnly == e.state.positionalOnly
    decreases |e.state.args|
  {
    if MinNum(app.options[i]) > e.collected && e.state.args != [] then
      var s := Top(e.state.args);
      var next := AddInOrder(app, e.state.(args := Pop(e.state.args)), i, s);
      Gather(app, Eating(next, e.collected + |Pieces(app.options[i], s)|), i)
    else e
  }

  /** Is the next argument one that the option would still take? */
  predicate Wants(app: Config, e: Eating, i: nat)
    requires i < |app.options|
  {
    var o := app.options[i];
    && (e.collected < MaxNum(o) || o.allowExtra) && e.state.args != []
    && Recognize(app, Top(e.state.args)) == Nothing
    && (!app.validateOptional || o.accepts(Top(e.state.args)))
  }

  predicate EatsNext(app: Config, e: Eating, i: nat, remaining: nat)
    requires i < |app.options|
  {
    Wants(app, e, i) && remaining < |e.state.args|
  }

  /** The loop that eats optional arguments. */
  function Eat(app: Config, e: Eating, i: nat, remaining: nat): (r: Eating)
    requires Fits(app, e.state) && i < |app.options|
    ensures Fits(app, r.state) && r.state.args <= e.state.args
    ensures r.state.missing == e.state.missing && r.state.positionalOnly == e.state.positionalOnly
    decreases |e.state.args|
  {
    if EatsNext(app, e, i, remaining) then
      var s := Top(e.state.args);
      var next := AddInOrder(app, e.state.(args := Pop(e.state.args)), i, s);
      Eat(app, Eating(next, e.collected + |Pieces(app.options[i], s)|), i, remaining)
    else e
  }

  lemma GatherStep(app: Config, e: Eating, i: nat)
    requires Fits(app, e.state) && i < |app.options|
    ensures MinNum(app.options[i]) <= e.collected || e.state.args == [] ==> Gather(app, e, i) == e
    ensures MinNum(app.options[i]) > e.collected && e.state.args != [] ==>
      var s := Top(e.state.args);
      var next := AddInOrder(app, e.state.(args := Pop(e.state.args)), i, s);
      Gather(app, e, i) == Gather(app, Eating(next, e.collected + |Pieces(app.options[i], s)|), i)
  {
    hide MinNum, Pieces;
  }

  lemma EatStep(app: Config, e: Eating, i: nat, remaining: nat)
    requires Fits(app, e.state) && i < |app.options|
    ensures !EatsNext(app, e, i, remaining) ==> Eat(app, e, i, remaining) == e
    ensures EatsNext(app, e, i, remaining) ==>
      var s := Top(e.state.args);
      var next := AddInOrder(app, e.state.(args := Pop(e.state.args)), i, s);
      Eat(app, e, i, remaining) == Eat(app, Eating(next, e.collected + |Pieces(app.options[i], s)|), i, remaining)
  {
    hide MaxNum, Pieces, Recognize;
  }

  function DropMark(app: Config, st: State): (r: State)
    ensures r.results == st.results && r.args <= st.args
  {
    if st.args != [] && Recognize(app, Top(st.args)) == PositionalMark then st.(args := Pop(st.args)) else st
  }

  datatype Progress = Going(eating: Eating) | Stopped(error: Error)

  /** Optional arguments, an ending --, and the default of an option that got none. */
  function Optional(app: Config, e: Eating, i: nat, name: string): (r: Progress)
    requires Fits(app, e.state) && i < |app.options|
    ensures r.Going? ==> Fits(app, r.eating.state) && r.eating.state.args <= e.state.args
  {
    var o := app.options[i];
    if MaxNum(o) <= e.collected && !o.allowExtra then Going(e)
    else
      var eaten := Eat(app, e, i, CountRemaining(e.state.results, app.options));
      var st := DropMark(app, eaten.state);
      if MinNum(o) == 0 && MaxNum(o) > 0 && eaten.collected == 0 then
        match FlagValue(o, name, "")
        case Fails(error) => Stopped(error)
        case Value(text) => Going(Eating(AddInOrder(app, st, i, text), 0))
      else Going(Eating(st, eaten.collected))
  }

  /** The value in the argument itself: a flag's, after = or the rest of a short option. */
  function FirstValue(app: Config, st: State, i: nat, name: string, value: string, rest: string): (r: Progress)
    requires Fits(app, st) && i < |app.options|
    ensures r.Going? ==> Fits(app, r.eating.state) && r.eating.state.args == st.args
  {
    var o := app.options[i];
    if MaxNum(o) == 0 then
      match FlagValue(o, name, value)
      case Fails(error) => Stopped(error)
      case Value(text) => Going(Eating(AddInOrder(app, st, i, text), 0))
    else if value != "" then Going(Eating(AddInOrder(app, st, i, value), |Pieces(o, value)|))
    else if rest != "" then Going(Eating(AddInOrder(app, st, i, rest), |Pieces(o, rest)|))
    else Going(Eating(st, 0))
  }

  /** An option stops in the middle of a group only if its groups may be short. */
  function Partial(app: Config, e: Eating, i: nat): (r: Outcome)
    requires Fits(app, e.state) && i < |app.options|
    ensures r.Ok? ==> Fits(app, r.state) && r.state.args == e.state.args
  {
    var o := app.options[i];
    if MinNum(o) > 0 && e.collected % o.sizeMax != 0 then
      if o.sizeMax != o.sizeMin then Ok(AddResult(app, e.state, i, "")) else Thrown(PartialType(i))
    else Ok(e.state)
  }

  /** Everything that happens to an option once it is found; the argument itself is already popped. */
  function Collect(app: Config, st: State, i: nat, name: string, value: string, rest: string): (r: Outcome)
    requires Fits(app, st) && i < |app.options|
    ensures r.Ok? ==> Fits(app, r.state) && r.state.args <= st.args
  {
    var first := FirstValue(app, Separated(app, st, i), i, name, value, rest);
    if first.Stopped? then Thrown(first.error)
    else
      var gathered := Gather(app, first.eating, i);
      if MinNum(app.options[i]) > gathered.collected then Thrown(TypedAtLeast(i))
      else
        var full := Optional(app, gathered, i, name);
        if full.Stopped? then Thrown(full.error) else Partial(app, full.eating, i)
  }

  // The parse functions

  /** The sum of length + 1 over the arguments still to parse. */
  function Measure(args: seq<string>): nat {
    if args == [] then 0 else |args[0]| + 1 + Measure(args[1..])
  }

  function MoveToMissing(st: State, kind: Classifier, s: string): State {
    st.(missing := st.missing + [(kind, s)])
  }

  datatype Parts = Parts(name: string, value: string, rest: string)

  function SplitArg(current: string, kind: Classifier): (parts: Parts)
    requires kind == Long ==> SplitLong(current).Some?
    requires kind == Short ==> SplitShort(current).Some?
    requires kind == Windows ==> SplitWindows(current).Some?
    ensures parts.rest != "" ==> |parts.rest| + 2 == |current|
  {
    match kind
    case Long => var (name, value) := SplitLong(current).value; Parts(name, value, "")
    case Short => var (name, rest) := SplitShort(current).value; Parts(name, "", rest)
    case Windows => var (name, value) := SplitWindows(current).value; Parts(name, value, "")
    case _ => Parts("", "", "")
  }

  predicate IsOption(kind: Classifier) {
    kind == Long || kind == Short || kind == Windows
  }

  function ParseArg(app: Config, st: State, kind: Classifier): (r: Outcome)
    requires Fits(app, st) && st.args != [] && Recognize(app, Top(st.args)) == kind && IsOption(kind)
    ensures r.Ok? ==> Fits(app, r.state)
  {
    var current := Top(st.args);
    var parts := SplitArg(current, kind);
    var popped := st.(args := Pop(st.args));
    match FindOption(app.options, parts.name, kind)
    case None => Ok(MoveToMissing(popped, kind, current))
    case Some(i) =>
      var collected := Collect(app, popped, i, parts.name, parts.value, parts.rest);
      if collected.Ok? && MaxNum(app.options[i]) == 0 && parts.rest != "" then
        Ok(collected.state.(args := collected.state.args + ["-" + parts.rest]))
      else collected
  }

  predicate TakesMore(app: Config, st: State, i: nat)
    requires Fits(app, st) && i < |app.options|
  {
    app.options[i].positional && |st.results[i]| < ItemsMin(app.options[i])
  }

  predicate Takes(app: Config, st: State, i: nat, s: string, requiredOnly: bool)
    requires Fits(app, st) && i < |app.options|
  {
    var o := app.options[i];
    && (if requiredOnly then o.required && TakesMore(app, st, i) else TakesMore(app, st, i) || (o.positional && o.allowExtra))
    && (!app.validatePositionals || o.accepts(s))
  }

  /** The first option from i on that takes the positional. */
  function FindPositional(app: Config, st: State, i: nat, s: string, requiredOnly: bool): (found: Option<nat>)
    requires Fits(app, st) && i <= |app.options|
    ensures found.Some? ==> i <= found.value < |app.options| && Takes(app, st, found.value, s, requiredOnly)
    ensures found.Some? ==> forall j :: i <= j < found.value ==> !Takes(app, st, j, s, requiredOnly)
    ensures found.None? ==> forall j :: i <= j < |app.options| ==> !Takes(app, st, j, s, requiredOnly)
    decreases |app.options| - i
  {
    if i == |app.options| then None
    else if Takes(app, st, i, s, requiredOnly) then Some(i)
    else FindPositional(app, st, i + 1, s, requiredOnly)
  }

  /** prefix_command: everything left is missing. */
  function AllMissing(st: State): (r: State)
    ensures r.args == [] && r.results == st.results && r.order == st.order && r.positionalOnly == st.positionalOnly
    decreases |st.args|
  {
    if st.args == [] then st else AllMissing(MoveToMissing(st, Nothing, Top(st.args)).(args := Pop(st.args)))
  }

  function TakePositional(app: Config, st: State, i: nat): (r: State)
    requires Fits(app, st) && i < |app.options| && st.args != []
    ensures Fits(app, r) && r.args == Pop(st.args) && r.positionalOnly == st.positionalOnly
  {
    var s := Top(st.args);
    AddResult(app, Separated(app, st, i), i, s).(order := st.order + [i], args := Pop(st.args))
  }

  function ParsePositional(app: Config, st: State): (r: Outcome)
    requires Fits(app, st) && st.args != []
    ensures r.Ok? ==> Fits(app, r.state) && r.state.positionalOnly == st.positionalOnly
  {
    var s := Top(st.args);
    var early := if app.positionalsAtEnd && |st.args| <= CountRemaining(st.results, app.options)
      then FindPositional(app, st, 0, s, true) else None;
    var taker := if early.Some? then early else FindPositional(app, st, 0, s, false);
    if taker.Some? then Ok(TakePositional(app, st, taker.value))
    else if app.positionalsAtEnd then Thrown(Extras(st.args))
    else
      var popped := MoveToMissing(st, Nothing, s).(args := Pop(st.args));
      Ok(if app.prefixCommand then AllMissing(popped) else popped)
  }

  function ParseSingle(app: Config, st: State): (r: Outcome)
    requires Fits(app, st) && st.args != []
    ensures r.Ok? ==> Fits(app, r.state)
  {
    var kind := if st.positionalOnly then Nothing else Recognize(app, Top(st.args));
    match kind
    case PositionalMark => Ok(MoveToMissing(st.(args := Pop(st.args), positionalOnly := true), kind, "--"))
    case Nothing =>
      var r := ParsePositional(app, st);
      if r.Ok? && app.positionalsAtEnd then Ok(r.state.(positionalOnly := true)) else r
    case _ => ParseArg(app, st, kind)
  }

  // Termination

  lemma {:induction false} MeasureAppend(args: seq<string>, s: string)
    ensures Measure(args + [s]) == Measure(args) + |s| + 1
    decreases |args|
  {
    if args == [] {
      assert args + [s] == [s];
    } else {
      assert (args + [s])[1..] == args[1..] + [s];
      MeasureAppend(args[1..], s);
    }
  }

  lemma {:induction false} MeasurePrefix(shorter: seq<string>, args: seq<string>)
    requires shorter <= args
    ensures Measure(shorter) <= Measure(args)
    decreases |args|
  {
    if shorter != args {
      MeasurePrefix(shorter, Pop(args));
      MeasureAppend(Pop(args), Top(args));
      assert args == Pop(args) + [Top(args)];
    }
  }

  /** Every step that does not throw makes the sum of length + 1 smaller, even when it pushes the rest of
      a cluster back. */
  lemma SingleDecreases(app: Config, st: State)
    requires Fits(app, st) && st.args != []
    ensures ParseSingle(app, st).Ok? ==> Measure(ParseSingle(app, st).state.args) < Measure(st.args)
  {
    hide Collect, FindOption, Recognize, CountRemaining, FindPositional, AllMissing;
    var r := ParseSingle(app, st);
    var s, left := Top(st.args), Pop(st.args);
    assert st.args == left + [s];
    MeasureAppend(left, s);
    if r.Ok? {
      MeasurePrefix([], left);
      var kind := if st.positionalOnly then Nothing else Recognize(app, s);
      if IsOption(kind) {
        ArgShrinks(app, st, kind);
      } else {
        assert r.state.args == left || r.state.args == [];
      }
    }
  }

  lemma ArgShrinks(app: Config, st: State, kind: Classifier)
    requires Fits(app, st) && st.args != [] && Recognize(app, Top(st.args)) == kind && IsOption(kind)
    requires ParseArg(app, st, kind).Ok?
    ensures Measure(ParseArg(app, st, kind).state.args) < Measure(st.args)
  {
    var s, left := Top(st.args), Pop(st.args);
    var parts := SplitArg(s, kind);
    hide Collect, FindOption, Recognize, SplitArg;
    assert st.args == left + [s];
    MeasureAppend(left, s);
    var found := FindOption(app.options, parts.name, kind);
    if found.Some? {
      var collected := Collect(app, st.(args := left), found.value, parts.name, parts.value, parts.rest);
      MeasurePrefix(collected.state.args, left);
      MeasureAppend(collected.state.args, "-" + parts.rest);
    }
  }

  /** The parse loop. */
  function ParseAll(app: Config, st: State): (r: Outcome)
    requires Fits(app, st)
    ensures r.Ok? ==> Fits(app, r.state) && r.state.args == []
    decreases Measure(st.args)
  {
    if st.args == [] then Ok(st)
    else
      var r := ParseSingle(app, st);
      SingleDecreases(app, st);
      if r.Ok? then ParseAll(app, r.state) else r
  }

  lemma ParseAllStep(app: Config, st: State)
    requires Fits(app, st) && st.args != []
    ensures ParseAll(app, st) == if ParseSingle(app, st).Ok? then ParseAll(app, ParseSingle(app, st).state) else ParseSingle(app, st)
  {
    hide ParseSingle;
    SingleDecreases(app, st);
  }
}
