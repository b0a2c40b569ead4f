/** What the helpers of the parse loop mean: splitting words, recognizing numbers, flag values and the count
    of missing positionals. */
module CliWords {
  import opened CliParse

  function Join(parts: seq<string>, delimiter: char): string {
    if parts == [] then "" else if |parts| == 1 then parts[0] else parts[0] + [delimiter] + Join(parts[1..], delimiter)
  }

  predicate EndsIn(s: string, delimiter: char) {
    s != "" && s[|s| - 1] == delimiter
  }

  lemma {:induction false} PiecesClean(s: string, delimiter: char)
    ensures forall i :: 0 <= i < |Pieced(s, delimiter)| ==> delimiter !in Pieced(s, delimiter)[i]
  {
    if s != "" {
      PiecesClean(s[1..], delimiter);
      var rest, parts := Pieced(s[1..], delimiter), Pieced(s, delimiter);
      assert s == [s[0]] + s[1..];
      forall i | 0 <= i < |parts| ensures delimiter !in parts[i] {
        if i > 0 {
          assert parts[i] == if s[0] == delimiter then rest[i - 1] else rest[i];
        }
      }
    }
  }

  lemma {:induction false} PiecesJoin(s: string, delimiter: char)
    ensures Join(Pieced(s, delimiter), delimiter) + (if EndsIn(s, delimiter) then [delimiter] else "") == s
  {
    if s == "" {
      JoinNone(delimiter);
    } else {
      var rest := Pieced(s[1..], delimiter);
      PiecesJoin(s[1..], delimiter);
      hide Join;
      if s[0] == delimiter {
        JoinCut(rest, delimiter);
      } else if rest == [] {
        JoinOne(s, delimiter);
      } else {
        JoinLonger(rest, s[0], delimiter);
      }
      JoinedEnd(s, Join(rest, delimiter), Join(Pieced(s, delimiter), delimiter), delimiter, rest == []);
    }
  }

  lemma JoinedEnd(s: string, tail: string, joined: string, delimiter: char, none: bool)
    requires s != "" && tail + (if EndsIn(s[1..], delimiter) then [delimiter] else "") == s[1..]
    requires none <==> s[1..] == ""
    requires joined == if s[0] == delimiter then (if none then "" else [delimiter] + tail) else [s[0]] + tail
    ensures joined + (if EndsIn(s, delimiter) then [delimiter] else "") == s
  {
    assert s == [s[0]] + s[1..];
    if none {
      assert tail == "";
    } else {
      assert EndsIn(s, delimiter) == EndsIn(s[1..], delimiter);
    }
  }

  lemma JoinNone(delimiter: char)
    ensures Join([], delimiter) == ""
  {
  }

  lemma JoinOne(s: string, delimiter: char)
    ensures Join([s], delimiter) == s
  {
  }

  lemma JoinCut(rest: seq<string>, delimiter: char)
    ensures Join([""] + rest, delimiter) == if rest == [] then "" else [delimiter] + Join(rest, delimiter)
  {
    assert ([""] + rest)[1..] == rest;
  }

  lemma JoinLonger(rest: seq<string>, c: char, delimiter: char)
    requires rest != []
    ensures Join([[c] + rest[0]] + rest[1..], delimiter) == [c] + Join(rest, delimiter)
  {
    var parts := [[c] + rest[0]] + rest[1..];
    assert parts[1..] == rest[1..];
  }

  /** Splitting cuts at every delimiter and nowhere else; joining gives the string back, up to a delimiter at
      its end. */
  lemma SplitJoins(s: string, delimiter: char)
    ensures Join(Split(s, delimiter), delimiter) == (if EndsIn(s, delimiter) then s[..|s| - 1] else s)
    ensures Join(Split(s, delimiter), delimiter) == s <==> !EndsIn(s, delimiter)
    ensures forall i :: 0 <= i < |Split(s, delimiter)| ==> delimiter !in Split(s, delimiter)[i]
  {
    PiecesJoin(s, delimiter);
    PiecesClean(s, delimiter);
    var joined := Join(Split(s, delimiter), delimiter);
    if EndsIn(s, delimiter) {
      assert s == joined + [delimiter];
      assert s[..|s| - 1] == joined;
    }
  }

  /** The pieces of a joined list are the list, if no element holds the delimiter and the last is not empty. */
  lemma {:induction false} SplitOfJoin(parts: seq<string>, delimiter: char)
    requires parts != [] && parts[|parts| - 1] != "" && forall i :: 0 <= i < |parts| ==> delimiter !in parts[i]
    ensures Join(parts, delimiter) != "" && Split(Join(parts, delimiter), delimiter) == parts
    decreases |parts|
  {
    var s := Join(parts, delimiter);
    if |parts| == 1 {
      OnePiece(parts[0], delimiter);
    } else {
      SplitOfJoin(parts[1..], delimiter);
      FirstPiece(parts[0], Join(parts[1..], delimiter), delimiter);
      assert parts == [parts[0]] + parts[1..];
    }
  }

  lemma {:induction false} OnePiece(s: string, delimiter: char)
    requires s != "" && delimiter !in s
    ensures Pieced(s, delimiter) == [s]
  {
    if |s| > 1 {
      OnePiece(s[1..], delimiter);
      assert s == [s[0]] + s[1..];
    }
  }

  lemma {:induction false} FirstPiece(s: string, rest: string, delimiter: char)
    requires delimiter !in s && rest != ""
    ensures Pieced(s + [delimiter] + rest, delimiter) == [s] + Pieced(rest, delimiter)
  {
    var t := s + [delimiter] + rest;
    if s == "" {
      assert t[1..] == rest;
    } else {
      FirstPiece(s[1..], rest, delimiter);
      assert t[1..] == s[1..] + [delimiter] + rest;
      assert s == [s[0]] + s[1..];
    }
  }

  lemma {:induction false} NonEmptyKeeps(parts: seq<string>, p: string)
    ensures p in NonEmpty(parts) <==> p in parts && p != ""
  {
    if parts != [] {
      NonEmptyKeeps(parts[1..], p);
      assert parts == [parts[0]] + parts[1..];
    }
  }

  /** With a delimiter, a value becomes its non-empty pieces; without one it stays a single result. */
  lemma PiecesOfValue(o: Opt, s: string, p: string)
    requires !o.allowExtra
    ensures o.delimiter.None? || o.delimiter.value !in s ==> Pieces(o, s) == [s]
    ensures o.delimiter.Some? && o.delimiter.value in s ==>
      (p in Pieces(o, s) <==> p in Split(s, o.delimiter.value) && p != "")
    ensures o.delimiter.Some? && o.delimiter.value in s && p in Pieces(o, s) ==> o.delimiter.value !in p
  {
    if o.delimiter.Some? && o.delimiter.value in s {
      SplitJoins(s, o.delimiter.value);
      NonEmptyKeeps(Split(s, o.delimiter.value), p);
    }
  }

  /** An option that takes extra arguments reads [a,b,c] as the values a, b and c, each in turn; empty elements
      are skipped. */
  lemma PiecesOfList(o: Opt, parts: seq<string>)
    requires o.allowExtra && parts != [] && parts[|parts| - 1] != "" && forall i :: 0 <= i < |parts| ==> ',' !in parts[i]
    ensures Pieces(o, "[" + Join(parts, ',') + "]") == Flattened(o, NonEmpty(parts))
  {
    SplitOfJoin(parts, ',');
    var inner := Join(parts, ',');
    var s := "[" + inner + "]";
    assert s[1..|s| - 1] == inner;
    AllPiecesFlatten(o, |inner| + 1, parts);
  }

  /** The values of each part, one part after the other. */
  function Flattened(o: Opt, parts: seq<string>): seq<string> {
    if parts == [] then [] else Pieces(o, parts[0]) + Flattened(o, parts[1..])
  }

  lemma {:induction false} AllPiecesFlatten(o: Opt, n: nat, parts: seq<string>)
    requires forall i :: 0 <= i < |parts| ==> |parts[i]| <= n
    ensures AllPieces(o, n, parts) == Flattened(o, NonEmpty(parts))
    decreases |parts|
  {
    hide Pieces;
    if parts != [] {
      AllPiecesFlatten(o, n, parts[1..]);
      if parts[0] == "" {
        assert NonEmpty(parts) == NonEmpty(parts[1..]);
      } else {
        assert NonEmpty(parts)[1..] == NonEmpty(parts[1..]) && NonEmpty(parts)[0] == parts[0];
      }
    }
  }

  /** --name=value and --name come apart again; the value may hold more = signs, the name may not. */
  lemma LongRoundTrip(name: string, value: string)
    requires name != "" && ValidFirst(name[0]) && '=' !in name
    ensures SplitLong("--" + name + "=" + value) == Some((name, value))
    ensures SplitLong("--" + name) == Some((name, ""))
  {
    var s, t := "--" + name + "=" + value, "--" + name;
    FirstAt(s, '=', 2 + |name|);
    assert s[2..2 + |name|] == name && s[2 + |name| + 1..] == value;
    assert t[2..] == name;
    assert forall j :: 0 <= j < |t| ==> t[j] == if j < 2 then '-' else name[j - 2];
    assert FindChar(t, '=') == |t|;
    assert s[..2] == "--" == t[..2];
  }

  lemma {:induction false} FirstAt(s: string, c: char, at: nat)
    requires at < |s| && s[at] == c && forall j :: 0 <= j < at ==> s[j] != c
    ensures FindChar(s, c) == at
  {
    if at > 0 {
      FirstAt(s[1..], c, at - 1);
    }
  }

  /** A word like -5 is a positional value unless some option has that digit as its name. */
  lemma NumbersArePositional(app: Config, digit: char, rest: string)
    requires '0' <= digit <= '9'
    ensures Recognize(app, "-" + [digit] + rest) == Nothing <==> FindOption(app.options, [digit], Short).None?
  {
    var s := "-" + [digit] + rest;
    assert s[1] == digit && s[..2] == ['-', digit];
  }

  /** A flag whose override is disabled only ever has its default value, except in one case: its default is
      false and it is given =false, which the code inverts. */
  lemma OverrideDisabled(app: Config, o: Opt, name: string, input: string)
    requires o.disableOverride && o.flagLike && FlagValue(o, name, input).Value?
    ensures
      var flag := DefaultFlag(o.defaultFlags, name);
      && (FlagValue(o, name, input).text == (if flag.Some? then flag.value else "true") <==>
           !(flag == Some("false") && input == "false"))
      && (flag == Some("false") && input == "false" ==> FlagValue(o, name, input).text == "true")
  {
  }

  /** The instance: a flag --quiet{false} that may not be overridden, given as --quiet=false. */
  lemma DisabledFalseIsTrue(app: Config)
    ensures
      var quiet: Opt := Declared(["quiet"], [], false, false, 1, 1, 0, 0, false, false, None, true, true,
                                 [("quiet", "false")], "", _ => true);
      FlagValue(quiet, "quiet", "") == Value("false") && FlagValue(quiet, "quiet", "false") == Value("true")
  {
  }

  const TRUE_WORDS: seq<string> := ["true", "on", "yes", "enable", "t", "y", "+", "1"]
  const FALSE_WORDS: seq<string> := ["false", "off", "no", "disable", "f", "n", "-", "0"]

  /** Only the letters A to Z change. */
  lemma LowerLetters(s: string)
    ensures |Lower(s)| == |s|
    ensures forall i :: 0 <= i < |s| ==>
      Lower(s)[i] as int == if 'A' <= s[i] <= 'Z' then s[i] as int + 32 else s[i] as int
  {
  }

  /** The words for true and for false, in any case; another single character is a digit or nothing, and any
      other text is left to the number parser. */
  lemma FlagWords(input: string)
    ensures Lower(input) in TRUE_WORDS ==> ToFlagValue(input) == Parsed(1)
    ensures Lower(input) in FALSE_WORDS ==> ToFlagValue(input) == Parsed(-1)
    ensures Lower(input) !in TRUE_WORDS + FALSE_WORDS ==>
      ToFlagValue(input) ==
      if |input| != 1 then Stoll(Lower(input))
      else if '2' <= input[0] <= '9' then Parsed(input[0] as int - '0' as int) else Invalid
  {
    hide Stoll;
    var val := Lower(input);
    if |input| == 1 {
      LowerLetters(input);
      assert val == [val[0]];
    } else {
      assert input == "true" ==> val == "true";
      assert input == "false" ==> val == "false";
    }
  }

  /** What is recognized as what. A digit after one dash is an option only if it is the name of one. */
  lemma ClassOf(app: Config, s: string)
    ensures Recognize(app, s) == PositionalMark <==> s == "--"
    ensures Recognize(app, s) == Long <==> |s| > 2 && s[0] == '-' == s[1] && s[2] !in "-! \n"
    ensures Recognize(app, s) == Short <==>
      && |s| > 1 && s[0] == '-' && s[1] !in "-! \n"
      && (s[1] in "0123456789" ==> exists i :: 0 <= i < |app.options| && [s[1]] in app.options[i].shortNames)
    ensures Recognize(app, s) == Windows <==> app.windowsStyle && |s| > 1 && s[0] == '/' && s[1] !in "-! \n"
  {
    assert |s| > 2 ==> (s[..2] == "--" <==> s[0] == '-' == s[1]);
    if |s| > 1 {
      hide FindOption;
      IsDigitChar(s[1]);
      if i :| 0 <= i < |app.options| && [s[1]] in app.options[i].shortNames {
        assert Matches(app.options[i], [s[1]], Short);
      }
    }
  }

  lemma IsDigitChar(c: char)
    ensures c in "0123456789" <==> '0' <= c <= '9'
  {
    var digits := "0123456789";
    if '0' <= c <= '9' {
      assert digits[c as int - '0' as int] == c;
    }
  }

  /** How many values an option needs and takes. One that takes any number of them stops at its minimum, unless
      it allows extra arguments. */
  lemma Arity(o: Opt)
    ensures MinNum(o) == if o.expectedMin == 0 then 0 else o.sizeMin
    ensures o.sizeMax * o.expectedMax < 33554432 ==> MaxNum(o) == o.sizeMax * o.expectedMax
    ensures o.sizeMax * o.expectedMax >= 33554432 && o.allowExtra ==>
      MaxNum(o) == if o.sizeMax * o.expectedMax <= 2147483647 then o.sizeMax * o.expectedMax else 536870912
    ensures o.sizeMax * o.expectedMax >= 33554432 && !o.allowExtra ==>
      MaxNum(o) == if o.sizeMax * o.expectedMin <= 2147483647 then o.sizeMax * o.expectedMin else 536870912
  {
    if o.expectedMin > 0 {
      assert o.sizeMin * o.expectedMin == o.sizeMin + o.sizeMin * (o.expectedMin - 1);
    }
  }

  /** More results for one option: the count goes down by what they supply of what it lacked. */
  lemma {:induction false} CountStep(results: seq<seq<string>>, options: seq<Opt>, i: nat, more: seq<string>)
    requires |results| == |options| && i < |options|
    ensures
      var o, rs := options[i], results[i];
      var lack := if o.positional && o.required && |rs| < o.sizeMin * o.expectedMin then o.sizeMin * o.expectedMin - |rs| else 0;
      CountRemaining(results[i := rs + more], options) ==
        CountRemaining(results, options) - if |more| < lack then |more| else lack
    decreases |options|
  {
    var later := results[i := results[i] + more];
    assert CountRemaining(later, options) == Missing(later, options, 0) + CountRemaining(later[1..], options[1..]);
    assert CountRemaining(results, options) == Missing(results, options, 0) + CountRemaining(results[1..], options[1..]);
    if i == 0 {
      assert later[1..] == results[1..];
    } else {
      CountStep(results[1..], options[1..], i - 1, more);
      assert later[1..] == results[1..][i - 1 := results[i] + more];
    }
  }

  /** Nothing is counted as missing exactly if every required positional has its minimum. */
  lemma {:induction false} CountIsZero(results: seq<seq<string>>, options: seq<Opt>)
    requires |results| == |options|
    ensures CountRemaining(results, options) == 0 <==>
      forall i :: 0 <= i < |options| && options[i].positional && options[i].required ==> |results[i]| >= ItemsMin(options[i])
    decreases |options|
  {
    hide ItemsMin;
    if options != [] {
      var rs, os := results[1..], options[1..];
      CountIsZero(rs, os);
      assert forall i :: 0 < i < |options| ==> options[i] == os[i - 1] && results[i] == rs[i - 1];
      assert forall i :: 0 <= i < |os| ==> os[i] == options[i + 1] && rs[i] == results[i + 1];
    }
  }
}
