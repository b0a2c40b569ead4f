/** What a percent-encoded string says, read off its characters and not off the decoder. */
module LspTriplets {
  import opened LspUrl

  /** d is the hexadecimal digit of v, in either case. */
  predicate Digit(d: byte, v: nat) {
    (v < 10 && d == 48 + v) || (10 <= v < 16 && (d == 55 + v || d == 87 + v))
  }

  /** One byte written as itself, a space as +, or any byte as a triplet. */
  predicate Spells(piece: seq<byte>, c: byte) {
    || (piece == [c] && c != 37 && c != 43)
    || (piece == [43] && c == 32)
    || (|piece| == 3 && piece[0] == 37 && Digit(piece[1], c / 16) && Digit(piece[2], c % 16))
  }

  predicate Writes(t: seq<byte>, s: seq<byte>)
    decreases |s|
  {
    if s == [] then t == []
    else
      || (|t| >= 1 && Spells(t[..1], s[0]) && Writes(t[1..], s[1..]))
      || (|t| >= 3 && Spells(t[..3], s[0]) && Writes(t[3..], s[1..]))
  }

  predicate IsHex(d: byte) {
    48 <= d <= 57 || 65 <= d <= 70 || 97 <= d <= 102
  }

  /** Two hexadecimal digits follow every percent sign. */
  predicate WellFormed(t: seq<byte>) {
    t == [] ||
    if t[0] == 37 then |t| >= 3 && IsHex(t[1]) && IsHex(t[2]) && WellFormed(t[3..]) else WellFormed(t[1..])
  }

  lemma HexIff(d: byte, v: nat)
    requires v < 16
    ensures HexValue(d) == v <==> Digit(d, v)
    ensures HexValue(d) >= 0 <==> IsHex(d)
  {
  }

  lemma TripletIff(a: byte, b: byte, c: byte)
    requires IsHex(a) && IsHex(b)
    ensures Extract(a, b) == c <==> Digit(a, c / 16) && Digit(b, c % 16)
  {
    HexIff(a, c / 16);
    HexIff(b, c % 16);
  }

  lemma DigitIsHex(d: byte, v: nat)
    requires Digit(d, v)
    ensures IsHex(d)
  {
  }

  /** The first piece of a string: a triplet where it starts with a percent sign, one character elsewhere. */
  lemma FirstPiece(t: seq<byte>, c: byte)
    requires t != []
    ensures Spells(t[..1], c) <==> t[0] != 37 && c == (if t[0] == 43 then 32 else t[0])
    ensures |t| >= 3 ==> (Spells(t[..3], c) <==> t[0] == 37 && Digit(t[1], c / 16) && Digit(t[2], c % 16))
  {
    hide Digit;
    assert t[..1] == [t[0]];
  }

  lemma DecodedFirst(t: seq<byte>)
    requires t != [] && WellFormed(t)
    ensures t[0] == 37 ==> Decoded(t) == [Extract(t[1], t[2])] + Decoded(t[3..])
    ensures t[0] != 37 ==> Decoded(t) == [if t[0] == 43 then SPACE else t[0]] + Decoded(t[1..])
  {
    hide Extract;
  }

  /** A string decodes to the bytes that it writes; it writes something exactly if it is well formed. */
  lemma {:induction false} WritesIff(t: seq<byte>, s: seq<byte>)
    ensures Writes(t, s) <==> WellFormed(t) && Decoded(t) == s
    decreases |t|
  {
    hide Extract, Digit, Spells, IsHex;
    if t == [] {
    } else if s == [] {
      if WellFormed(t) {
        DecodedFirst(t);
      }
    } else {
      FirstPiece(t, s[0]);
      WritesIff(t[1..], s[1..]);
      if t[0] == 37 && |t| >= 3 {
        WritesIff(t[3..], s[1..]);
        TripletPiece(t[1], t[2], s[0]);
      }
      if WellFormed(t) {
        DecodedFirst(t);
      }
      assert s == [s[0]] + s[1..];
    }
  }

  lemma TripletPiece(a: byte, b: byte, c: byte)
    ensures Digit(a, c / 16) && Digit(b, c % 16) <==> IsHex(a) && IsHex(b) && Extract(a, b) == c
  {
    hide Digit, IsHex, Extract;
    if Digit(a, c / 16) && Digit(b, c % 16) {
      DigitIsHex(a, c / 16);
      DigitIsHex(b, c % 16);
    }
    if IsHex(a) && IsHex(b) {
      TripletIff(a, b, c);
    }
  }

  /** The same characters, but for the case of the digits in triplets. */
  predicate SameButCase(t: seq<byte>, u: seq<byte>) {
    || (t == [] && u == [])
    || (t != [] && u != [] && t[0] == u[0] &&
        if t[0] == 37 && |t| > 2 && |u| > 2 then SameDigit(t[1], u[1]) && SameDigit(t[2], u[2]) && SameButCase(t[3..], u[3..])
        else SameButCase(t[1..], u[1..]))
  }

  predicate SameDigit(a: byte, b: byte) {
    a == b || (65 <= a <= 70 && b == a + 32) || (65 <= b <= 70 && a == b + 32)
  }

  lemma SameExtract(a: byte, b: byte, c: byte, d: byte)
    requires SameDigit(a, c) && SameDigit(b, d)
    ensures Extract(a, b) == Extract(c, d)
  {
  }

  lemma {:induction false} SameLength(t: seq<byte>, u: seq<byte>)
    requires SameButCase(t, u)
    ensures |t| == |u|
    decreases |t|
  {
    if t != [] {
      if t[0] == 37 && |t| > 2 && |u| > 2 {
        SameLength(t[3..], u[3..]);
      } else {
        SameLength(t[1..], u[1..]);
      }
    }
  }

  lemma {:induction false} SameDecoded(t: seq<byte>, u: seq<byte>)
    requires SameButCase(t, u)
    ensures Decoded(t) == Decoded(u)
    decreases |t|
  {
    hide Extract, SameDigit;
    SameLength(t, u);
    if t != [] {
      if t[0] == 37 && |t| > 2 {
        SameExtract(t[1], t[2], u[1], u[2]);
        SameDecoded(t[3..], u[3..]);
      } else {
        SameDecoded(t[1..], u[1..]);
      }
    }
  }

  /** A URI leads to the same path however the digits of its triplets are written. */
  lemma CaseDoesNotMatter(t: seq<byte>, u: seq<byte>, windows: bool)
    requires SameButCase(t, u)
    ensures PathOf(t, windows) == PathOf(u, windows)
  {
    SameDecoded(t, u);
  }

  /** The path of a URI that writes file:/// and a path. */
  lemma WrittenPath(t: seq<byte>, path: seq<byte>, windows: bool)
    requires Writes(t, [102, 105, 108, 101, 58, 47, 47, 47] + path)
    ensures PathOf(t, windows) == if windows then path else [47] + path
  {
    WritesIff(t, FILE + path);
    assert (FILE + path)[8..] == path && (FILE + path)[7..] == [47] + path;
  }

  // What is not well formed

  /** Digits up to the first other character. */
  function Number(s: seq<byte>, before: nat): nat {
    if s == [] || !IsHex(s[0]) then before else Number(s[1..], 16 * before + HexValue(s[0]))
  }

  /** A hexadecimal extraction from a stream: leading space, a sign, digits; 0 where there is none. */
  function Extraction(s: seq<byte>): int {
    if s == [] then 0
    else if s[0] == 32 || 9 <= s[0] <= 13 then Extraction(s[1..])
    else if s[0] == 45 then 0 - Number(s[1..], 0) as int
    else if s[0] == 43 then Number(s[1..], 0)
    else Number(s, 0)
  }

  lemma ExtractIsExtraction(a: byte, b: byte)
    ensures Extract(a, b) == Extraction([a, b]) % 256
  {
    hide Number;
    NumberOfNone();
    NumberOfOne(b, 0);
    NumberOfTwo(a, b);
    assert [a, b][1..] == [b] && [b][1..] == [];
    assert Extraction([]) == 0;
    assert IsSpace(a) ==> Extraction([a, b]) == Extraction([b]);
    assert a == PLUS ==> Extraction([a, b]) == Number([b], 0);
    assert a == MINUS ==> Extraction([a, b]) == 0 - Number([b], 0) as int;
  }

  lemma NumberOfNone()
    ensures Number([], 0) == 0
  {
  }

  lemma NumberOfOne(b: byte, before: nat)
    ensures Number([b], before) == if IsHex(b) then 16 * before + HexValue(b) else before
  {
    assert [b][1..] == [];
  }

  lemma NumberOfTwo(a: byte, b: byte)
    ensures Number([a, b], 0) ==
      if !IsHex(a) then 0 else if IsHex(b) then 16 * HexValue(a) + HexValue(b) else HexValue(a)
  {
    assert [a, b][1..] == [b];
    if IsHex(a) {
      NumberOfOne(b, HexValue(a));
    }
  }

  /** Any string at all: a percent sign and the two characters after it stand for the extracted byte, one with
      fewer than two after it for nothing, + for a space, and every other character for itself. */
  predicate Reads(t: seq<byte>, s: seq<byte>)
    decreases |t|
  {
    if t == [] then s == []
    else if t[0] == 37 && |t| < 3 then Reads(t[1..], s)
    else if t[0] == 37 then s != [] && s[0] == Extraction(t[1..3]) % 256 && Reads(t[3..], s[1..])
    else s != [] && s[0] == (if t[0] == 43 then 32 else t[0]) && Reads(t[1..], s[1..])
  }

  lemma {:induction false} ReadsIff(t: seq<byte>, s: seq<byte>)
    ensures Reads(t, s) <==> Decoded(t) == s
    decreases |t|
  {
    hide Extract, Extraction;
    if t != [] {
      assert s != [] ==> s == [s[0]] + s[1..];
      if t[0] == 37 && |t| < 3 {
        ReadsIff(t[1..], s);
      } else if t[0] == 37 {
        ExtractIsExtraction(t[1], t[2]);
        assert t[1..3] == [t[1], t[2]];
        if s != [] {
          ReadsIff(t[3..], s[1..]);
        }
      } else if s != [] {
        ReadsIff(t[1..], s[1..]);
      }
    }
  }

  // The encoder's own spelling

  const DIGITS: string := "0123456789ABCDEF"

  /** The unreserved characters of section 2.3 of RFC 3986, and the slash. */
  predicate Plain(c: char) {
    'A' <= c <= 'Z' || 'a' <= c <= 'z' || '0' <= c <= '9' || c in "-_.~/"
  }

  /** Plain characters as themselves, every other byte as a triplet of upper-case digits. */
  predicate Escapes(t: seq<byte>, s: seq<byte>)
    decreases |s|
  {
    if s == [] then t == []
    else if Plain(s[0] as char) then t != [] && t[0] == s[0] && Escapes(t[1..], s[1..])
    else
      && |t| >= 3 && t[0] == 37 && t[1] as char == DIGITS[s[0] / 16] && t[2] as char == DIGITS[s[0] % 16]
      && Escapes(t[3..], s[1..])
  }

  lemma KeptIff(c: byte)
    ensures Kept(c) <==> Plain(c as char)
  {
  }

  lemma UpperDigit(v: nat, d: byte)
    requires v < 16
    ensures d as char == DIGITS[v] <==> d == HexDigit(v)
  {
  }

  lemma EscapesOne(t: seq<byte>, c: byte, rest: seq<byte>)
    ensures t == Escape(c) + rest <==>
      if Kept(c) then t != [] && t[0] == c && t[1..] == rest
      else |t| >= 3 && t[0] == 37 && t[1] == HexDigit(c / 16) && t[2] == HexDigit(c % 16) && t[3..] == rest
  {
    hide HexDigit;
    if t != [] {
      assert t == [t[0]] + t[1..];
    }
    if |t| >= 3 {
      assert t == [t[0], t[1], t[2]] + t[3..];
    }
    if t == Escape(c) + rest {
      assert t[|Escape(c)|..] == rest;
    }
  }

  lemma {:induction false} EscapesIff(t: seq<byte>, s: seq<byte>)
    ensures Escapes(t, s) <==> t == Encoded(s)
    decreases |s|
  {
    hide Kept, HexDigit, Escape;
    if s != [] {
      KeptIff(s[0]);
      EscapesOne(t, s[0], Encoded(s[1..]));
      if Plain(s[0] as char) {
        if t != [] {
          EscapesIff(t[1..], s[1..]);
        }
      } else if |t| >= 3 {
        UpperDigit(s[0] / 16, t[1]);
        UpperDigit(s[0] % 16, t[2]);
        EscapesIff(t[3..], s[1..]);
      }
    }
  }
}
