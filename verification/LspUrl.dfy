/** url_encode, url_decode and the file URIs built on them, on byte strings. */
module LspUrl {
  type byte = x: int | 0 <= x < 256

  const PERCENT: byte := 37
  const PLUS: byte := 43
  const MINUS: byte := 45
  const SLASH: byte := 47
  const BACKSLASH: byte := 92
  const SPACE: byte := 32

  predicate IsDigit(c: byte) {
    48 <= c <= 57
  }

  /** Letters and digits of the C locale, and - _ . ~ / */
  predicate Kept(c: byte) {
    IsDigit(c) || 65 <= c <= 90 || 97 <= c <= 122 || c == MINUS || c == 95 || c == 46 || c == 126 || c == SLASH
  }

  function HexDigit(n: nat): byte
    requires n < 16
  {
    if n < 10 then 48 + n else 55 + n
  }

  function Triplet(c: byte): seq<byte> {
    [PERCENT, HexDigit(c / 16), HexDigit(c % 16)]
  }

  function Escape(c: byte): seq<byte> {
    if Kept(c) then [c] else Triplet(c)
  }

  function Encoded(value: seq<byte>): seq<byte> {
    if value == [] then [] else Escape(value[0]) + Encoded(value[1..])
  }

  lemma Assoc(a: seq<byte>, b: seq<byte>, c: seq<byte>)
    ensures a + (b + c) == (a + b) + c
  {
  }

  lemma EncodeStep(value: seq<byte>, i: nat, before: seq<byte>)
    requires i < |value|
    ensures before + Encoded(value[i..]) == (before + Escape(value[i])) + Encoded(value[i + 1..])
  {
    hide Escape;
    assert value[i..][1..] == value[i + 1..];
    Assoc(before, Escape(value[i]), Encoded(value[i + 1..]));
  }

  method UrlEncode(value: seq<byte>) returns (escaped: seq<byte>)
    ensures escaped == Encoded(value)
  {
    hide Kept, HexDigit, Encoded;
    escaped := [];
    for i := 0 to |value|
      invariant escaped + Encoded(value[i..]) == Encoded(value)
    {
      var c := value[i];
      EncodeStep(value, i, escaped);
      var piece := [c];
      if !Kept(c) {
        piece := [PERCENT, HexDigit(c / 16), HexDigit(c % 16)];
      }
      escaped := escaped + piece;
    }
    assert value[|value|..] == [];
    NothingToEncode(escaped);
  }

  lemma NothingToEncode(escaped: seq<byte>)
    ensures escaped + Encoded([]) == escaped
  {
  }

  // Decoding

  predicate IsSpace(c: byte) {
    c == SPACE || 9 <= c <= 13
  }

  function HexValue(c: byte): (v: int)
    ensures -1 <= v < 16
  {
    if IsDigit(c) then c - 48 else if 65 <= c <= 70 then c - 55 else if 97 <= c <= 102 then c - 87 else -1
  }

  /** What a hexadecimal stream extraction makes of two characters, cut to a byte: it skips leading space,
      takes a sign, stops at the first other character, and gives 0 when there is no digit. */
  function Extract(a: byte, b: byte): byte {
    var high, low := HexValue(a), HexValue(b);
    if IsSpace(a) || a == PLUS then (if low < 0 then 0 else low)
    else if a == MINUS then (if low <= 0 then 0 else 256 - low)
    else if high < 0 then 0
    else if low < 0 then high
    else 16 * high + low
  }

  function Decoded(input: seq<byte>): seq<byte> {
    if input == [] then []
    else if input[0] == PERCENT then
      if |input| > 2 then [Extract(input[1], input[2])] + Decoded(input[3..]) else Decoded(input[1..])
    else [if input[0] == PLUS then SPACE else input[0]] + Decoded(input[1..])
  }

  method UrlDecode(input: seq<byte>) returns (decoded: seq<byte>)
    ensures decoded == Decoded(input)
  {
    decoded := [];
    var i := 0;
    while i < |input|
      invariant 0 <= i <= |input| && decoded + Decoded(input[i..]) == Decoded(input)
    {
      ghost var rest, before := input[i..], decoded;
      var piece: seq<byte> := [];
      if input[i] == PERCENT {
        if i + 2 < |input| {
          piece := [Extract(input[i + 1], input[i + 2])];
          i := i + 2;
        }
      } else if input[i] == PLUS {
        piece := [SPACE];
      } else {
        piece := [input[i]];
      }
      i := i + 1;
      decoded := decoded + piece;
      DecodeStep(rest, before, piece, input[i..]);
    }
  }

  lemma DecodeStep(rest: seq<byte>, before: seq<byte>, piece: seq<byte>, tail: seq<byte>)
    requires rest != []
    requires rest[0] == PERCENT && |rest| > 2 ==> piece == [Extract(rest[1], rest[2])] && tail == rest[3..]
    requires rest[0] == PERCENT && |rest| <= 2 ==> piece == [] && tail == rest[1..]
    requires rest[0] != PERCENT ==> piece == [if rest[0] == PLUS then SPACE else rest[0]] && tail == rest[1..]
    ensures before + Decoded(rest) == (before + piece) + Decoded(tail)
  {
    hide Extract;
    assert Decoded(rest) == piece + Decoded(tail);
    hide Decoded;
    Assoc(before, piece, Decoded(tail));
  }

  // Round trips

  lemma HexBack(c: byte)
    ensures Extract(HexDigit(c / 16), HexDigit(c % 16)) == c
  {
  }

  lemma EscapeBack(c: byte, rest: seq<byte>)
    ensures Decoded(Escape(c) + rest) == [c] + Decoded(rest)
  {
    hide Extract, HexDigit;
    HexBack(c);
    var t := Escape(c) + rest;
    if Kept(c) {
      assert t[1..] == rest;
    } else {
      assert t[3..] == rest;
    }
  }

  /** Decoding undoes encoding, for every byte string. */
  lemma {:induction false} DecodeOfEncode(s: seq<byte>)
    ensures Decoded(Encoded(s)) == s
  {
    if s != [] {
      DecodeOfEncode(s[1..]);
      EscapeBack(s[0], Encoded(s[1..]));
    }
  }

  /** Kept characters, and triplets of upper-case digits for bytes that are not kept: the normal form of
      section 2.1 of RFC 3986. */
  predicate Canonical(t: seq<byte>) {
    t == [] || (Kept(t[0]) && Canonical(t[1..])) ||
    (|t| > 2 && !Kept(Extract(t[1], t[2])) && t[..3] == Triplet(Extract(t[1], t[2])) && Canonical(t[3..]))
  }

  lemma {:induction false} EncodedIsCanonical(s: seq<byte>)
    ensures Canonical(Encoded(s))
  {
    hide Extract, HexDigit;
    if s != [] {
      EncodedIsCanonical(s[1..]);
      HexBack(s[0]);
      var t, rest := Encoded(s), Encoded(s[1..]);
      if Kept(s[0]) {
        assert t[1..] == rest;
      } else {
        assert t[3..] == rest && t[..3] == Triplet(s[0]);
      }
    }
  }

  lemma DecodedKept(c: byte, rest: seq<byte>)
    requires c != PERCENT && c != PLUS
    ensures Decoded([c] + rest) == [c] + Decoded(rest)
  {
    assert ([c] + rest)[1..] == rest;
  }

  lemma EncodedOne(c: byte, rest: seq<byte>)
    ensures Encoded([c] + rest) == Escape(c) + Encoded(rest)
  {
    hide Escape;
    assert ([c] + rest)[1..] == rest;
  }

  lemma {:induction false} EncodeOfDecode(t: seq<byte>)
    requires Canonical(t)
    ensures Encoded(Decoded(t)) == t
  {
    hide Extract, HexDigit, Kept, Decoded, Encoded;
    if t == [] {
      NoBytes();
    } else if Kept(t[0]) && Canonical(t[1..]) {
      EncodeOfDecode(t[1..]);
      KeptIsPlain(t[0]);
      DecodedKept(t[0], t[1..]);
      EncodedOne(t[0], Decoded(t[1..]));
      assert t == [t[0]] + t[1..];
    } else {
      var c := Extract(t[1], t[2]);
      EncodeOfDecode(t[3..]);
      EscapeBack(c, t[3..]);
      EncodedOne(c, Decoded(t[3..]));
      assert t == t[..3] + t[3..];
    }
  }

  lemma NoBytes()
    ensures Decoded([]) == [] && Encoded([]) == []
  {
  }

  lemma KeptIsPlain(c: byte)
    requires Kept(c)
    ensures c != PERCENT && c != PLUS
  {
  }

  /** The encoder is a bijection from byte strings onto the canonical strings. */
  lemma {:induction false} CanonicalIff(t: seq<byte>)
    ensures Encoded(Decoded(t)) == t <==> Canonical(t)
  {
    if Canonical(t) {
      EncodeOfDecode(t);
    }
    EncodedIsCanonical(Decoded(t));
  }

  // File URIs

  const FILE: seq<byte> := [102, 105, 108, 101, 58, 47, 47, 47]

  function ForwardSlashes(path: seq<byte>): (r: seq<byte>)
    ensures |r| == |path|
    ensures r == path <==> BACKSLASH !in path
  {
    if path == [] then []
    else
      var rest := ForwardSlashes(path[1..]);
      var r := [if path[0] == BACKSLASH then SLASH else path[0]] + rest;
      assert r == path <==> r[0] == path[0] && rest == path[1..] by { assert path == [path[0]] + path[1..]; }
      r
  }

  lemma {:induction false} SlashAt(path: seq<byte>, k: nat)
    requires k < |path|
    ensures ForwardSlashes(path)[k] == if path[k] == 92 then 47 else path[k]
  {
    if k > 0 {
      SlashAt(path[1..], k - 1);
    }
  }

  function UriOf(path: seq<byte>, windows: bool): seq<byte> {
    FILE + Encoded(if windows then ForwardSlashes(path) else path)
  }

  function PathOf(uri: seq<byte>, windows: bool): seq<byte> {
    var decoded := Decoded(uri);
    if FILE <= decoded then decoded[if windows then 8 else 7..] else decoded
  }

  method UriFromPath(path: seq<byte>, windows: bool) returns (uri: seq<byte>)
    ensures uri == UriOf(path, windows)
  {
    uri := path;
    if windows {
      uri := ForwardSlashes(path);
    }
    uri := UrlEncode(uri);
    uri := FILE + uri;
  }

  method UriToPath(uri: seq<byte>, windows: bool) returns (path: seq<byte>)
    ensures path == PathOf(uri, windows)
  {
    path := UrlDecode(uri);
    if FILE <= path {
      if windows {
        path := path[8..];
      } else {
        path := path[7..];
      }
    }
  }

  lemma {:induction false} DecodedPlain(plain: seq<byte>, rest: seq<byte>)
    requires PERCENT !in plain && PLUS !in plain
    ensures Decoded(plain + rest) == plain + Decoded(rest)
  {
    hide Decoded;
    if plain == [] {
      assert plain + rest == rest;
      assert plain + Decoded(rest) == Decoded(rest);
    } else {
      var c, more := plain[0], plain[1..];
      assert plain == [c] + more;
      DecodedPlain(more, rest);
      Assoc([c], more, rest);
      DecodedKept(c, more + rest);
      Assoc([c], more, Decoded(rest));
    }
  }

  /** The path that comes back: the same one with forward slashes on Windows, and one slash too many
      everywhere else. */
  lemma PathRoundTrip(path: seq<byte>, windows: bool)
    ensures PathOf(UriOf(path, windows), windows) == if windows then ForwardSlashes(path) else [SLASH] + path
    ensures PathOf(UriOf(path, windows), windows) == path <==> windows && BACKSLASH !in path
  {
    var sent := if windows then ForwardSlashes(path) else path;
    DecodedPlain(FILE, Encoded(sent));
    DecodeOfEncode(sent);
    assert (FILE + sent)[8..] == sent && (FILE + sent)[7..] == [SLASH] + sent;
  }
}
