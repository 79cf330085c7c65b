/** The shape of UTF-8 (RFC 3629): characters stand for bytes. */
module Codepoints {

  /** Whole code points: a first byte and as many continuation bytes as it announces. */
  predicate WholeCodepoints(s: string)
    decreases |s|
  {
    s == [] ||
    (var n := LeadLength(s[0]);
     0 < n <= |s| && (forall k {:trigger s[k]} :: 1 <= k < n ==> IsContinuation(s[k])) && WholeCodepoints(s[n..]))
  }

  predicate IsContinuation(c: char)
  {
    0x80 <= c as int < 0xC0
  }

  function LeadLength(c: char): (n: nat)
    ensures n <= 4
  {
    if c as int < 0x80 then 1 else if 0xC0 <= c as int < 0xE0 then 2
    else if 0xE0 <= c as int < 0xF0 then 3 else if 0xF0 <= c as int < 0xF8 then 4 else 0
  }

  lemma {:induction false} WholeConcat(a: string, b: string)
    requires WholeCodepoints(a)
    ensures WholeCodepoints(a + b) <==> WholeCodepoints(b)
    decreases |a|
  {
    if a == [] {
      assert a + b == b;
    } else {
      var n := LeadLength(a[0]);
      assert (a + b)[n..] == a[n..] + b;
      forall k {:trigger (a + b)[k]} | 1 <= k < n ensures IsContinuation((a + b)[k]) {
        assert (a + b)[k] == a[k];
      }
      WholeConcat(a[n..], b);
    }
  }

  /** The ranges of first bytes, as the masks that the source tests. */
  lemma LeadMasks(b: bv8)
    ensures LeadLength(b as char) ==
      if b & 0x80 == 0 then 1 else if b & 0xE0 == 0xC0 then 2 else if b & 0xF0 == 0xE0 then 3 else if b & 0xF8 == 0xF0 then 4 else 0
    ensures IsContinuation(b as char) <==> b & 0xC0 == 0x80
  {}

  // ----- valid text -----

  predicate In(c: char, lo: int, hi: int)
  {
    lo <= c as int <= hi
  }

  /** The bytes of one code point, neither overlong nor a surrogate nor too large (RFC 3629, section 4). */
  predicate ValidCodepoint(c: string)
  {
    match |c|
    case 1 => In(c[0], 0, 0x7F)
    case 2 => In(c[0], 0xC2, 0xDF) && In(c[1], 0x80, 0xBF)
    case 3 => In(c[0], 0xE0, 0xEF) && In(c[1], 0x80, 0xBF) && In(c[2], 0x80, 0xBF)
      && (In(c[0], 0xE0, 0xE0) ==> In(c[1], 0xA0, 0xBF)) && (In(c[0], 0xED, 0xED) ==> In(c[1], 0x80, 0x9F))
    case 4 => In(c[0], 0xF0, 0xF4) && In(c[1], 0x80, 0xBF) && In(c[2], 0x80, 0xBF) && In(c[3], 0x80, 0xBF)
      && (In(c[0], 0xF0, 0xF0) ==> In(c[1], 0x90, 0xBF)) && (In(c[0], 0xF4, 0xF4) ==> In(c[1], 0x80, 0x8F))
    case _ => false
  }

  function Together(parts: seq<string>): string
  {
    if parts == [] then [] else parts[0] + Together(parts[1..])
  }

  ghost predicate AllValid(parts: seq<string>)
  {
    forall i {:trigger parts[i]} :: 0 <= i < |parts| ==> ValidCodepoint(parts[i])
  }

  /** Valid text is the concatenation of valid code points. */
  ghost predicate ValidUtf8(s: string)
  {
    exists parts {:trigger Together(parts)} :: AllValid(parts) && Together(parts) == s
  }

  /** The bytes of a code point (RFC 3629, section 3). */
  function EncodeUtf8(cp: nat): seq<nat>
    requires cp < 0x11_0000
  {
    if cp < 0x80 then [cp]
    else if cp < 0x800 then [0xC0 + cp / 64, 0x80 + cp % 64]
    else if cp < 0x1_0000 then [0xE0 + cp / 64 / 64, 0x80 + cp / 64 % 64, 0x80 + cp % 64]
    else [0xF0 + cp / 64 / 64 / 64, 0x80 + cp / 64 / 64 % 64, 0x80 + cp / 64 % 64, 0x80 + cp % 64]
  }

  function Utf8Text(cp: nat): (s: string)
    requires cp < 0x11_0000
    ensures |s| == |EncodeUtf8(cp)|
  {
    seq(|EncodeUtf8(cp)|, i requires 0 <= i < |EncodeUtf8(cp)| => EncodeUtf8(cp)[i] as char)
  }

  /** The UTF-8 of every code point that is no surrogate is valid. */
  lemma EncodedIsValid(cp: nat)
    requires cp < 0x11_0000 && !(0xD800 <= cp < 0xE000)
    ensures ValidCodepoint(Utf8Text(cp)) && ValidUtf8(Utf8Text(cp))
  {
    OneIsValid(Utf8Text(cp));
  }

  lemma OneIsValid(c: string)
    requires ValidCodepoint(c)
    ensures ValidUtf8(c)
  {
    assert Together([c]) == c && AllValid([c]);
  }

  /** The first byte tells the length, and the others are continuations. */
  lemma ValidShape(c: string)
    requires ValidCodepoint(c)
    ensures c != [] && LeadLength(c[0]) == |c| && forall k {:trigger c[k]} :: 1 <= k < |c| ==> IsContinuation(c[k])
  {}

  lemma CodepointIsWhole(c: string)
    requires ValidCodepoint(c)
    ensures WholeCodepoints(c)
  {
    ValidShape(c);
    assert c[|c|..] == [];
  }

  lemma {:induction false} TogetherIsWhole(parts: seq<string>)
    requires AllValid(parts)
    ensures WholeCodepoints(Together(parts))
  {
    if parts != [] {
      CodepointIsWhole(parts[0]);
      assert forall i {:trigger parts[1..][i]} :: 0 <= i < |parts[1..]| ==> parts[1..][i] == parts[i + 1];
      TogetherIsWhole(parts[1..]);
      hide WholeCodepoints, ValidCodepoint;
      WholeConcat(parts[0], Together(parts[1..]));
    }
  }

  lemma ValidIsWhole(s: string)
    requires ValidUtf8(s)
    ensures WholeCodepoints(s)
  {
    var parts :| AllValid(parts) && Together(parts) == s;
    TogetherIsWhole(parts);
  }

  /** A cut where a code point ends is a cut between parts. */
  lemma {:induction false} CutParts(parts: seq<string>, a: string, b: string)
    requires AllValid(parts) && Together(parts) == a + b && WholeCodepoints(a)
    ensures ValidUtf8(a) && ValidUtf8(b)
    decreases |a|
  {
    if a == [] {
      assert Together([]) == [] && AllValid([]);
      assert a + b == b;
    } else {
      var c, rest := parts[0], Together(parts[1..]);
      ValidShape(c);
      assert (a + b)[0] == a[0] == c[0];
      assert (a + b)[..|c|] == c == a[..|c|];
      assert (a + b)[|c|..] == rest == a[|c|..] + b;
      assert forall i {:trigger parts[1..][i]} :: 0 <= i < |parts[1..]| ==> parts[1..][i] == parts[i + 1];
      hide ValidCodepoint;
      CutParts(parts[1..], a[|c|..], b);
      PutFront(c, a[|c|..]);
      assert c + a[|c|..] == a;
    }
  }

  lemma PutFront(c: string, s: string)
    requires ValidCodepoint(c) && ValidUtf8(s)
    ensures ValidUtf8(c + s)
  {
    hide ValidCodepoint;
    var parts :| AllValid(parts) && Together(parts) == s;
    assert Together([c] + parts) == c + s by { assert ([c] + parts)[1..] == parts; }
    assert AllValid([c] + parts);
  }

  /** Valid text cut where a code point ends is valid on both sides. */
  lemma ValidParts(a: string, b: string)
    requires ValidUtf8(a + b) && WholeCodepoints(a)
    ensures ValidUtf8(a) && ValidUtf8(b)
  {
    var parts :| AllValid(parts) && Together(parts) == a + b;
    CutParts(parts, a, b);
  }

  /** And nothing else is: every valid code point is the UTF-8 of one that is no surrogate. */
  lemma ValidIsEncoded(c: string) returns (cp: nat)
    requires ValidCodepoint(c)
    ensures cp < 0x11_0000 && !(0xD800 <= cp < 0xE000) && c == Utf8Text(cp)
  {
    hide Utf8Text;
    match |c|
    case 1 =>
      cp := c[0] as int;
      SameBytes(c, cp);
    case 2 => cp := TwoIsEncoded(c);
    case 3 => cp := ThreeIsEncoded(c);
    case 4 => cp := FourIsEncoded(c);
  }

  lemma SameBytes(c: string, cp: nat)
    requires cp < 0x11_0000 && |c| == |EncodeUtf8(cp)|
    requires forall k {:trigger c[k]} :: 0 <= k < |c| ==> c[k] as int == EncodeUtf8(cp)[k]
    ensures c == Utf8Text(cp)
  {
    hide EncodeUtf8;
  }

  lemma TwoIsEncoded(c: string) returns (cp: nat)
    requires |c| == 2 && ValidCodepoint(c)
    ensures cp < 0x800 && c == Utf8Text(cp)
  {
    var a, b := c[0] as int - 0xC0, c[1] as int - 0x80;
    cp := 64 * a + b;
    SixMore(a, b);
    SameBytes(c, cp);
  }

  lemma ThreeIsEncoded(c: string) returns (cp: nat)
    requires |c| == 3 && ValidCodepoint(c)
    ensures cp < 0x1_0000 && !(0xD800 <= cp < 0xE000) && c == Utf8Text(cp)
  {
    var a, b, d := c[0] as int - 0xE0, c[1] as int - 0x80, c[2] as int - 0x80;
    cp := 64 * (64 * a + b) + d;
    SixMore(a, b);
    SixMore(64 * a + b, d);
    SameBytes(c, cp);
  }

  lemma FourIsEncoded(c: string) returns (cp: nat)
    requires |c| == 4 && ValidCodepoint(c)
    ensures 0x1_0000 <= cp < 0x11_0000 && c == Utf8Text(cp)
  {
    var a, b, d, e := c[0] as int - 0xF0, c[1] as int - 0x80, c[2] as int - 0x80, c[3] as int - 0x80;
    cp := 64 * (64 * (64 * a + b) + d) + e;
    SixMore(a, b);
    SixMore(64 * a + b, d);
    SixMore(64 * (64 * a + b) + d, e);
    SameBytes(c, cp);
  }

  lemma SixMore(a: int, b: int)
    requires 0 <= b < 64
    ensures (64 * a + b) / 64 == a && (64 * a + b) % 64 == b
  {}
}
