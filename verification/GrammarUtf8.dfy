/** Every code point but zero, written in UTF-8 (RFC 3629) or as an escape, is read back. */
module GrammarUtf8 {
  import opened Codepoints
  import opened GrammarText

  /** The bytes stand in the text from `p` on. */
  ghost predicate BytesAt(src: string, p: nat, bytes: seq<nat>)
  {
    p + |bytes| <= |src| && forall k {:trigger bytes[k]} :: 0 <= k < |bytes| ==> src[p + k] as int == bytes[k]
  }

  /** Length and payload of any first byte, well formed or not, by the bits that the source takes. */
  lemma FirstByteBits(b: bv8)
    ensures Utf8Length(b as nat) == [1, 1, 1, 1, 1, 1, 1, 1, 1, 1, 1, 1, 2, 2, 3, 4][(b >> 4) as nat]
    ensures var n := Utf8Length(b as nat);
      Utf8Mask(b as nat, n) == (b & if n == 1 then 0x7F else if n == 2 then 0x3F else if n == 3 then 0x1F else 0x0F) as nat
    ensures b as nat % 64 == (b & 0x3F) as nat
  {}

  lemma FirstByte(a: nat)
    requires a < 256
    ensures 0 < a < 0x80 ==> Utf8Length(a) == 1 && Utf8Mask(a, 1) == a
    ensures 0xC0 <= a < 0xE0 ==> Utf8Length(a) == 2 && Utf8Mask(a, 2) == a - 0xC0
    ensures 0xE0 <= a < 0xF0 ==> Utf8Length(a) == 3 && Utf8Mask(a, 3) == a - 0xE0
    ensures 0xF0 <= a ==> Utf8Length(a) == 4 && Utf8Mask(a, 4) == a - 0xF0
  {}

  lemma LaterByte(src: string, p: nat, n: nat, value: nat, b: nat)
    requires n > 0 && p < |src| && b < 64 && src[p] as int == 0x80 + b
    ensures Utf8Rest(src, p, n, value) == Utf8Rest(src, p + 1, n - 1, 64 * value + b)
  {
    ByteOf(src[p], 0x80 + b);
    SixBits(b);
    ZeroByte(src[p]);
    hide Byte;
  }

  lemma ByteOf(c: char, b: nat)
    requires c as int == b < 256
    ensures Byte(c) == b
  {}

  lemma SixBits(b: nat)
    requires b < 64
    ensures (0x80 + b) % 64 == b
  {}

  lemma ZeroByte(c: char)
    ensures c == '\0' <==> c as int == 0
  {}

  lemma NoMore(src: string, p: nat, value: nat)
    ensures Utf8Rest(src, p, 0, value) == Read(value, p)
  {}

  lemma Starts(src: string, p: nat, a: nat)
    requires p < |src| && src[p] as int == a < 256
    ensures Utf8(src, p) == Utf8Rest(src, p + 1, Utf8Length(a) - 1, Utf8Mask(a, Utf8Length(a)))
  {
    ByteOf(src[p], a);
    hide Byte;
  }

  lemma TwoBytes(src: string, p: nat, a: nat, b: nat)
    requires a < 32 && b < 64 && p + 2 <= |src| && src[p] as int == 0xC0 + a && src[p + 1] as int == 0x80 + b
    ensures Utf8(src, p) == Read(64 * a + b, p + 2)
  {
    FirstByte(0xC0 + a);
    Starts(src, p, 0xC0 + a);
    hide *;
    LaterByte(src, p + 1, 1, a, b);
    NoMore(src, p + 2, 64 * a + b);
  }

  lemma ThreeBytes(src: string, p: nat, a: nat, b: nat, c: nat)
    requires a < 16 && b < 64 && c < 64 && p + 3 <= |src|
    requires src[p] as int == 0xE0 + a && src[p + 1] as int == 0x80 + b && src[p + 2] as int == 0x80 + c
    ensures Utf8(src, p) == Read(64 * (64 * a + b) + c, p + 3)
  {
    FirstByte(0xE0 + a);
    Starts(src, p, 0xE0 + a);
    hide *;
    LaterByte(src, p + 1, 2, a, b);
    LaterByte(src, p + 2, 1, 64 * a + b, c);
    NoMore(src, p + 3, 64 * (64 * a + b) + c);
  }

  lemma FourBytes(src: string, p: nat, a: nat, b: nat, c: nat, d: nat)
    requires a < 8 && b < 64 && c < 64 && d < 64 && p + 4 <= |src| && src[p] as int == 0xF0 + a
    requires src[p + 1] as int == 0x80 + b && src[p + 2] as int == 0x80 + c && src[p + 3] as int == 0x80 + d
    ensures Utf8(src, p) == Read(64 * (64 * (64 * a + b) + c) + d, p + 4)
  {
    FirstByte(0xF0 + a);
    Starts(src, p, 0xF0 + a);
    hide *;
    LaterByte(src, p + 1, 3, a, b);
    LaterByte(src, p + 2, 2, 64 * a + b, c);
    LaterByte(src, p + 3, 1, 64 * (64 * a + b) + c, d);
    NoMore(src, p + 4, 64 * (64 * (64 * a + b) + c) + d);
  }

  lemma DecodeEncoded(src: string, p: nat, cp: nat)
    requires 0 < cp < 0x11_0000 && BytesAt(src, p, EncodeUtf8(cp))
    ensures Utf8(src, p) == Read(cp, p + |EncodeUtf8(cp)|)
  {
    var bytes := EncodeUtf8(cp);
    assert src[p] as int == bytes[0];
    assert |bytes| > 1 ==> src[p + 1] as int == bytes[1];
    assert |bytes| > 2 ==> src[p + 2] as int == bytes[2];
    assert |bytes| > 3 ==> src[p + 3] as int == bytes[3];
    hide Utf8;
    if cp < 0x80 {
      FirstByte(cp);
      Starts(src, p, cp);
      NoMore(src, p + 1, cp);
    } else if cp < 0x800 {
      TwoBytes(src, p, cp / 64, cp % 64);
    } else if cp < 0x1_0000 {
      ThreeBytes(src, p, cp / 64 / 64, cp / 64 % 64, cp % 64);
    } else {
      FourBytes(src, p, cp / 64 / 64 / 64, cp / 64 / 64 % 64, cp / 64 % 64, cp % 64);
    }
  }

  /** A character that stands for itself: any code point but zero and the backslash. */
  lemma EncodedReadsBack(src: string, p: nat, cp: nat)
    requires 0 < cp < 0x11_0000 && cp != 92 && BytesAt(src, p, EncodeUtf8(cp))
    ensures ReadChar(src, p) == Read(cp, p + |EncodeUtf8(cp)|)
  {
    DecodeEncoded(src, p, cp);
    assert src[p] as int == EncodeUtf8(cp)[0] != 92;
    ZeroByte(src[p]);
    hide Utf8;
  }

  // ----- escapes -----

  function Pow16(n: nat): (r: nat)
    ensures r > 0
  {
    if n == 0 then 1 else 16 * Pow16(n - 1)
  }

  /** The character stands for the digit, in either case. */
  predicate IsHexDigit(c: char, d: nat)
  {
    d < 16 && (c == "0123456789abcdef"[d] || c == "0123456789ABCDEF"[d])
  }

  /** The characters are the lowest hexadecimal digits of the number, most significant first, each in either case. */
  predicate IsHex(s: string, value: nat)
  {
    s == [] || (IsHexDigit(s[|s| - 1], value % 16) && IsHex(s[..|s| - 1], value / 16))
  }

  lemma HexDigitBack(c: char, d: nat)
    requires IsHexDigit(c, d)
    ensures HexDigit(c) == d
  {}

  lemma {:induction false} HexMore(src: string, p: nat, n: nat, value: nat, x: nat, d: nat)
    requires Hex(src, p, n, value) == Read(x, p + n) && IsHexDigit(At(src, p + n), d)
    ensures Hex(src, p, n + 1, value) == Read(16 * x + d, p + n + 1)
    decreases n
  {
    HexDigitBack(At(src, p + n), d);
    hide IsHexDigit, HexDigit;
    if n == 0 {
      assert Hex(src, p + 1, 0, 16 * x + d) == Read(16 * x + d, p + 1);
    } else {
      HexMore(src, p + 1, n - 1, 16 * value + HexDigit(At(src, p)), x, d);
    }
  }

  lemma {:induction false} HexReadsBack(src: string, p: nat, n: nat, value: nat)
    requires value < Pow16(n) && p + n <= |src| && IsHex(src[p..p + n], value)
    ensures Hex(src, p, n, 0) == Read(value, p + n)
  {
    if n > 0 {
      hide Hex, IsHexDigit;
      var s := src[p..p + n];
      assert s[..n - 1] == src[p..p + n - 1] && s[n - 1] == src[p + n - 1];
      HexReadsBack(src, p, n - 1, value / 16);
      HexMore(src, p, n - 1, 0, value / 16, value % 16);
    }
  }

  /** The characters that are written behind a backslash, and what they stand for. */
  predicate IsNamed(c: char, cp: nat)
  {
    || (c == 't' && cp == '\t' as nat) || (c == 'r' && cp == '\r' as nat) || (c == 'n' && cp == '\n' as nat)
    || (c in "\\\"[]" && cp == c as nat)
  }

  /** The text is one way to write the code point: as it is, behind a backslash, or in hexadecimal digits. */
  ghost predicate Writes(text: string, cp: nat)
  {
    || (0 < cp < 0x11_0000 && cp != '\\' as nat && text == Utf8Text(cp))
    || (|text| == 2 && text[0] == '\\' && IsNamed(text[1], cp))
    || (|text| == 4 && text[..2] == "\\x" && cp < Pow16(2) && IsHex(text[2..], cp))
    || (|text| == 6 && text[..2] == "\\u" && cp < Pow16(4) && IsHex(text[2..], cp))
    || (|text| == 10 && text[..2] == "\\U" && cp < Pow16(8) && IsHex(text[2..], cp))
  }

  lemma NamedReadsBack(src: string, p: nat, cp: nat)
    requires p + 2 <= |src| && src[p] == '\\' && IsNamed(src[p + 1], cp)
    ensures ReadChar(src, p) == Read(cp, p + 2)
  {}

  lemma EscapeReadsBack(src: string, p: nat, n: nat, cp: nat)
    requires p + 2 + n <= |src| && src[p] == '\\' && IsHex(src[p + 2..p + 2 + n], cp) && cp < Pow16(n)
    requires (src[p + 1] == 'x' && n == 2) || (src[p + 1] == 'u' && n == 4) || (src[p + 1] == 'U' && n == 8)
    ensures ReadChar(src, p) == Read(cp, p + 2 + n)
  {
    HexReadsBack(src, p + 2, n, cp);
    hide Hex, IsHex, Pow16;
  }

  /** Every way to write a code point is read back. */
  lemma WrittenReadsBack(src: string, p: nat, text: string, cp: nat)
    requires Writes(text, cp) && p + |text| <= |src| && src[p..p + |text|] == text
    ensures ReadChar(src, p) == Read(cp, p + |text|) && text != []
  {
    assert forall k {:trigger text[k]} :: 0 <= k < |text| ==> src[p + k] == text[k];
    hide ReadChar, IsHex, Pow16, EncodeUtf8;
    if 0 < cp < 0x11_0000 && cp != '\\' as nat && text == Utf8Text(cp) {
      BytesOfText(src, p, cp);
      EncodedReadsBack(src, p, cp);
    } else if |text| == 2 {
      NamedReadsBack(src, p, cp);
    } else {
      assert text[0] == text[..2][0] && text[1] == text[..2][1];
      assert src[p + 2..p + |text|] == text[2..];
      EscapeReadsBack(src, p, |text| - 2, cp);
    }
  }

  lemma BytesOfText(src: string, p: nat, cp: nat)
    requires cp < 0x11_0000 && p + |Utf8Text(cp)| <= |src| && src[p..p + |Utf8Text(cp)|] == Utf8Text(cp)
    ensures BytesAt(src, p, EncodeUtf8(cp))
  {
    var text, bytes := Utf8Text(cp), EncodeUtf8(cp);
    forall k {:trigger bytes[k]} | 0 <= k < |bytes| ensures src[p + k] as int == bytes[k] {
      assert src[p + k] == text[k];
    }
  }

  // ----- and nothing else is an escape -----

  lemma DigitIsHex(c: char)
    requires HexDigit(c) >= 0
    ensures IsHexDigit(c, HexDigit(c))
  {}

  lemma {:induction false} HexLast(src: string, p: nat, n: nat, value: nat)
    requires Hex(src, p, n + 1, value).Read?
    ensures Hex(src, p, n, value).Read? && HexDigit(At(src, p + n)) >= 0
    ensures Hex(src, p, n + 1, value).value == 16 * Hex(src, p, n, value).value + HexDigit(At(src, p + n))
    decreases n
  {
    hide HexDigit;
    if n > 0 {
      HexLast(src, p + 1, n - 1, 16 * value + HexDigit(At(src, p)));
    }
  }

  lemma {:induction false} HexIsWritten(src: string, p: nat, n: nat)
    requires Hex(src, p, n, 0).Read? && p + n <= |src|
    ensures var x := Hex(src, p, n, 0).value; x < Pow16(n) && IsHex(src[p..p + n], x)
  {
    if n > 0 {
      HexLast(src, p, n - 1, 0);
      hide Hex;
      HexIsWritten(src, p, n - 1);
      DigitIsHex(src[p + n - 1]);
      var x, d := Hex(src, p, n - 1, 0).value, HexDigit(src[p + n - 1]);
      assert src[p..p + n][..n - 1] == src[p..p + n - 1];
      assert d < 16 && (16 * x + d) % 16 == d && (16 * x + d) / 16 == x;
    }
  }

  lemma EscapeIsWritten(src: string, p: nat)
    requires At(src, p) == '\\' && ReadChar(src, p).Read?
    ensures var r := ReadChar(src, p); p < r.next <= |src| && Writes(src[p..r.next], r.value)
  {
    var c := At(src, p + 1);
    var n := if c == 'x' then 2 else if c == 'u' then 4 else 8;
    if c == 'x' || c == 'u' || c == 'U' {
      HexIsWritten(src, p + 2, n);
      assert src[p..p + 2 + n][2..] == src[p + 2..p + 2 + n];
      assert src[p..p + 2 + n][..2] == ['\\', c];
      hide Hex, IsHex, Pow16;
    } else {
      hide Hex, IsHex, Pow16;
      assert IsNamed(c, ReadChar(src, p).value);
    }
  }
}
