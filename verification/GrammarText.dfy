/** Reading grammar text: blanks and comments, names, and characters with their escapes. */
module GrammarText {

  /** The byte at `p`, or the terminating zero. */
  function At(src: string, p: nat): char
  {
    if p < |src| then src[p] else '\0'
  }

  predicate IsWordChar(c: char)
  {
    'a' <= c <= 'z' || 'A' <= c <= 'Z' || c == '-' || '0' <= c <= '9'
  }

  // ----- blanks -----

  function CommentEnd(src: string, p: nat): (q: nat)
    ensures q >= p && (p <= |src| ==> q <= |src|)
    decreases |src| - p
  {
    if At(src, p) == '\0' || At(src, p) == '\r' || At(src, p) == '\n' then p else CommentEnd(src, p + 1)
  }

  predicate IsBlank(c: char, newlineOk: bool)
  {
    c == ' ' || c == '\t' || (newlineOk && (c == '\r' || c == '\n'))
  }

  /** Where the blanks and comments from `p` on end. */
  function Space(src: string, p: nat, newlineOk: bool): (q: nat)
    ensures q >= p && (p <= |src| ==> q <= |src|)
    ensures !IsBlank(At(src, q), newlineOk) && At(src, q) != '#'
    decreases |src| - p
  {
    if At(src, p) == '#' then Space(src, CommentEnd(src, p + 1), newlineOk)
    else if IsBlank(At(src, p), newlineOk) then Space(src, p + 1, newlineOk)
    else p
  }

  method ParseSpace(src: string, start: nat, newlineOk: bool) returns (pos: nat)
    ensures pos == Space(src, start, newlineOk)
  {
    pos := start;
    while IsBlank(At(src, pos), newlineOk) || At(src, pos) == '#'
      invariant Space(src, pos, newlineOk) == Space(src, start, newlineOk)
      decreases |src| - pos
    {
      if At(src, pos) == '#' {
        ghost var hash := pos;
        pos := pos + 1;
        while At(src, pos) != '\0' && At(src, pos) != '\r' && At(src, pos) != '\n'
          invariant hash < pos && CommentEnd(src, pos) == CommentEnd(src, hash + 1)
          decreases |src| - pos
        {
          pos := pos + 1;
        }
      } else {
        pos := pos + 1;
      }
    }
  }

  // ----- names -----

  function NameEnd(src: string, p: nat): (q: nat)
    ensures q >= p && (p <= |src| ==> q <= |src|) && !IsWordChar(At(src, q))
    ensures forall k {:trigger At(src, k)} :: p <= k < q ==> IsWordChar(At(src, k))
    decreases |src| - p
  {
    if IsWordChar(At(src, p)) then NameEnd(src, p + 1) else p
  }

  method ParseName(src: string, start: nat) returns (ok: bool, pos: nat)
    requires start <= |src|
    ensures pos == NameEnd(src, start) && (ok <==> pos > start)
  {
    pos := start;
    while IsWordChar(At(src, pos))
      invariant start <= pos <= |src| && NameEnd(src, pos) == NameEnd(src, start)
      decreases |src| - pos
    {
      pos := pos + 1;
    }
    ok := pos != start;
  }

  // ----- characters -----

  datatype CharRead = Read(value: nat, next: nat) | Unreadable

  function HexDigit(c: char): int
  {
    if 'a' <= c <= 'f' then c as int - 'a' as int + 10
    else if 'A' <= c <= 'F' then c as int - 'A' as int + 10
    else if '0' <= c <= '9' then c as int - '0' as int
    else -1
  }

  /** `n` more hexadecimal digits after the value so far. */
  function Hex(src: string, p: nat, n: nat, value: nat): (r: CharRead)
    ensures r.Read? ==> r.next == p + n && (p <= |src| ==> r.next <= |src|)
    decreases n
  {
    if n == 0 then Read(value, p)
    else if HexDigit(At(src, p)) < 0 then Unreadable
    else Hex(src, p + 1, n - 1, 16 * value + HexDigit(At(src, p)))
  }

  method ParseHex(src: string, start: nat, size: nat) returns (r: CharRead)
    ensures r == Hex(src, start, size, 0)
  {
    var pos, value: nat := start, 0;
    while pos < start + size && At(src, pos) != '\0'
      invariant start <= pos <= start + size
      invariant Hex(src, pos, start + size - pos, value) == Hex(src, start, size, 0)
      decreases start + size - pos
    {
      var c := At(src, pos);
      if HexDigit(c) < 0 {
        break;
      }
      value := 16 * value + HexDigit(c);
      pos := pos + 1;
    }
    if pos != start + size {
      return Unreadable;
    }
    r := Read(value, pos);
  }

  function Byte(c: char): nat
  {
    c as int % 256
  }

  /** How many bytes a first byte announces. */
  function Utf8Length(first: nat): (n: nat)
    requires first < 256
    ensures 1 <= n <= 4
  {
    if first / 16 < 12 then 1 else if first / 16 < 14 then 2 else if first / 16 < 15 then 3 else 4
  }

  /** The payload bits of a first byte. */
  function Utf8Mask(first: nat, len: nat): nat
    requires 1 <= len <= 4
  {
    first % (if len == 1 then 128 else if len == 2 then 64 else if len == 3 then 32 else 16)
  }

  /** Up to `n` more bytes of six bits each; the end of the text cuts them short. */
  function Utf8Rest(src: string, p: nat, n: nat, value: nat): (r: CharRead)
    ensures r.Read? && p <= r.next <= p + n && (p <= |src| ==> r.next <= |src|)
    decreases n
  {
    if n == 0 || At(src, p) == '\0' then Read(value, p)
    else Utf8Rest(src, p + 1, n - 1, 64 * value + Byte(At(src, p)) % 64)
  }

  function Utf8(src: string, p: nat): (r: CharRead)
  {
    var first := Byte(At(src, p));
    var len := Utf8Length(first);
    Utf8Rest(src, p + 1, len - 1, Utf8Mask(first, len))
  }

  method DecodeUtf8(src: string, start: nat) returns (r: CharRead)
    ensures r == Utf8(src, start)
  {
    var first := Byte(At(src, start));
    var len := Utf8Length(first);
    var value: nat := Utf8Mask(first, len);
    var end, pos := start + len, start + 1;
    while pos < end && At(src, pos) != '\0'
      invariant start < pos <= end
      invariant Utf8Rest(src, pos, end - pos, value) == Utf8(src, start)
      decreases end - pos
    {
      value := 64 * value + Byte(At(src, pos)) % 64;
      pos := pos + 1;
    }
    r := Read(value, pos);
  }

  /** A character of a literal or a class: an escape, or one code point. */
  function ReadChar(src: string, p: nat): (r: CharRead)
    ensures r.Read? ==> p < |src| && p < r.next <= |src|
  {
    if At(src, p) == '\\' then
      match At(src, p + 1)
      case 'x' => Hex(src, p + 2, 2, 0)
      case 'u' => Hex(src, p + 2, 4, 0)
      case 'U' => Hex(src, p + 2, 8, 0)
      case 't' => Read(9, p + 2)
      case 'r' => Read(13, p + 2)
      case 'n' => Read(10, p + 2)
      case '\\' => Read(92, p + 2)
      case '"' => Read(34, p + 2)
      case '[' => Read(91, p + 2)
      case ']' => Read(93, p + 2)
      case _ => Unreadable
    else if At(src, p) != '\0' then Utf8(src, p)
    else Unreadable
  }

  method ParseChar(src: string, pos: nat) returns (r: CharRead)
    ensures r == ReadChar(src, pos)
  {
    if At(src, pos) == '\\' {
      match At(src, pos + 1) {
        case 'x' => r := ParseHex(src, pos + 2, 2);
        case 'u' => r := ParseHex(src, pos + 2, 4);
        case 'U' => r := ParseHex(src, pos + 2, 8);
        case 't' => r := Read('\t' as nat, pos + 2);
        case 'r' => r := Read('\r' as nat, pos + 2);
        case 'n' => r := Read('\n' as nat, pos + 2);
        case '\\' => r := Read('\\' as nat, pos + 2);
        case '"' => r := Read('"' as nat, pos + 2);
        case '[' => r := Read('[' as nat, pos + 2);
        case ']' => r := Read(']' as nat, pos + 2);
        case _ => r := Unreadable;
      }
    } else if At(src, pos) != '\0' {
      r := DecodeUtf8(src, pos);
    } else {
      r := Unreadable;
    }
  }
}
