/** String and byte-string literal escaping (`format_string`, `format_bytes`).

    Each encoder is a loop that pushes one escape chunk per input element
    into a growing buffer; the chunk table is `EscapeChar` / `EscapeByte`.
    The partner of each encoder is a decoder that reads the literal body
    back, token by token, the way a reader of the printed literal would.
 */
module Escape {
  import opened Values

  // ---------------------------------------------------------------------
  // Lower-case hexadecimal digits, as written by `{:02x}` and `{:04x}`.

  function HexDigit(n: nat): char
    requires n < 16
  {
    if n < 10 then ('0' as int + n) as char else ('a' as int + n - 10) as char
  }

  function HexDigitValue(c: char): (r: Option<nat>)
    ensures r.Some? ==> r.value < 16
  {
    if '0' <= c <= '9' then Some(c as int - '0' as int)
    else if 'a' <= c <= 'f' then Some(c as int - 'a' as int + 10)
    else None
  }

  function Pow16(width: nat): nat {
    if width == 0 then 1 else 16 * Pow16(width - 1)
  }

  /** `n` as exactly `width` zero-padded lower-case hex digits. */
  function Hex(n: nat, width: nat): (s: string)
    ensures |s| == width
    ensures forall i :: 0 <= i < |s| ==> HexDigitValue(s[i]).Some?
  {
    if width == 0 then [] else Hex(n / 16, width - 1) + [HexDigit(n % 16)]
  }

  /** Reads a run of hex digits; None when a non-digit occurs. */
  function ParseHex(s: string): (r: Option<nat>)
    ensures r.Some? ==> r.value < Pow16(|s|)
  {
    if s == [] then Some(0)
    else match (ParseHex(s[..|s| - 1]), HexDigitValue(s[|s| - 1]))
      case (Some(high), Some(low)) => Some(16 * high + low)
      case _ => None
  }

  lemma {:induction false} HexRoundTrip(n: nat, width: nat)
    requires n < Pow16(width)
    ensures ParseHex(Hex(n, width)) == Some(n)
  {
    if width > 0 {
      var s := Hex(n, width);
      assert s[..|s| - 1] == Hex(n / 16, width - 1);
      HexRoundTrip(n / 16, width - 1);
    }
  }

  /** The escapes `\'`, `\\`, `\r`, `\n`, `\t` read back. */
  function SimpleEscape(c: char): Option<char> {
    if c == '\'' then Some('\'')
    else if c == '\\' then Some('\\')
    else if c == 'r' then Some('\r')
    else if c == 'n' then Some('\n')
    else if c == 't' then Some('\t')
    else None
  }

  function Cons<T>(x: T, rest: Option<seq<T>>): Option<seq<T>> {
    match rest
    case Some(xs) => Some([x] + xs)
    case None => None
  }

  // ---------------------------------------------------------------------
  // format_string

  /** The text `format_string` pushes for one character `c`. Control
      characters become a numeric escape; quote and backslash are always
      escaped; CR, LF and TAB only when not `expanded`. */
  function EscapeChar(c: char, expanded: bool): (r: string)
    ensures r == [c] <==> !(c == '\'' || c == '\\' || IsControl(c) || (!expanded && (c == '\r' || c == '\n' || c == '\t')))
    ensures r != [c] ==> (|r| == 2 || |r| == 4 || |r| == 6) && r[0] == '\\'
    ensures c == '\'' ==> r == ['\\', '\'']
    ensures c == '\\' ==> r == ['\\', '\\']
    ensures !expanded && c == '\r' ==> r == ['\\', 'r']
    ensures !expanded && c == '\n' ==> r == ['\\', 'n']
    ensures !expanded && c == '\t' ==> r == ['\\', 't']
    ensures IsControl(c) && c as int <= 0x7F ==> |r| == 4 && r[1] == 'x' && ParseHex(r[2..]) == Some(c as int)
    ensures IsControl(c) && c as int > 0x7F ==> |r| == 6 && r[1] == 'u' && ParseHex(r[2..]) == Some(c as int)
  {
    if IsControl(c) then
      var e := CodeEscape(c);
      CodeEscapeDigits(c);
      e
    else ShortEscape(c, expanded)
  }

  /** Quote and backslash always, CR, LF and TAB unless `expanded`, as a
      backslash and one character; anything else as itself. */
  function ShortEscape(c: char, expanded: bool): string {
    if c == '\'' then ['\\', '\'']
    else if c == '\\' then ['\\', '\\']
    else if c == '\r' && !expanded then ['\\', 'r']
    else if c == '\n' && !expanded then ['\\', 'n']
    else if c == '\t' && !expanded then ['\\', 't']
    else [c]
  }

  /** C0 controls (but CR, LF, TAB) and DEL as `\xhh`, C1 controls as
      `\uhhhh`. */
  function CodeEscape(c: char): string
    requires IsControl(c)
  {
    var code := c as int;
    if code <= 0x7F then ['\\', 'x'] + Hex(code, 2) else ['\\', 'u'] + Hex(code, 4)
  }

  /** The digits of a numeric escape read back as the character's code. */
  lemma CodeEscapeDigits(c: char)
    requires IsControl(c)
    ensures var e := CodeEscape(c);
      && |e| == (if c as int <= 0x7F then 4 else 6)
      && e[1] == (if c as int <= 0x7F then 'x' else 'u')
      && ParseHex(e[2..]) == Some(c as int)
  {
    var code := c as int;
    var e := CodeEscape(c);
    if code <= 0x7F {
      assert e[2..] == Hex(code, 2);
      HexRoundTrip(code, 2);
    } else {
      assert e[2..] == Hex(code, 4);
      HexRoundTrip(code, 4);
    }
  }

  function EscapeBody(s: string, expanded: bool): string {
    if s == [] then [] else EscapeChar(s[0], expanded) + EscapeBody(s[1..], expanded)
  }

  /** The single-quoted literal `format_string(s, expanded)` returns. */
  function StringLiteral(s: string, expanded: bool): string {
    ['\''] + EscapeBody(s, expanded) + ['\'']
  }

  method FormatString(s: string, expanded: bool) returns (buf: string)
    ensures buf == StringLiteral(s, expanded)
  {
    buf := ['\''];
    for i := 0 to |s|
      invariant buf == ['\''] + EscapeBody(s[..i], expanded)
    {
      PushStep(buf, s, i, expanded);
      buf := buf + EscapeChar(s[i], expanded);
    }
    assert s[..|s|] == s;
    buf := buf + ['\''];
  }

  lemma PushStep(buf: string, s: string, i: nat, expanded: bool)
    requires i < |s|
    requires buf == ['\''] + EscapeBody(s[..i], expanded)
    ensures buf + EscapeChar(s[i], expanded) == ['\''] + EscapeBody(s[..i + 1], expanded)
  {
    EscapeBodyStep(s, i, expanded);
    AppendAssoc(['\''], EscapeBody(s[..i], expanded), EscapeChar(s[i], expanded));
  }

  /** Stated apart so that the step above does not reason about the
      escape table while regrouping the concatenation. */
  lemma AppendAssoc<T>(a: seq<T>, b: seq<T>, c: seq<T>)
    ensures (a + b) + c == a + (b + c)
  {
  }

  lemma EscapeBodyStep(s: string, i: nat, expanded: bool)
    requires i < |s|
    ensures EscapeBody(s[..i + 1], expanded) == EscapeBody(s[..i], expanded) + EscapeChar(s[i], expanded)
  {
    assert s[..i + 1] == s[..i] + [s[i]];
    EscapeBodySnoc(s[..i], s[i], expanded);
  }

  lemma {:induction false} EscapeBodySnoc(s: string, c: char, expanded: bool)
    ensures EscapeBody(s + [c], expanded) == EscapeBody(s, expanded) + EscapeChar(c, expanded)
  {
    if s == [] {
      assert [c][1..] == [];
    } else {
      assert (s + [c])[1..] == s[1..] + [c];
      EscapeBodySnoc(s[1..], c, expanded);
    }
  }

  /** Reads the body of a single-quoted literal: a raw character is
      anything but `'` and `\`; `\xhh`, `\uhhhh` and the five simple
      escapes stand for one character each. None for a malformed body. */
  function Unescape(body: string): Option<string>
    decreases |body|
  {
    if body == [] then Some([])
    else if body[0] == '\'' then None
    else if body[0] != '\\' then Cons(body[0], Unescape(body[1..]))
    else if |body| < 2 then None
    else if body[1] == 'x' then
      if |body| < 4 then None
      else match ParseHex(body[2..4])
        case Some(code) => Cons(code as char, Unescape(body[4..]))
        case None => None
    else if body[1] == 'u' then
      if |body| < 6 then None
      else match ParseHex(body[2..6])
        case Some(code) =>
          if 0xD800 <= code < 0xE000 then None else Cons(code as char, Unescape(body[6..]))
        case None => None
    else match SimpleEscape(body[1])
      case Some(c) => Cons(c, Unescape(body[2..]))
      case None => None
  }

  lemma UnescapeChar(c: char, expanded: bool, rest: string)
    ensures Unescape(EscapeChar(c, expanded) + rest) == Cons(c, Unescape(rest))
  {
    if IsControl(c) {
      if c as int <= 0x7F {
        UnescapeHexCode(c, rest);
      } else {
        UnescapeUnicodeCode(c, rest);
      }
    } else {
      UnescapeShort(c, expanded, rest);
    }
  }

  lemma UnescapeHexCode(c: char, rest: string)
    requires IsControl(c) && c as int <= 0x7F
    ensures Unescape(CodeEscape(c) + rest) == Cons(c, Unescape(rest))
  {
    var body := CodeEscape(c) + rest;
    assert body[2..4] == Hex(c as int, 2) && body[4..] == rest;
    HexRoundTrip(c as int, 2);
  }

  lemma UnescapeUnicodeCode(c: char, rest: string)
    requires IsControl(c) && c as int > 0x7F
    ensures Unescape(CodeEscape(c) + rest) == Cons(c, Unescape(rest))
  {
    var body := CodeEscape(c) + rest;
    assert body[2..6] == Hex(c as int, 4) && body[6..] == rest;
    HexRoundTrip(c as int, 4);
  }

  lemma UnescapeShort(c: char, expanded: bool, rest: string)
    requires !IsControl(c)
    ensures Unescape(ShortEscape(c, expanded) + rest) == Cons(c, Unescape(rest))
  {
    var body := ShortEscape(c, expanded) + rest;
    if |ShortEscape(c, expanded)| == 2 {
      assert body[2..] == rest;
    } else {
      assert body[1..] == rest;
    }
  }

  lemma {:induction false} UnescapeBody(s: string, expanded: bool)
    ensures Unescape(EscapeBody(s, expanded)) == Some(s)
  {
    if s != [] {
      UnescapeChar(s[0], expanded, EscapeBody(s[1..], expanded));
      UnescapeBody(s[1..], expanded);
      assert [s[0]] + s[1..] == s;
    }
  }

  /** The literal is delimited by a pair of single quotes, and its body
      reads back as exactly `s`: no unescaped quote occurs before the
      closing delimiter and no information is lost. */
  lemma StringLiteralReadsBack(s: string, expanded: bool)
    ensures var r := StringLiteral(s, expanded);
      && |r| >= 2 && r[0] == '\'' && r[|r| - 1] == '\''
      && Unescape(r[1..|r| - 1]) == Some(s)
  {
    var r := StringLiteral(s, expanded);
    assert r[1..|r| - 1] == EscapeBody(s, expanded);
    UnescapeBody(s, expanded);
  }

  /** Distinct strings never print as the same literal (in either mode). */
  lemma StringLiteralInjective(s1: string, s2: string, expanded: bool)
    requires StringLiteral(s1, expanded) == StringLiteral(s2, expanded)
    ensures s1 == s2
  {
    StringLiteralReadsBack(s1, expanded);
    StringLiteralReadsBack(s2, expanded);
  }

  /** The `expanded` flag changes the output for exactly CR, LF and TAB. */
  lemma ExpandedAffectsOnlyWhitespace(c: char)
    ensures EscapeChar(c, true) != EscapeChar(c, false) <==> (c == '\r' || c == '\n' || c == '\t')
    ensures EscapeChar(c, true) == [c] <==> !(c == '\'' || c == '\\' || IsControl(c))
  {
  }

  /** The characters `format_string` writes as a hex escape. */
  predicate IsControl(c: char) {
    var code := c as int;
    code <= 0x08 || code == 0x0B || code == 0x0C || 0x0E <= code <= 0x1F || 0x7F <= code <= 0x9F
  }

  // ---------------------------------------------------------------------
  // format_bytes

  /** The text `format_bytes` pushes for one byte: `\xhh` for control and
      non-ASCII bytes, a two-character escape for `'`, CR, LF, TAB and
      `\`, the byte itself as a character otherwise. */
  function EscapeByte(b: Byte): (r: string)
    ensures r == [b as char] <==> PlainByteChar(b as char)
    ensures r != [b as char] ==> (|r| == 2 || |r| == 4) && r[0] == '\\'
    ensures b == '\'' as int ==> r == ['\\', '\'']
    ensures b == '\\' as int ==> r == ['\\', '\\']
    ensures b == '\r' as int ==> r == ['\\', 'r']
    ensures b == '\n' as int ==> r == ['\\', 'n']
    ensures b == '\t' as int ==> r == ['\\', 't']
    ensures IsControlByte(b) ==> |r| == 4 && r[1] == 'x' && ParseHex(r[2..]) == Some(b)
  {
    if IsControlByte(b) then
      var e := ['\\', 'x'] + Hex(b, 2);
      assert e[2..] == Hex(b, 2);
      HexRoundTrip(b, 2);
      e
    else if b == '\'' as int then ['\\', '\'']
    else if b == '\r' as int then ['\\', 'r']
    else if b == '\n' as int then ['\\', 'n']
    else if b == '\t' as int then ['\\', 't']
    else if b == '\\' as int then ['\\', '\\']
    else [b as char]
  }

  /** The bytes `format_bytes` writes as `\xhh`: C0 controls but CR, LF
      and TAB, DEL, and everything above ASCII. */
  predicate IsControlByte(b: Byte) {
    b <= 0x08 || b == 0x0B || b == 0x0C || 0x0E <= b <= 0x1F || 0x7F <= b
  }

  function BytesBody(bs: seq<Byte>): string {
    if bs == [] then [] else EscapeByte(bs[0]) + BytesBody(bs[1..])
  }

  /** The literal `format_bytes(bs)` returns: `b'`, body, `'`. */
  function BytesLiteral(bs: seq<Byte>): string {
    ['b', '\''] + BytesBody(bs) + ['\'']
  }

  method FormatBytes(bs: seq<Byte>) returns (buf: string)
    ensures buf == BytesLiteral(bs)
  {
    buf := ['b', '\''];
    for i := 0 to |bs|
      invariant buf == ['b', '\''] + BytesBody(bs[..i])
    {
      PushByteStep(buf, bs, i);
      buf := buf + EscapeByte(bs[i]);
    }
    assert bs[..|bs|] == bs;
    buf := buf + ['\''];
  }

  lemma PushByteStep(buf: string, bs: seq<Byte>, i: nat)
    requires i < |bs|
    requires buf == ['b', '\''] + BytesBody(bs[..i])
    ensures buf + EscapeByte(bs[i]) == ['b', '\''] + BytesBody(bs[..i + 1])
  {
    assert bs[..i + 1] == bs[..i] + [bs[i]];
    BytesBodySnoc(bs[..i], bs[i]);
  }

  lemma {:induction false} BytesBodySnoc(bs: seq<Byte>, b: Byte)
    ensures BytesBody(bs + [b]) == BytesBody(bs) + EscapeByte(b)
  {
    if bs == [] {
      assert [b][1..] == [];
    } else {
      assert (bs + [b])[1..] == bs[1..] + [b];
      BytesBodySnoc(bs[1..], b);
    }
  }

  /** Printable ASCII, the alphabet of a byte-literal body. */
  predicate Printable(c: char) {
    0x20 <= c as int <= 0x7E
  }

  predicate PlainByteChar(c: char) {
    Printable(c) && c != '\'' && c != '\\'
  }

  /** Reads the body of a byte literal back into bytes. */
  function UnescapeBytes(body: string): Option<seq<Byte>>
    decreases |body|
  {
    if body == [] then Some([])
    else if body[0] != '\\' then
      if PlainByteChar(body[0]) then Cons(body[0] as int, UnescapeBytes(body[1..])) else None
    else if |body| < 2 then None
    else if body[1] == 'x' then
      if |body| < 4 then None
      else match ParseHex(body[2..4])
        case Some(code) => Cons(code, UnescapeBytes(body[4..]))
        case None => None
    else match SimpleEscape(body[1])
      case Some(c) => Cons(c as int, UnescapeBytes(body[2..]))
      case None => None
  }

  lemma UnescapeByte(b: Byte, rest: string)
    ensures UnescapeBytes(EscapeByte(b) + rest) == Cons(b, UnescapeBytes(rest))
  {
    if IsControlByte(b) {
      UnescapeHexByte(b, rest);
    } else {
      UnescapeShortByte(b, rest);
    }
  }

  lemma UnescapeHexByte(b: Byte, rest: string)
    requires IsControlByte(b)
    ensures UnescapeBytes(['\\', 'x'] + Hex(b, 2) + rest) == Cons(b, UnescapeBytes(rest))
  {
    var body := ['\\', 'x'] + Hex(b, 2) + rest;
    assert body[2..4] == Hex(b, 2) && body[4..] == rest;
    HexRoundTrip(b, 2);
  }

  lemma UnescapeShortByte(b: Byte, rest: string)
    requires !IsControlByte(b)
    ensures UnescapeBytes(EscapeByte(b) + rest) == Cons(b, UnescapeBytes(rest))
  {
    var body := EscapeByte(b) + rest;
    if |EscapeByte(b)| == 2 {
      assert body[2..] == rest;
    } else {
      assert body[1..] == rest;
    }
  }

  lemma {:induction false} UnescapeBytesBody(bs: seq<Byte>)
    ensures UnescapeBytes(BytesBody(bs)) == Some(bs)
  {
    if bs != [] {
      UnescapeByte(bs[0], BytesBody(bs[1..]));
      UnescapeBytesBody(bs[1..]);
      assert [bs[0]] + bs[1..] == bs;
    }
  }

  /** Every byte contributes 1, 2 or 4 printable ASCII characters. */
  lemma EscapeBytePrintable(b: Byte)
    ensures |EscapeByte(b)| in {1, 2, 4}
    ensures forall i :: 0 <= i < |EscapeByte(b)| ==> Printable(EscapeByte(b)[i])
  {
    var e := EscapeByte(b);
    if |e| == 4 {
      forall i | 2 <= i < 4 ensures Printable(e[i]) {
        assert HexDigitValue(Hex(b, 2)[i - 2]).Some?;
      }
    }
  }

  lemma {:induction false} BytesBodyPrintable(bs: seq<Byte>)
    ensures |bs| <= |BytesBody(bs)| <= 4 * |bs|
    ensures forall i :: 0 <= i < |BytesBody(bs)| ==> Printable(BytesBody(bs)[i])
  {
    if bs != [] {
      EscapeBytePrintable(bs[0]);
      BytesBodyPrintable(bs[1..]);
      var head, tail := EscapeByte(bs[0]), BytesBody(bs[1..]);
      forall i | 0 <= i < |head + tail| ensures Printable((head + tail)[i]) {
        if i >= |head| {
          assert (head + tail)[i] == tail[i - |head|];
        }
      }
    }
  }

  /** The byte literal is `b'` + a printable-ASCII body + `'`, and the
      body reads back as exactly the input bytes. */
  lemma BytesLiteralReadsBack(bs: seq<Byte>)
    ensures var r := BytesLiteral(bs);
      && |r| >= 3 && r[..2] == ['b', '\''] && r[|r| - 1] == '\''
      && (forall i :: 2 <= i < |r| - 1 ==> Printable(r[i]))
      && UnescapeBytes(r[2..|r| - 1]) == Some(bs)
  {
    var r := BytesLiteral(bs);
    assert r[2..|r| - 1] == BytesBody(bs);
    BytesBodyPrintable(bs);
    UnescapeBytesBody(bs);
    forall i | 2 <= i < |r| - 1 ensures Printable(r[i]) {
      assert r[i] == BytesBody(bs)[i - 2];
    }
  }
}
