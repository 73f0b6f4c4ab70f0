/** Arbitrary-precision integer and decimal literals (`format_bigint`,
    `format_decimal`).

    Both functions start from the number's base-10 text (`to_string()`),
    which is taken as the input here, and compress a long run of zeros
    into an exponent. The partner of each is a reader that expands the
    exponent again.
 */
module Numerals {
  import opened Values

  function Zeros(k: nat): (s: string)
    ensures |s| == k && forall i :: 0 <= i < k ==> s[i] == '0'
  {
    seq(k, _ => '0')
  }

  /** `str::trim_end_matches('0')`. */
  function TrimEndZeros(s: string): (r: string)
    ensures |r| <= |s| && s == r + Zeros(|s| - |r|)
    ensures r == [] || r[|r| - 1] != '0'
  {
    if s != [] && s[|s| - 1] == '0' then
      var r := TrimEndZeros(s[..|s| - 1]);
      assert Zeros(|s| - |r|) == Zeros(|s| - 1 - |r|) + ['0'];
      assert s == s[..|s| - 1] + ['0'];
      r
    else
      s
  }

  /** `str::trim_start_matches('0')`. */
  function TrimStartZeros(s: string): (r: string)
    ensures |r| <= |s| && s == Zeros(|s| - |r|) + r
    ensures r == [] || r[0] != '0'
  {
    if s != [] && s[0] == '0' then
      var r := TrimStartZeros(s[1..]);
      assert Zeros(|s| - |r|) == ['0'] + Zeros(|s| - 1 - |r|);
      assert s == ['0'] + s[1..];
      r
    else
      s
  }

  /** `TrimEndZeros` keeps exactly the prefix up to the last non-zero. */
  lemma TrimEndZerosAt(s: string, n: nat)
    requires n <= |s| && (n == 0 || s[n - 1] != '0')
    requires forall i :: n <= i < |s| ==> s[i] == '0'
    ensures TrimEndZeros(s) == s[..n]
  {
    var r := TrimEndZeros(s);
    assert forall i :: |r| <= i < |s| ==> s[i] == '0';
    assert forall i :: 0 <= i < |r| ==> s[i] == r[i];
  }

  /** `TrimStartZeros` drops exactly the zeros before the first non-zero. */
  lemma TrimStartZerosAt(s: string, n: nat)
    requires n <= |s| && (n == |s| || s[n] != '0')
    requires forall i :: 0 <= i < n ==> s[i] == '0'
    ensures TrimStartZeros(s) == s[n..]
  {
    var r := TrimStartZeros(s);
    var k := |s| - |r|;
    assert forall i :: 0 <= i < k ==> s[i] == '0';
    assert forall i :: k <= i < |s| ==> s[i] == r[i - k];
    assert k < |s| ==> s[k] == r[0];
    assert k == n;
    assert s[n..] == r;
  }

  /** A run of `m` leading zeros is all removed by `TrimStartZeros`. */
  lemma {:induction false} TrimStartZerosAtLeast(s: string, m: nat)
    requires m <= |s| && forall i :: 0 <= i < m ==> s[i] == '0'
    ensures |s| - |TrimStartZeros(s)| >= m
  {
    if m > 0 {
      TrimStartZerosAtLeast(s[1..], m - 1);
    }
  }

  predicate StartsWith(s: string, prefix: string) {
    |prefix| <= |s| && s[..|prefix|] == prefix
  }

  predicate IsDigit(c: char) {
    '0' <= c <= '9'
  }

  /** `n` in base 10, as `{}` formats a `usize`. */
  function DecimalText(n: nat): (s: string)
    ensures |s| > 0 && forall i :: 0 <= i < |s| ==> IsDigit(s[i])
  {
    var last := [('0' as int + n % 10) as char];
    if n < 10 then last else DecimalText(n / 10) + last
  }

  /** Reads a non-empty run of decimal digits. */
  function ParseNat(s: string): Option<nat> {
    if s == [] || !IsDigit(s[|s| - 1]) then None
    else
      var low := s[|s| - 1] as int - '0' as int;
      if |s| == 1 then Some(low)
      else match ParseNat(s[..|s| - 1])
        case Some(high) => Some(10 * high + low)
        case None => None
  }

  lemma {:induction false} ParseDecimalText(n: nat)
    ensures ParseNat(DecimalText(n)) == Some(n)
  {
    if n >= 10 {
      var s := DecimalText(n);
      assert s[..|s| - 1] == DecimalText(n / 10);
      ParseDecimalText(n / 10);
    }
  }

  /** Position of the last occurrence of `c` in `s`. */
  function LastIndex(s: string, c: char): (r: Option<nat>)
    ensures r.None? <==> c !in s
    ensures r.Some? ==> r.value < |s| && s[r.value] == c && c !in s[r.value + 1..]
  {
    if s == [] then None
    else if s[|s| - 1] == c then Some(|s| - 1)
    else
      var r := LastIndex(s[..|s| - 1], c);
      assert s == s[..|s| - 1] + [s[|s| - 1]];
      r
  }

  lemma {:induction false} LastIndexAt(a: string, c: char, b: string)
    requires c !in b
    ensures LastIndex(a + [c] + b, c) == Some(|a|)
  {
    if b != [] {
      var s := a + [c] + b;
      var front := b[..|b| - 1];
      assert s[..|s| - 1] == a + [c] + front;
      assert b == front + [b[|b| - 1]];
      LastIndexAt(a, c, front);
    }
  }

  // ---------------------------------------------------------------------
  // format_bigint

  /** The integer literal for the integer whose base-10 text is `txt`:
      more than five trailing zeros become an exponent; an `n` suffix
      marks the arbitrary-precision type. */
  function FormatBigint(txt: string): (r: string)
    ensures |r| > 0 && r[|r| - 1] == 'n'
    ensures TrimEndZeros(txt) <= r
    ensures |txt| - |TrimEndZeros(txt)| > 5 ==> StartsWith(r, TrimEndZeros(txt) + ['e'])
    ensures |txt| - |TrimEndZeros(txt)| <= 5 ==> r == txt + ['n']
  {
    var noZeros := TrimEndZeros(txt);
    var zeros := |txt| - |noZeros|;
    if zeros > 5 then
      var r := noZeros + ['e'] + DecimalText(zeros) + ['n'];
      assert r[..|noZeros| + 1] == noZeros + ['e'];
      r
    else txt + ['n']
  }

  /** Reads an integer literal back into base-10 text, expanding `eK`. */
  function ReadBigint(r: string): Option<string> {
    if r == [] || r[|r| - 1] != 'n' then None
    else
      var body := r[..|r| - 1];
      match LastIndex(body, 'e')
      case None => Some(body)
      case Some(j) =>
        match ParseNat(body[j + 1..])
        case Some(k) => Some(body[..j] + Zeros(k))
        case None => None
  }

  /** Compression loses nothing: the exponent counts exactly the zeros
      removed, and the exponent form is used iff there were more than
      five of them. */
  lemma BigintReadsBack(txt: string)
    requires 'e' !in txt
    ensures ReadBigint(FormatBigint(txt)) == Some(txt)
    ensures 'e' in FormatBigint(txt) <==> |txt| - |TrimEndZeros(txt)| > 5
  {
    var noZeros := TrimEndZeros(txt);
    var zeros := |txt| - |noZeros|;
    var r := FormatBigint(txt);
    if zeros > 5 {
      NoEInPrefix(txt, |noZeros|);
      assert txt[..|noZeros|] == noZeros;
      ReadBigintExponent(noZeros, zeros);
      assert 'e' in r by { assert r[|noZeros|] == 'e'; }
    } else {
      assert r[..|r| - 1] == txt;
      assert 'e' !in r by {
        forall i | 0 <= i < |r| ensures r[i] != 'e' { if i < |txt| { assert r[i] == txt[i]; } }
      }
    }
  }

  /** More than five trailing zeros: the digits before them, `e`, and
      their count. */
  lemma BigintExponent(txt: string)
    requires |txt| - |TrimEndZeros(txt)| > 5
    ensures var noZeros := TrimEndZeros(txt);
      var zeros := |txt| - |noZeros|;
      && txt == noZeros + Zeros(zeros)
      && FormatBigint(txt) == noZeros + ['e'] + DecimalText(zeros) + ['n']
  {
  }

  lemma NoEInPrefix(s: string, n: nat)
    requires n <= |s| && 'e' !in s
    ensures 'e' !in s[..n]
  {
    forall i | 0 <= i < n ensures s[..n][i] != 'e' { assert s[..n][i] == s[i]; }
  }

  /** `m`, `e`, digits: the last `e` is the one after `m`. */
  lemma SplitAtExponent(m: string, k: nat)
    ensures var body := m + ['e'] + DecimalText(k);
      && LastIndex(body, 'e') == Some(|m|)
      && body[..|m|] == m && body[|m| + 1..] == DecimalText(k)
  {
    DigitsHaveNoE(k);
    LastIndexAt(m, 'e', DecimalText(k));
    var body := m + ['e'] + DecimalText(k);
    assert body[..|m|] == m;
    assert body[|m| + 1..] == DecimalText(k);
  }

  lemma ReadBigintExponent(noZeros: string, zeros: nat)
    ensures ReadBigint(noZeros + ['e'] + DecimalText(zeros) + ['n']) == Some(noZeros + Zeros(zeros))
  {
    var body := noZeros + ['e'] + DecimalText(zeros);
    var r := body + ['n'];
    assert r[..|r| - 1] == body;
    SplitAtExponent(noZeros, zeros);
    ParseDecimalText(zeros);
  }

  // ---------------------------------------------------------------------
  // format_decimal

  const SmallPrefix: string := "0.00000"

  /** The decimal literal for the decimal whose base-10 text is `txt`.
      A fraction with at least five leading fractional zeros becomes
      `0.<digits>e-<count>`, written without the `n` suffix; an integral
      value gains `.0`, with more than five trailing zeros compressed. */
  function FormatDecimal(txt: string): (r: string)
    ensures '.' !in txt ==> TrimEndZeros(txt) <= r && '.' in r && r[|r| - 1] == 'n'
    ensures '.' in txt && !StartsWith(txt, SmallPrefix) ==> r == txt + ['n']
    ensures StartsWith(txt, SmallPrefix) ==> StartsWith(r, ['0', '.']) && 'e' in r
    ensures '.' !in txt && |txt| - |TrimEndZeros(txt)| > 5 ==> StartsWith(r, TrimEndZeros(txt) + ['.', '0', 'e'])
    ensures '.' !in txt && |txt| - |TrimEndZeros(txt)| <= 5 ==> r == txt + ['.', '0', 'n']
  {
    if '.' in txt then
      if StartsWith(txt, SmallPrefix) then
        var noZeros := TrimStartZeros(txt[2..]);
        var zeros := |txt| - 2 - |noZeros|;
        var r := ['0', '.'] + noZeros + ['e', '-'] + DecimalText(zeros);
        assert r[..2] == ['0', '.'] && r[|noZeros| + 2] == 'e';
        r
      else
        txt + ['n']
    else
      assert StartsWith(txt, SmallPrefix) ==> txt[1] == SmallPrefix[1];
      var noZeros := TrimEndZeros(txt);
      var zeros := |txt| - |noZeros|;
      if zeros > 5 then
        var r := noZeros + ['.', '0', 'e'] + DecimalText(zeros) + ['n'];
        assert r[..|noZeros|] == noZeros && r[|noZeros|] == '.';
        assert r[..|noZeros| + 3] == noZeros + ['.', '0', 'e'];
        r
      else
        var r := txt + ['.', '0', 'n'];
        assert r[..|noZeros|] == noZeros && r[|txt|] == '.';
        r
  }

  /** Reads a decimal literal back into base-10 text, expanding the
      exponent of either form. */
  function ReadDecimal(r: string): Option<string> {
    if r != [] && r[|r| - 1] == 'n' then ReadSuffixed(r[..|r| - 1]) else ReadSmall(r)
  }

  /** `<text>`, or `<digits>.0e<count>` for an integral value. */
  function ReadSuffixed(body: string): Option<string> {
    match LastIndex(body, 'e')
    case None => Some(body)
    case Some(j) =>
      var mantissa := body[..j];
      if |mantissa| < 2 || mantissa[|mantissa| - 2..] != ['.', '0'] then None
      else match ParseNat(body[j + 1..])
        case Some(k) => Some(mantissa[..|mantissa| - 2] + Zeros(k) + ['.', '0'])
        case None => None
  }

  /** `0.<digits>e-<count>`. */
  function ReadSmall(r: string): Option<string> {
    match LastIndex(r, 'e')
    case None => None
    case Some(j) =>
      var mantissa := r[..j];
      if !StartsWith(mantissa, ['0', '.']) || j + 1 >= |r| || r[j + 1] != '-' then None
      else match ParseNat(r[j + 2..])
        case Some(k) => Some(['0', '.'] + Zeros(k) + mantissa[2..])
        case None => None
  }

  lemma DigitsHaveNoE(n: nat)
    ensures 'e' !in DecimalText(n) && 'n' !in DecimalText(n) && '-' !in DecimalText(n)
  {
    var d := DecimalText(n);
    forall i | 0 <= i < |d| ensures d[i] != 'e' && d[i] != 'n' && d[i] != '-' { assert IsDigit(d[i]); }
  }

  /** Compression loses nothing: the literal reads back as the input
      text, or, for an integral value, as the input text followed by
      `.0` (the same number). */
  lemma DecimalReadsBack(txt: string)
    requires 'e' !in txt
    ensures ReadDecimal(FormatDecimal(txt)) == Some(if '.' in txt then txt else txt + ['.', '0'])
    ensures '.' !in txt ==> ('e' in FormatDecimal(txt) <==> |txt| - |TrimEndZeros(txt)| > 5)
  {
    if '.' in txt {
      if StartsWith(txt, SmallPrefix) {
        SmallDecimalReadsBack(txt);
      } else {
        var r := FormatDecimal(txt);
        assert r[..|r| - 1] == txt;
      }
    } else {
      IntegralDecimalReadsBack(txt);
      IntegralDecimalExponentUsed(txt);
    }
  }

  lemma SmallDecimalReadsBack(txt: string)
    requires 'e' !in txt && StartsWith(txt, SmallPrefix)
    ensures ReadDecimal(FormatDecimal(txt)) == Some(txt)
  {
    var rest := txt[2..];
    var noZeros := TrimStartZeros(rest);
    var zeros := |txt| - 2 - |noZeros|;
    var digits := DecimalText(zeros);
    var mantissa := ['0', '.'] + noZeros;
    var r := mantissa + ['e'] + (['-'] + digits);
    SmallDecimalSplit(txt);
    SmallDecimalForm(txt);
    assert 'e' !in mantissa;
    DigitsHaveNoE(zeros);
    SmallReadsBack(noZeros, zeros);
  }

  lemma SmallReadsBack(noZeros: string, zeros: nat)
    requires 'e' !in noZeros
    ensures ReadDecimal(['0', '.'] + noZeros + ['e', '-'] + DecimalText(zeros))
         == Some(['0', '.'] + Zeros(zeros) + noZeros)
  {
    var digits := DecimalText(zeros);
    var mantissa := ['0', '.'] + noZeros;
    var r := mantissa + ['e'] + (['-'] + digits);
    assert r == ['0', '.'] + noZeros + ['e', '-'] + digits;
    DigitsHaveNoE(zeros);
    assert ReadDecimal(r) == ReadSmall(r) by {
      assert r[|r| - 1] == digits[|digits| - 1];
    }
    LastIndexAt(mantissa, 'e', ['-'] + digits);
    assert r[..|mantissa|] == mantissa;
    assert r[|mantissa| + 2..] == digits;
    assert r[|mantissa| + 1] == '-';
    ParseDecimalText(zeros);
    assert mantissa[2..] == noZeros;
  }

  lemma IntegralDecimalReadsBack(txt: string)
    requires 'e' !in txt && '.' !in txt
    ensures ReadDecimal(FormatDecimal(txt)) == Some(txt + ['.', '0'])
  {
    var noZeros := TrimEndZeros(txt);
    var zeros := |txt| - |noZeros|;
    if zeros > 5 {
      var mantissa := noZeros + ['.', '0'];
      var body := mantissa + ['e'] + DecimalText(zeros);
      assert FormatDecimal(txt) == body + ['n'];
      ReadDecimalSuffixed(body);
      NoEInPrefix(txt, |noZeros|);
      assert txt[..|noZeros|] == noZeros;
      ReadSuffixedExponent(noZeros, zeros);
    } else {
      var body := txt + ['.', '0'];
      assert FormatDecimal(txt) == body + ['n'];
      ReadDecimalSuffixed(body);
      assert 'e' !in body;
    }
  }

  /** An integral value takes the exponent form iff more than five
      trailing zeros were stripped. */
  lemma IntegralDecimalExponentUsed(txt: string)
    requires 'e' !in txt && '.' !in txt
    ensures 'e' in FormatDecimal(txt) <==> |txt| - |TrimEndZeros(txt)| > 5
  {
    var noZeros := TrimEndZeros(txt);
    var r := FormatDecimal(txt);
    if |txt| - |noZeros| > 5 {
      assert r[|noZeros| + 2] == (noZeros + ['.', '0', 'e'])[|noZeros| + 2];
    } else {
      forall i | 0 <= i < |r| ensures r[i] != 'e' {
        if i < |txt| { assert r[i] == txt[i]; }
      }
    }
  }

  lemma ReadDecimalSuffixed(body: string)
    ensures ReadDecimal(body + ['n']) == ReadSuffixed(body)
  {
    var r := body + ['n'];
    assert r[..|r| - 1] == body;
  }

  lemma ReadSuffixedExponent(noZeros: string, zeros: nat)
    requires 'e' !in noZeros
    ensures ReadSuffixed(noZeros + ['.', '0'] + ['e'] + DecimalText(zeros))
         == Some(noZeros + Zeros(zeros) + ['.', '0'])
  {
    var mantissa := noZeros + ['.', '0'];
    SplitAtExponent(mantissa, zeros);
    assert mantissa[|mantissa| - 2..] == ['.', '0'];
    assert mantissa[..|mantissa| - 2] == noZeros;
    ParseDecimalText(zeros);
  }

  /** An integral value with more than five trailing zeros: the digits
      before them, `.0e`, and their count. */
  lemma IntegralDecimalExponent(txt: string)
    requires '.' !in txt && |txt| - |TrimEndZeros(txt)| > 5
    ensures var noZeros := TrimEndZeros(txt);
      var zeros := |txt| - |noZeros|;
      && txt == noZeros + Zeros(zeros)
      && FormatDecimal(txt) == noZeros + ['.', '0', 'e'] + DecimalText(zeros) + ['n']
  {
  }

  /** The `n` suffix is missing exactly for the small-fraction form. */
  lemma DecimalSuffix(txt: string)
    ensures var r := FormatDecimal(txt);
      |r| > 0 && (r[|r| - 1] == 'n' <==> !('.' in txt && StartsWith(txt, SmallPrefix)))
  {
    var r := FormatDecimal(txt);
    if '.' in txt && StartsWith(txt, SmallPrefix) {
      var noZeros := TrimStartZeros(txt[2..]);
      var digits := DecimalText(|txt| - 2 - |noZeros|);
      assert r[|r| - 1] == digits[|digits| - 1];
    }
  }

  /** In the small-fraction form the exponent is at least five and the
      digits after `0.` are the fraction with its leading zeros removed. */
  lemma SmallDecimalExponent(txt: string)
    requires StartsWith(txt, SmallPrefix)
    ensures var noZeros := TrimStartZeros(txt[2..]);
      var zeros := |txt| - 2 - |noZeros|;
      && zeros >= 5
      && txt == ['0', '.'] + Zeros(zeros) + noZeros
      && FormatDecimal(txt) == ['0', '.'] + noZeros + ['e', '-'] + DecimalText(zeros)
  {
    SmallDecimalSplit(txt);
    SmallDecimalZeros(txt);
    SmallDecimalForm(txt);
  }

  lemma SmallDecimalZeros(txt: string)
    requires StartsWith(txt, SmallPrefix)
    ensures |txt| - 2 - |TrimStartZeros(txt[2..])| >= 5
  {
    var rest := txt[2..];
    forall i | 0 <= i < 5 ensures rest[i] == '0' {
      assert rest[i] == txt[..|SmallPrefix|][i + 2];
    }
    TrimStartZerosAtLeast(rest, 5);
  }

  lemma SmallDecimalSplit(txt: string)
    requires StartsWith(txt, SmallPrefix)
    ensures '.' in txt && txt == ['0', '.'] + txt[2..]
    ensures var noZeros := TrimStartZeros(txt[2..]);
      txt == ['0', '.'] + Zeros(|txt| - 2 - |noZeros|) + noZeros
  {
    assert txt[1] == '.';
    assert txt[..2] == SmallPrefix[..2];
    assert txt == txt[..2] + txt[2..];
  }

  lemma SmallDecimalForm(txt: string)
    requires StartsWith(txt, SmallPrefix) && '.' in txt
    ensures var noZeros := TrimStartZeros(txt[2..]);
      FormatDecimal(txt) == ['0', '.'] + noZeros + ['e', '-'] + DecimalText(|txt| - 2 - |noZeros|)
  {
  }

  // ---------------------------------------------------------------------
  // Worked examples

  lemma BigintExamples()
    ensures FormatBigint("1230000000") == "123e7n"
    ensures FormatBigint("100000") == "100000n"
  {
    TrimEndZerosAt("1230000000", 3);
    TrimEndZerosAt("100000", 1);
  }

  lemma DecimalExamples()
    ensures FormatDecimal("0.0000001") == "0.1e-6"
    ensures FormatDecimal("10.5") == "10.5n"
    ensures FormatDecimal("1000000") == "1.0e6n"
    ensures FormatDecimal("100") == "100.0n"
  {
    SmallDecimalExample();
    FractionExample();
    IntegralExamples();
  }

  lemma SmallDecimalExample()
    ensures FormatDecimal("0.0000001") == "0.1e-6"
  {
    calc {
      FormatDecimal("0.0000001");
    == { SmallExampleForm(); }
      ['0', '.'] + TrimStartZeros("0000001") + ['e', '-'] + DecimalText(7 - |TrimStartZeros("0000001")|);
    == { SmallExampleTrim(); }
      ['0', '.'] + ['1'] + ['e', '-'] + DecimalText(6);
    == { DigitExample(); }
      "0.1e-6";
    }
  }

  lemma SmallExampleForm()
    ensures FormatDecimal("0.0000001")
         == ['0', '.'] + TrimStartZeros("0000001") + ['e', '-'] + DecimalText(7 - |TrimStartZeros("0000001")|)
  {
    SmallExampleShape();
    SmallDecimalForm("0.0000001");
  }

  lemma SmallExampleShape()
    ensures StartsWith("0.0000001", SmallPrefix) && '.' in "0.0000001"
    ensures "0.0000001"[2..] == "0000001"
  {
    assert "0.0000001"[..7] == SmallPrefix;
    assert "0.0000001"[1] == '.';
  }

  lemma SmallExampleTrim()
    ensures TrimStartZeros("0000001") == ['1']
  {
    TrimStartZerosAt("0000001", 6);
  }

  lemma DigitExample()
    ensures DecimalText(6) == ['6']
  {
  }

  lemma FractionExample()
    ensures FormatDecimal("10.5") == "10.5n"
  {
    assert "10.5"[2] == '.';
    assert !StartsWith("10.5", SmallPrefix);
  }

  lemma IntegralExamples()
    ensures FormatDecimal("1000000") == "1.0e6n"
    ensures FormatDecimal("100") == "100.0n"
  {
    TrimEndZerosAt("1000000", 1);
    TrimEndZerosAt("100", 1);
  }
}
