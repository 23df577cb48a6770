/** Python's `int(text)` for base-10 text, and the decimal and
    thousands-grouped renderings used to state what it inverts. */
module Numbers {
  import opened Outcomes
  import opened Text

  predicate IsDigit(c: char) { '0' <= c <= '9' }

  predicate AllDigits(d: string) {
    forall k :: 0 <= k < |d| ==> IsDigit(d[k])
  }

  predicate DoubleUnderscoreAt(b: string, k: int) {
    0 <= k < |b| - 1 && b[k] == '_' && b[k + 1] == '_'
  }

  /** The body of a base-10 integer literal: digits with single underscores
      between them (`1_000`), but none leading, trailing or doubled. */
  predicate IsIntegerBody(b: string) {
    && b != []
    && IsDigit(b[0]) && IsDigit(b[|b| - 1])
    && (forall k :: 0 <= k < |b| ==> IsDigit(b[k]) || b[k] == '_')
    && (forall k :: 0 <= k < |b| - 1 ==> !DoubleUnderscoreAt(b, k))
  }

  function DigitValue(c: char): int {
    (c as int) - ('0' as int)
  }

  /** The value of a string of decimal digits (leading zeros allowed). */
  function Value(d: string): int
    decreases |d|
  {
    if d == [] then 0 else 10 * Value(d[..|d| - 1]) + DigitValue(d[|d| - 1])
  }

  /** The whitespace `int()` ignores around its text: the six ASCII
      separators (tab, newline, vertical tab, form feed, carriage return,
      space) and every non-ASCII character `str.isspace()` accepts, which
      `int()` first turns into a space. The ASCII separators U+001C to
      U+001F, which `str.isspace()` accepts, are not among them. */
  predicate IsIntSpace(c: char) {
    var n := c as int;
    (9 <= n <= 13) || n == 32 || (n >= 128 && IsSpace(c))
  }

  /** The text without its leading `int()` whitespace. */
  function TrimStart(s: string): (r: string)
    decreases |s|
    ensures |r| <= |s| && r == s[|s| - |r|..]
    ensures forall k :: 0 <= k < |s| - |r| ==> IsIntSpace(s[k])
    ensures r == [] || !IsIntSpace(r[0])
  {
    if s != [] && IsIntSpace(s[0]) then TrimStart(s[1..]) else s
  }

  /** The text without its trailing `int()` whitespace. */
  function TrimEnd(s: string): (r: string)
    decreases |s|
    ensures |r| <= |s| && r == s[..|r|]
    ensures forall k :: |r| <= k < |s| ==> IsIntSpace(s[k])
    ensures r == [] || !IsIntSpace(r[|r| - 1])
  {
    if s != [] && IsIntSpace(s[|s| - 1]) then TrimEnd(s[..|s| - 1]) else s
  }

  /** The sign and the rest of the text once `int()` whitespace is removed
      from both ends. */
  datatype Literal = Literal(negative: bool, body: string)

  /** A sign, when the trimmed text starts with one, is taken off; the
      body is the rest of the trimmed text. */
  function SignAndBody(s: string): (lit: Literal)
    ensures var t := TrimEnd(TrimStart(s));
      && |t| - 1 <= |lit.body| <= |t| && lit.body == t[|t| - |lit.body|..]
      && (|lit.body| < |t| <==> t != [] && (t[0] == '-' || t[0] == '+'))
      && (lit.negative <==> |lit.body| < |t| && t[0] == '-')
  {
    var t := TrimEnd(TrimStart(s));
    if |t| > 0 && (t[0] == '-' || t[0] == '+') then Literal(t[0] == '-', t[1..]) else Literal(false, t)
  }

  /** `int(s)`: surrounding whitespace, an optional sign, then an integer
      body; anything else raises ValueError. */
  function ParseInt(s: string): (r: Result<int>)
    ensures r.Err? ==> r.error == ValueError
    ensures r.Ok? <==> IsIntegerBody(SignAndBody(s).body)
  {
    var lit := SignAndBody(s);
    if IsIntegerBody(lit.body) then
      var v := Value(Without(lit.body, '_'));
      Ok(if lit.negative then -v else v)
    else Err(ValueError)
  }

  function DigitChar(k: nat): (c: char)
    requires k < 10
    ensures IsDigit(c) && DigitValue(c) == k
  {
    (('0' as int) + k) as char
  }

  /** `str(n)` for a natural number. */
  function Decimal(n: nat): (d: string)
    decreases n
    ensures d != [] && AllDigits(d)
  {
    if n < 10 then [DigitChar(n)] else Decimal(n / 10) + [DigitChar(n % 10)]
  }

  /** The three digits of `m`, with leading zeros. */
  function ThreeDigits(m: nat): (d: string)
    requires m < 1000
    ensures |d| == 3 && AllDigits(d) && Value(d) == m
  {
    var d := [DigitChar(m / 100), DigitChar(m / 10 % 10), DigitChar(m % 10)];
    assert d[..2][..1] == [d[0]] && d[..2][..1][..0] == [];
    assert Value([d[0]]) == m / 100;
    assert Value(d[..2]) == m / 100 * 10 + m / 10 % 10;
    assert Value(d) == (m / 100 * 10 + m / 10 % 10) * 10 + m % 10;
    d
  }

  /** `f"{n:,}"`: the decimal digits of `n` grouped in threes by commas. */
  function Grouped(n: nat): string
    decreases n
  {
    if n < 1000 then Decimal(n) else Grouped(n / 1000) + "," + ThreeDigits(n % 1000)
  }

  function Pow10(k: nat): nat {
    if k == 0 then 1 else 10 * Pow10(k - 1)
  }

  /** Digits written after others shift the others' value left. */
  lemma {:induction false} ValueAppend(a: string, b: string)
    ensures Value(a + b) == Value(a) * Pow10(|b|) + Value(b)
    decreases |b|
  {
    if b == [] {
      assert a + b == a;
    } else {
      var b' := b[..|b| - 1];
      var last := DigitValue(b[|b| - 1]);
      calc {
        Value(a + b);
        { assert (a + b)[..|a + b| - 1] == a + b'; }
        10 * Value(a + b') + last;
        { ValueAppend(a, b'); }
        10 * (Value(a) * Pow10(|b'|) + Value(b')) + last;
        Value(a) * (10 * Pow10(|b'|)) + (10 * Value(b') + last);
        Value(a) * Pow10(|b|) + Value(b);
      }
    }
  }

  lemma {:induction false} AllDigitsAppend(a: string, b: string)
    requires AllDigits(a) && AllDigits(b)
    ensures AllDigits(a + b)
  {
    forall k | 0 <= k < |a + b| ensures IsDigit((a + b)[k]) {
      if k < |a| { assert (a + b)[k] == a[k]; } else { assert (a + b)[k] == b[k - |a|]; }
    }
  }

  /** Reading back `str(n)` gives `n`. */
  lemma {:induction false} ValueOfDecimal(n: nat)
    ensures Value(Decimal(n)) == n
    decreases n
  {
    if n >= 10 {
      var d := Decimal(n);
      calc {
        Value(d);
        { assert d[..|d| - 1] == Decimal(n / 10); }
        10 * Value(Decimal(n / 10)) + n % 10;
        { ValueOfDecimal(n / 10); }
        n;
      }
    }
  }

  /** Text that starts and ends with a character other than `int()`
      whitespace is left as it is. */
  lemma TrimUnchanged(s: string)
    requires s != [] && !IsIntSpace(s[0]) && !IsIntSpace(s[|s| - 1])
    ensures TrimEnd(TrimStart(s)) == s
  {
  }

  /** Digits have no surrounding whitespace, sign or underscore. */
  lemma DigitsAreBody(d: string)
    requires d != [] && AllDigits(d)
    ensures IsIntegerBody(d) && Without(d, '_') == d
  {
    assert forall k :: 0 <= k < |d| ==> d[k] != '_';
    WithoutSpec(d, '_');
  }

  lemma DigitsLiteral(d: string)
    requires d != [] && AllDigits(d)
    ensures SignAndBody(d) == Literal(false, d)
  {
    assert IsDigit(d[0]) && IsDigit(d[|d| - 1]);
    TrimUnchanged(d);
  }

  lemma NegatedDigitsLiteral(d: string)
    requires d != [] && AllDigits(d)
    ensures SignAndBody("-" + d) == Literal(true, d)
  {
    var s := "-" + d;
    assert s[|s| - 1] == d[|d| - 1] && IsDigit(d[|d| - 1]);
    TrimUnchanged(s);
    assert s[1..] == d;
  }

  lemma ParseIntOfBody(s: string, negative: bool, b: string)
    requires SignAndBody(s) == Literal(negative, b)
    requires IsIntegerBody(b) && Without(b, '_') == b
    ensures ParseInt(s) == Ok(if negative then -Value(b) else Value(b))
  {
  }

  /** A string of digits with nothing around it parses to its value, and
      with a minus sign in front to the negated value. */
  lemma ParseIntOfDigits(d: string)
    requires d != [] && AllDigits(d)
    ensures ParseInt(d) == Ok(Value(d))
    ensures ParseInt("-" + d) == Ok(-Value(d))
  {
    assert SignAndBody(d) == Literal(false, d) by { DigitsLiteral(d); }
    assert SignAndBody("-" + d) == Literal(true, d) by { NegatedDigitsLiteral(d); }
    assert IsIntegerBody(d) && Without(d, '_') == d by { DigitsAreBody(d); }
    ParseIntOfBody(d, false, d);
    ParseIntOfBody("-" + d, true, d);
  }

  /** `int(str(n)) == n` for every integer, negative ones included. */
  lemma ParseIntOfDecimal(n: int)
    ensures ParseInt(if n < 0 then "-" + Decimal(-n) else Decimal(n)) == Ok(n)
  {
    var m: nat := if n < 0 then -n else n;
    ValueOfDecimal(m);
    ParseIntOfDigits(Decimal(m));
  }

  /** Text that is blank after stripping, or a bare sign, raises ValueError. */
  lemma ParseIntRejectsEmpty(s: string)
    requires SignAndBody(s).body == []
    ensures ParseInt(s) == Err(ValueError)
  {
  }

  /** The ASCII information separators are not `int()` whitespace: a
      leading U+001C makes `int()` raise ValueError, although
      `str.isspace()` holds of it. */
  lemma SeparatorIsNotIntSpace(s: string)
    requires |s| == 2 && s[0] == 28 as char && s[1] == '7'
    ensures ParseInt(s) == Err(ValueError)
  {
    assert !IsIntSpace(s[0]) && !IsIntSpace(s[1]);
    TrimUnchanged(s);
  }
}
