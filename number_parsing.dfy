/** `parseNumber` of src/manager/statistics_manager.ts: a CSV cell that is
    empty after trimming becomes 0, anything else goes through JavaScript's
    `Number(...)`. */
module NumberParsing {
  import opened Statistics

  /** The characters `String.prototype.trim` removes: the WhiteSpace
      characters (tab, vertical tab, form feed, space, no-break space, the
      byte-order mark and the other space separators) and the line
      terminators. `Number(...)` skips the same set around its numeral. */
  predicate IsWhitespace(c: char) {
    if c <= ' ' then c == ' ' || '\t' <= c <= '\r' else IsWideWhitespace(c)
  }

  /** The whitespace characters above the ASCII range. */
  predicate IsWideWhitespace(c: char) {
    || c == '\U{00A0}' || c == '\U{1680}' || ('\U{2000}' <= c <= '\U{200A}')
    || c == '\U{2028}' || c == '\U{2029}' || c == '\U{202F}' || c == '\U{205F}'
    || c == '\U{3000}' || c == '\U{FEFF}'
  }

  /** A string that trims to nothing: every character is whitespace. */
  predicate IsBlank(s: string) {
    forall i :: 0 <= i < |s| ==> IsWhitespace(s[i])
  }

  /** Drops leading whitespace. */
  function TrimStart(s: string): string {
    if s == [] || !IsWhitespace(s[0]) then s else TrimStart(s[1..])
  }

  /** Drops trailing whitespace. */
  function TrimEnd(s: string): string {
    if s == [] || !IsWhitespace(s[|s| - 1]) then s else TrimEnd(s[..|s| - 1])
  }

  /** `input.trim()`. */
  function Trim(s: string): string {
    TrimEnd(TrimStart(s))
  }

  /** TrimStart keeps a suffix of its input that does not start with
      whitespace. */
  lemma {:induction false} TrimStartSpec(s: string)
    ensures var r := TrimStart(s);
      && |r| <= |s| && r == s[|s| - |r|..]
      && (r == [] || !IsWhitespace(r[0]))
  {
    if s != [] && IsWhitespace(s[0]) {
      TrimStartSpec(s[1..]);
    }
  }

  /** What TrimStart removes is a blank prefix. */
  lemma {:induction false} TrimStartDropsBlank(s: string)
    ensures var r := TrimStart(s);
      |r| <= |s| && IsBlank(s[..|s| - |r|])
  {
    if s != [] && IsWhitespace(s[0]) {
      TrimStartDropsBlank(s[1..]);
      var r := TrimStart(s);
      assert s[..|s| - |r|] == [s[0]] + s[1..][..|s| - 1 - |r|];
      BlankConcat([s[0]], s[1..][..|s| - 1 - |r|]);
    }
  }

  /** TrimStart leaves nothing exactly for blank input. */
  lemma {:induction false} TrimStartBlank(s: string)
    ensures TrimStart(s) == [] <==> IsBlank(s)
  {
    if s != [] && IsWhitespace(s[0]) {
      TrimStartBlank(s[1..]);
      assert s == [s[0]] + s[1..];
      BlankConcat([s[0]], s[1..]);
    }
  }

  /** TrimEnd removes a blank suffix and stops at the last character that
      is not whitespace. */
  lemma {:induction false} TrimEndSpec(s: string)
    ensures var r := TrimEnd(s);
      && |r| <= |s| && r == s[..|r|]
      && IsBlank(s[|r|..])
      && (r == [] || !IsWhitespace(r[|r| - 1]))
  {
    if s != [] && IsWhitespace(s[|s| - 1]) {
      var s' := s[..|s| - 1];
      TrimEndSpec(s');
      var r := TrimEnd(s);
      assert s[|r|..] == s'[|r|..] + [s[|s| - 1]];
    }
  }

  /** Trimming leaves nothing exactly for blank input, and otherwise a
      string that starts and ends with a character that is not whitespace. */
  lemma TrimSpec(s: string)
    ensures Trim(s) == [] <==> IsBlank(s)
    ensures Trim(s) != [] ==> !IsWhitespace(Trim(s)[0]) && !IsWhitespace(Trim(s)[|Trim(s)| - 1])
  {
    var t := TrimStart(s);
    var r := Trim(s);
    TrimStartSpec(s);
    TrimEndSpec(t);
    TrimStartBlank(s);
    if r == [] {
      assert t[0..] == t;
    }
    assert r == [] <==> t == [];
    if r != [] {
      assert r[0] == t[0];
    }
  }

  lemma BlankConcat(a: string, b: string)
    ensures IsBlank(a + b) <==> IsBlank(a) && IsBlank(b)
  {
    if IsBlank(a + b) {
      forall i | 0 <= i < |a| ensures IsWhitespace(a[i]) {
        assert a[i] == (a + b)[i];
      }
      forall i | 0 <= i < |b| ensures IsWhitespace(b[i]) {
        assert b[i] == (a + b)[|a| + i];
      }
    }
  }

  predicate IsDigit(c: char) { '0' <= c <= '9' }

  predicate AllDigits(s: string) {
    forall i :: 0 <= i < |s| ==> IsDigit(s[i])
  }

  function DigitValue(c: char): (d: nat)
    requires IsDigit(c)
  {
    c as int - '0' as int
  }

  function Digit(d: nat): (c: char)
    requires d < 10
    ensures IsDigit(c) && DigitValue(c) == d
  {
    ('0' as int + d) as char
  }

  /** The value of a string of decimal digits, most significant first
      (0 for the empty string). */
  function DigitsValue(s: string): nat
    requires AllDigits(s)
  {
    if s == [] then 0 else 10 * DigitsValue(s[..|s| - 1]) + DigitValue(s[|s| - 1])
  }

  /** Index of the first '.' in `t`, or |t| when there is none. */
  function FirstDot(t: string): (i: nat)
    ensures i <= |t|
  {
    if t == [] || t[0] == '.' then 0 else 1 + FirstDot(t[1..])
  }

  /** The value of an unsigned decimal numeral `digits`, `digits.`,
      `digits.digits` or `.digits`; None for any other text. */
  function DecimalValue(t: string): Option<real> {
    var i := FirstDot(t);
    if i == |t| then
      if t != [] && AllDigits(t) then Some(DigitsValue(t) as real) else None
    else PointValue(t[..i], t[i + 1..])
  }

  /** The value of the digits after a decimal point, 0.d1d2...dn, read
      from the right: each digit is added to the value of the digits after
      it and the sum moved one decimal place down. */
  function FractionValue(fraction: string): real
    requires AllDigits(fraction)
  {
    if fraction == [] then 0.0
    else (DigitValue(fraction[0]) as real + FractionValue(fraction[1..])) / 10.0
  }

  /** The digits after the point make a proper fraction: they never add a
      whole unit to the value. */
  lemma {:induction false} FractionValueBounds(fraction: string)
    requires AllDigits(fraction)
    ensures 0.0 <= FractionValue(fraction) < 1.0
  {
    if fraction != [] {
      FractionValueBounds(fraction[1..]);
    }
  }

  /** A fraction of zeros, such as the `.0` the feed writes after a count,
      is worth nothing. */
  lemma {:induction false} FractionValueOfZeros(fraction: string)
    requires forall i :: 0 <= i < |fraction| ==> fraction[i] == '0'
    ensures AllDigits(fraction) && FractionValue(fraction) == 0.0
  {
    if fraction != [] {
      FractionValueOfZeros(fraction[1..]);
    }
  }

  /** The value of `whole.fraction`, where at most one of the two parts
      may be empty; None when either holds a character that is not a
      digit. */
  function PointValue(whole: string, fraction: string): Option<real> {
    if (whole != [] || fraction != []) && AllDigits(whole) && AllDigits(fraction) then
      Some(DigitsValue(whole) as real + FractionValue(fraction))
    else None
  }

  /** `Number(t)` for a trimmed, non-empty `t`: an optional sign followed by
      an unsigned decimal numeral. */
  function NumberOf(t: string): Num {
    var signed := t != [] && (t[0] == '+' || t[0] == '-');
    var body := if signed then t[1..] else t;
    match DecimalValue(body)
    case Some(v) => if signed && t[0] == '-' then Value(-v) else Value(v)
    case None => Unparsed(t)
  }

  /** `parseNumber(input)`: 0 for blank input, `Number(input)` otherwise.
      Blank input is exactly the input that trims to nothing. */
  function ParseNumber(input: string): (r: Num)
    ensures IsBlank(input) ==> r == Value(0.0)
    ensures !IsBlank(input) ==> r == NumberOf(Trim(input))
  {
    TrimSpec(input);
    var t := Trim(input);
    if |t| == 0 then Value(0.0) else NumberOf(t)
  }

  /** A sign in front of an unsigned numeral: `+` keeps its value, `-`
      negates it, and neither turns an unreadable numeral into a number. */
  lemma NumberOfSigned(u: string)
    requires u != [] && u[0] != '+' && u[0] != '-'
    ensures NumberOf(['+'] + u).Value? <==> NumberOf(u).Value?
    ensures NumberOf(['-'] + u).Value? <==> NumberOf(u).Value?
    ensures NumberOf(u).Value? ==>
      NumberOf(['+'] + u) == NumberOf(u) && NumberOf(['-'] + u) == Value(-NumberOf(u).value)
  {
    assert (['+'] + u)[1..] == u;
    assert (['-'] + u)[1..] == u;
  }

  /** The decimal digits of `n`, no leading zeros: the way the data feed
      writes a count. */
  function ShowNat(n: nat): (s: string)
    ensures s != [] && AllDigits(s)
  {
    if n < 10 then [Digit(n)] else ShowNat(n / 10) + [Digit(n % 10)]
  }

  function ShowInt(n: int): (s: string) {
    if n < 0 then "-" + ShowNat(-n) else ShowNat(n)
  }

  lemma {:induction false} DigitsValueOfShowNat(n: nat)
    ensures DigitsValue(ShowNat(n)) == n
  {
    if n >= 10 {
      var s := ShowNat(n);
      assert s[..|s| - 1] == ShowNat(n / 10);
      DigitsValueOfShowNat(n / 10);
    }
  }

  lemma {:induction false} TrimStartPadded(p: string, u: string)
    requires IsBlank(p)
    requires u == [] || !IsWhitespace(u[0])
    ensures TrimStart(p + u) == u
  {
    if p == [] {
      assert p + u == u;
    } else {
      assert (p + u)[1..] == p[1..] + u;
      TrimStartPadded(p[1..], u);
    }
  }

  lemma {:induction false} TrimEndPadded(u: string, q: string)
    requires IsBlank(q)
    requires u == [] || !IsWhitespace(u[|u| - 1])
    ensures TrimEnd(u + q) == u
  {
    if q == [] {
      assert u + q == u;
    } else {
      assert (u + q)[..|u + q| - 1] == u + q[..|q| - 1];
      TrimEndPadded(u, q[..|q| - 1]);
    }
  }

  /** Trimming removes exactly the whitespace padding around a token that
      neither starts nor ends with whitespace. */
  lemma TrimPadded(p: string, t: string, q: string)
    requires IsBlank(p) && IsBlank(q)
    requires t != [] && !IsWhitespace(t[0]) && !IsWhitespace(t[|t| - 1])
    ensures Trim(p + t + q) == t
  {
    assert p + t + q == p + (t + q);
    TrimStartPadded(p, t + q);
    assert Trim(p + t + q) == TrimEnd(t + q);
    TrimEndPadded(t, q);
  }

  lemma {:induction false} FirstDotAfterDigits(digits: string, rest: string)
    requires AllDigits(digits)
    requires rest == [] || rest[0] == '.'
    ensures FirstDot(digits + rest) == |digits|
  {
    if digits == [] {
      assert digits + rest == rest;
    } else {
      assert (digits + rest)[1..] == digits[1..] + rest;
      FirstDotAfterDigits(digits[1..], rest);
    }
  }

  /** A digit string has no '.', so it is read whole. */
  lemma DecimalValueOfDigits(s: string)
    requires s != [] && AllDigits(s)
    ensures DecimalValue(s) == Some(DigitsValue(s) as real)
  {
    FirstDotAfterDigits(s, []);
    assert s + [] == s;
  }

  lemma NumberOfShowInt(n: int)
    ensures NumberOf(ShowInt(n)) == Value(n as real)
  {
    var m: nat := if n < 0 then -n else n;
    var digits := ShowNat(m);
    DigitsValueOfShowNat(m);
    DecimalValueOfDigits(digits);
    if n < 0 {
      assert ShowInt(n)[1..] == digits;
    }
  }

  /** Round trip: the numeral of any integer, with any whitespace around it,
      parses back to that integer. */
  lemma ParseNumberOfShowInt(p: string, n: int, q: string)
    requires IsBlank(p) && IsBlank(q)
    ensures ParseNumber(p + ShowInt(n) + q) == Value(n as real)
  {
    var t := ShowInt(n);
    assert !IsWhitespace(t[0]) && !IsWhitespace(t[|t| - 1]);
    TrimPadded(p, t, q);
    NumberOfShowInt(n);
  }

  /** A numeral is split at its first '.'. This and the next lemma only
      unfold a definition; as separate steps they keep the proofs that use
      them small. */
  lemma DecimalValueAtDot(t: string, i: nat)
    requires i == FirstDot(t) < |t|
    ensures DecimalValue(t) == PointValue(t[..i], t[i + 1..])
  {
  }

  /** Two digit strings around a point have the value of the first plus
      the fraction the second makes. */
  lemma PointValueOfDigits(whole: string, fraction: string)
    requires AllDigits(whole) && AllDigits(fraction) && (whole != [] || fraction != [])
    ensures PointValue(whole, fraction) == Some(DigitsValue(whole) as real + FractionValue(fraction))
  {
  }

  /** A numeral `whole.fraction` is read as its whole part plus its
      fraction, each digit of the fraction worth a tenth of the one
      before it. */
  lemma DecimalValueOfParts(whole: string, fraction: string)
    requires AllDigits(whole) && AllDigits(fraction) && (whole != [] || fraction != [])
    ensures DecimalValue(whole + ['.'] + fraction) ==
      Some(DigitsValue(whole) as real + FractionValue(fraction))
    ensures var t := whole + ['.'] + fraction;
      (t[0] == '.' || IsDigit(t[0])) && (t[|t| - 1] == '.' || IsDigit(t[|t| - 1]))
  {
    var t := whole + ['.'] + fraction;
    assert t[0] == '.' || IsDigit(t[0]);
    assert t[|t| - 1] == '.' || IsDigit(t[|t| - 1]);
    assert t == whole + (['.'] + fraction);
    FirstDotAfterDigits(whole, ['.'] + fraction);
    DecimalValueAtDot(t, |whole|);
    assert t[..|whole|] == whole;
    assert t[|whole| + 1..] == fraction;
    PointValueOfDigits(whole, fraction);
  }

  /** An unsigned numeral with whitespace around it parses to the value of
      the numeral. */
  lemma ParseNumberOfPadded(p: string, t: string, q: string, v: real)
    requires IsBlank(p) && IsBlank(q)
    requires t != [] && (t[0] == '.' || IsDigit(t[0])) && (t[|t| - 1] == '.' || IsDigit(t[|t| - 1]))
    requires DecimalValue(t) == Some(v)
    ensures ParseNumber(p + t + q) == Value(v)
  {
    TrimPadded(p, t, q);
  }

  /** Round trip for the decimal cells of the feed: a numeral with its
      decimal point at index `i`, digits before and after it, and any
      whitespace around it, parses to its value. */
  lemma ParseNumberOfDecimal(p: string, t: string, i: nat, q: string)
    requires IsBlank(p) && IsBlank(q)
    requires i < |t| && t[i] == '.' && AllDigits(t[..i]) && AllDigits(t[i + 1..]) && |t| > 1
    ensures ParseNumber(p + t + q) ==
      Value(DigitsValue(t[..i]) as real + FractionValue(t[i + 1..]))
  {
    var whole, fraction := t[..i], t[i + 1..];
    assert t == whole + ['.'] + fraction;
    DecimalValueOfParts(whole, fraction);
    ParseNumberOfPadded(p, t, q, DigitsValue(whole) as real + FractionValue(fraction));
  }

  /** A count the feed writes with a zero fraction, such as `12.0`, parses
      to the count. */
  lemma ParseNumberOfZeroFraction(p: string, n: nat, zeros: string, q: string)
    requires IsBlank(p) && IsBlank(q)
    requires forall i :: 0 <= i < |zeros| ==> zeros[i] == '0'
    ensures ParseNumber(p + (ShowNat(n) + ['.'] + zeros) + q) == Value(n as real)
  {
    FractionValueOfZeros(zeros);
    DigitsValueOfShowNat(n);
    var t := ShowNat(n) + ['.'] + zeros;
    assert t[..|ShowNat(n)|] == ShowNat(n) && t[|ShowNat(n)| + 1..] == zeros;
    ParseNumberOfDecimal(p, t, |ShowNat(n)|, q);
  }
}
