/**
 * Python's `str(n)` for integers and `int(s)` for strings, as far as the
 * session code relies on them: user ids are stored in the session store
 * and in the `sub` claim as `str(user.id)` and read back with `int(...)`,
 * which can fail.
 */
module PyInt {
  import opened Wrappers

  predicate IsDigit(c: char) { '0' <= c <= '9' }

  predicate AllDigits(s: string) { forall i :: 0 <= i < |s| ==> IsDigit(s[i]) }

  function DigitChar(d: nat): (c: char)
    requires d < 10
    ensures IsDigit(c) && c as int - '0' as int == d
  {
    "0123456789"[d]
  }

  function DigitValue(c: char): nat
    requires IsDigit(c)
  {
    c as int - '0' as int
  }

  /** Decimal digits of n, most significant first, no leading zeros. */
  function NatToString(n: nat): (s: string)
    ensures |s| >= 1 && AllDigits(s)
    ensures n >= 10 ==> |s| >= 2
  {
    if n < 10 then [DigitChar(n)] else NatToString(n / 10) + [DigitChar(n % 10)]
  }

  /** `str(n)`: a minus sign for negative numbers, then the digits. */
  function IntToString(n: int): (s: string)
    ensures |s| >= 1 && IsDigit(s[|s| - 1])
    ensures n < 0 <==> s[0] == '-'
  {
    if n < 0 then "-" + NatToString(-n) else NatToString(n)
  }

  /** The value of a run of decimal digits (the empty run is 0). */
  function DigitsValue(s: string): nat
    requires AllDigits(s)
  {
    if s == [] then 0 else DigitsValue(s[..|s| - 1]) * 10 + DigitValue(s[|s| - 1])
  }

  /** The ASCII characters `int()` ignores around a number: tab to carriage return, and space. */
  predicate IsSpace(c: char) { '\t' <= c <= '\r' || c == ' ' }

  /** `s` without its leading whitespace: a suffix of `s` whose first character is not a space. */
  function TrimLeft(s: string): (r: string)
    ensures |r| <= |s| && r == s[|s| - |r|..]
    ensures forall i :: 0 <= i < |s| - |r| ==> IsSpace(s[i])
    ensures r != [] ==> !IsSpace(r[0])
  {
    if s != [] && IsSpace(s[0]) then TrimLeft(s[1..]) else s
  }

  /** `s` without its trailing whitespace: a prefix of `s` whose last character is not a space. */
  function TrimRight(s: string): (r: string)
    ensures |r| <= |s| && r == s[..|r|]
    ensures forall i :: |r| <= i < |s| ==> IsSpace(s[i])
    ensures r != [] ==> !IsSpace(r[|r| - 1])
  {
    if s != [] && IsSpace(s[|s| - 1]) then TrimRight(s[..|s| - 1]) else s
  }

  /** Digits with single underscores between them, as `int()` admits. */
  predicate WellFormedDigits(b: string)
  {
    && |b| >= 1 && IsDigit(b[0]) && IsDigit(b[|b| - 1])
    && (forall i :: 0 <= i < |b| ==> IsDigit(b[i]) || b[i] == '_')
    && (forall i :: 0 <= i < |b| - 1 ==> b[i] == '_' ==> b[i + 1] != '_')
  }

  function RemoveUnderscores(b: string): (r: string)
    ensures (forall i :: 0 <= i < |b| ==> IsDigit(b[i]) || b[i] == '_') ==> AllDigits(r)
  {
    if b == [] then [] else (if b[0] == '_' then [] else [b[0]]) + RemoveUnderscores(b[1..])
  }

  /**
   * The most digits `int()` converts and `str()` writes (Python 3.11's
   * default integer string conversion length limit); a longer numeral is a
   * ValueError. Underscores do not count, leading zeros do.
   */
  const MaxStrDigits := 4300

  /** `str(n)` stays within the conversion limit. */
  predicate WithinDigitLimit(n: int)
  {
    |NatToString(if n < 0 then -n else n)| <= MaxStrDigits
  }

  /** The characters a string `int()` reads may hold. */
  predicate NumeralChar(c: char) { IsDigit(c) || IsSpace(c) || c == '+' || c == '-' || c == '_' }

  /**
   * `int()` once the whitespace is gone: an optional sign followed by
   * digits that may be grouped with single underscores.
   */
  function ParseTrimmed(t: string): Option<int>
  {
    if t == [] then None
    else
      var negative := t[0] == '-';
      var body := if t[0] == '-' || t[0] == '+' then t[1..] else t;
      if !WellFormedDigits(body) then None
      else
        var magnitude: int := DigitsValue(RemoveUnderscores(body));
        Some(if negative then -magnitude else magnitude)
  }

  /** What `ParseTrimmed` reads holds only numeral characters and ends in a digit. */
  lemma ParseTrimmedReadsNumerals(t: string)
    ensures ParseTrimmed(t).Some? ==> forall i :: 0 <= i < |t| ==> NumeralChar(t[i])
    ensures ParseTrimmed(t).Some? ==> t != [] && IsDigit(t[|t| - 1])
  {
    if ParseTrimmed(t).Some? {
      var body := if t[0] == '-' || t[0] == '+' then t[1..] else t;
      assert WellFormedDigits(body);
      assert t[|t| - 1] == body[|body| - 1];
    }
  }

  /**
   * `t` is `s` with whitespace cut from both ends (first to `l`, then to
   * `t`): numeral characters and a final digit in `t` carry over to `s`.
   */
  lemma NumeralAround(s: string, l: string, t: string)
    requires |l| <= |s| && l == s[|s| - |l|..]
    requires forall i :: 0 <= i < |s| - |l| ==> IsSpace(s[i])
    requires |t| <= |l| && t == l[..|t|]
    requires forall i :: |t| <= i < |l| ==> IsSpace(l[i])
    ensures (forall i :: 0 <= i < |t| ==> NumeralChar(t[i])) ==> forall i :: 0 <= i < |s| ==> NumeralChar(s[i])
    ensures t != [] && IsDigit(t[|t| - 1]) ==> exists i :: 0 <= i < |s| && IsDigit(s[i])
  {
    var k := |s| - |l|;
    if forall i :: 0 <= i < |t| ==> NumeralChar(t[i]) {
      forall i | 0 <= i < |s| ensures NumeralChar(s[i]) {
        if i >= k {
          assert s[i] == l[i - k];
          if i - k < |t| {
            assert l[i - k] == t[i - k];
          }
        }
      }
    }
    if t != [] && IsDigit(t[|t| - 1]) {
      assert s[k + |t| - 1] == l[|t| - 1] == t[|t| - 1];
    }
  }

  /**
   * `int(s)`: surrounding whitespace is ignored, an optional sign is
   * followed by digits that may be grouped with single underscores;
   * anything else is a ValueError, here `None`. This is the integer the
   * numeral denotes, however long it is.
   */
  function ParseNumeral(s: string): Option<int>
  {
    ParseTrimmed(TrimRight(TrimLeft(s)))
  }

  /** How many decimal digits `s` holds. */
  function DigitCount(s: string): (n: nat)
    ensures n <= |s|
  {
    if s == [] then 0 else (if IsDigit(s[0]) then 1 else 0) + DigitCount(s[1..])
  }

  /**
   * `int(s)`: the numeral's value, except that a numeral of more than
   * `MaxStrDigits` digits is a ValueError as well.
   */
  function ParseInt(s: string): Option<int>
  {
    if DigitCount(s) > MaxStrDigits then None else ParseNumeral(s)
  }

  /**
   * A string `int()` reads holds nothing but whitespace, signs, digits and
   * underscores, and at least one digit; a numeral of more than
   * `MaxStrDigits` digits is refused however it is written.
   */
  lemma ParseIntReadsNumerals(s: string)
    ensures ParseInt(s).Some? <==> DigitCount(s) <= MaxStrDigits && ParseNumeral(s).Some?
    ensures ParseInt(s).Some? ==> ParseInt(s) == ParseNumeral(s)
    ensures ParseInt(s).Some? ==> forall i :: 0 <= i < |s| ==> NumeralChar(s[i])
    ensures ParseInt(s).Some? ==> exists i :: 0 <= i < |s| && IsDigit(s[i])
  {
    if ParseNumeral(s).Some? {
      ParseTrimmedReadsNumerals(TrimRight(TrimLeft(s)));
      NumeralAround(s, TrimLeft(s), TrimRight(TrimLeft(s)));
    }
  }

  lemma {:induction false} DigitsOfNat(n: nat)
    ensures DigitsValue(NatToString(n)) == n
  {
    if n >= 10 {
      var s := NatToString(n);
      assert s[..|s| - 1] == NatToString(n / 10);
      DigitsOfNat(n / 10);
    }
  }

  lemma {:induction false} NoUnderscores(b: string)
    requires AllDigits(b)
    ensures RemoveUnderscores(b) == b
  {
    if b != [] {
      NoUnderscores(b[1..]);
    }
  }

  /** A string that neither starts nor ends with whitespace is left as it is by the trimming. */
  lemma TrimNothing(s: string)
    requires s != [] && !IsSpace(s[0]) && !IsSpace(s[|s| - 1])
    ensures ParseNumeral(s) == ParseTrimmed(s)
  {
    assert TrimLeft(s) == s;
    assert TrimRight(s) == s;
  }

  /** A run of digits is well formed: it has no underscores at all. */
  lemma DigitsWellFormed(b: string)
    requires b != [] && AllDigits(b)
    ensures WellFormedDigits(b) && RemoveUnderscores(b) == b
  {
    assert IsDigit(b[0]) && IsDigit(b[|b| - 1]);
    NoUnderscores(b);
  }

  /** The digits of a natural number read back as that number. */
  lemma ParseNatDigits(s: string, m: nat)
    requires s == NatToString(m)
    ensures ParseNumeral(s) == Some(m)
  {
    TrimNothing(s);
    DigitsWellFormed(s);
    assert s[0] != '-' && s[0] != '+';
    DigitsOfNat(m);
  }

  /** A minus sign followed by the digits of a natural number reads back as its negation. */
  lemma ParseNegatedNatDigits(s: string, m: nat)
    requires |s| >= 2 && s[0] == '-' && s[1..] == NatToString(m)
    ensures ParseNumeral(s) == Some(-(m as int))
  {
    assert IsDigit(s[|s| - 1]) by { assert s[|s| - 1] == s[1..][|s| - 2]; }
    TrimNothing(s);
    DigitsWellFormed(s[1..]);
    DigitsOfNat(m);
  }

  /** The numeral `str(n)` writes denotes n, for every integer. */
  lemma ParseNumeralToString(n: int)
    ensures ParseNumeral(IntToString(n)) == Some(n)
  {
    var s := IntToString(n);
    if n < 0 {
      assert s[1..] == NatToString(-n);
      ParseNegatedNatDigits(s, -n);
    } else {
      ParseNatDigits(s, n);
    }
  }

  lemma {:induction false} DigitCountOfDigits(s: string)
    requires AllDigits(s)
    ensures DigitCount(s) == |s|
  {
    if s != [] {
      DigitCountOfDigits(s[1..]);
    }
  }

  /**
   * `int(str(n)) == n` for every integer of at most `MaxStrDigits` digits;
   * a longer one (which `str` itself would refuse) is not read back.
   */
  lemma ParseIntToString(n: int)
    ensures ParseInt(IntToString(n)) == if WithinDigitLimit(n) then Some(n) else None
  {
    var s := IntToString(n);
    ParseNumeralToString(n);
    if n < 0 {
      assert s[1..] == NatToString(-n);
      DigitCountOfDigits(s[1..]);
    } else {
      DigitCountOfDigits(s);
    }
  }

  function Pow10(k: nat): (p: nat)
    ensures p >= 1
  {
    if k == 0 then 1 else 10 * Pow10(k - 1)
  }

  /** A number below 10^k has at most k digits. */
  lemma {:induction false} NatToStringLength(m: nat, k: nat)
    requires k >= 1 && m < Pow10(k)
    ensures |NatToString(m)| <= k
  {
    if m >= 10 {
      assert k >= 2;
      assert m / 10 < Pow10(k - 1);
      NatToStringLength(m / 10, k - 1);
    }
  }

  /**
   * Every number of at most ten digits, and so every PostgreSQL INTEGER,
   * is within the limit and reads back as itself.
   */
  lemma TenDigitsRoundTrip(n: int)
    requires -10_000_000_000 < n < 10_000_000_000
    ensures WithinDigitLimit(n)
    ensures ParseInt(IntToString(n)) == Some(n)
  {
    assert Pow10(10) == 10_000_000_000 by {
      assert Pow10(5) == 100_000;
    }
    NatToStringLength(if n < 0 then -n else n, 10);
    ParseIntToString(n);
  }

  /** `str` is injective on integers. */
  lemma IntToStringInjective(m: int, n: int)
    ensures IntToString(m) == IntToString(n) <==> m == n
  {
    if IntToString(m) == IntToString(n) {
      var s := IntToString(m);
      if m < 0 {
        assert s[1..] == NatToString(-m) == NatToString(-n);
      }
      DigitsOfNat(if m < 0 then -m else m);
      DigitsOfNat(if n < 0 then -n else n);
    }
  }
}
