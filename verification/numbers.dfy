/**
 * Decimal integers: the subset of Python's `int(text)` the parser relies on
 * for markings and weights, and Python's `str(n)` used by the summary.
 */
module Numbers {

  import opened Results

  predicate IsDigit(c: char) {
    '0' <= c <= '9'
  }

  predicate AllDigits(s: string) {
    forall k :: 0 <= k < |s| ==> IsDigit(s[k])
  }

  /** Value of a run of decimal digits, most significant digit first. */
  function DigitsValue(s: string): nat
    requires AllDigits(s)
  {
    if s == [] then 0
    else 10 * DigitsValue(s[..|s| - 1]) + (s[|s| - 1] as int - '0' as int)
  }

  /** An optional `+` or `-` followed by at least one decimal digit. */
  predicate IsIntLiteral(s: string) {
    if |s| > 0 && (s[0] == '+' || s[0] == '-') then |s| > 1 && AllDigits(s[1..])
    else |s| > 0 && AllDigits(s)
  }

  /** A lone digit is the literal of its own value. */
  lemma ParseDigit(c: char)
    requires IsDigit(c)
    ensures ParseInt([c]) == Some(c as int - '0' as int)
  {
    var s := [c];
    assert AllDigits(s) && !(s[0] == '+' || s[0] == '-');
    assert s[..0] == [];
    assert DigitsValue(s) == 10 * DigitsValue([]) + (c as int - '0' as int);
  }

  function DigitChar(d: nat): (c: char)
    requires d < 10
    ensures IsDigit(c) && c as int - '0' as int == d
  {
    ('0' as int + d) as char
  }

  /** The decimal digits of `n` without leading zeros. */
  function NatToString(n: nat): (r: string)
    ensures |r| >= 1 && AllDigits(r)
    ensures r[0] == '0' ==> n == 0
  {
    if n < 10 then [DigitChar(n)]
    else NatToString(n / 10) + [DigitChar(n % 10)]
  }

  /** Reading the digits of `n` back gives `n`. */
  lemma {:induction false} NatToStringValue(n: nat)
    ensures DigitsValue(NatToString(n)) == n
  {
    if n >= 10 {
      var r := NatToString(n);
      assert r[..|r| - 1] == NatToString(n / 10);
      NatToStringValue(n / 10);
    }
  }

  /** Python's `str(n)` for an integer: a `-` for negatives, then the
      digits of the magnitude. */
  function IntToString(n: int): (r: string)
    ensures |r| >= 1 && (r[0] == '-' || IsDigit(r[0]))
    ensures forall k :: 0 < k < |r| ==> IsDigit(r[k])
  {
    if n < 0 then "-" + NatToString(-n) else NatToString(n)
  }

  /** A run of digits with its leading zeros dropped, keeping at least one
      digit. */
  function DropZeros(ds: string): (r: string)
    ensures |r| <= |ds| && r == ds[|ds| - |r|..]
    ensures |ds| >= 1 ==> |r| >= 1 && (r[0] == '0' ==> |r| == 1)
  {
    if |ds| > 1 && ds[0] == '0' then DropZeros(ds[1..]) else ds
  }

  /** How Python prints the integer an integer literal denotes: no `+`, no
      leading zeros, and no sign on zero. */
  function Canonical(s: string): string
    requires IsIntLiteral(s)
  {
    var digits := DropZeros(if s[0] == '+' || s[0] == '-' then s[1..] else s);
    if s[0] == '-' && digits != "0" then "-" + digits else digits
  }

  /** `int(s)` for an already stripped `s`; `None` where Python raises
      ValueError. The value is the one whose `str` is the literal's
      canonical spelling, which pins it down: `str` is injective on
      integers (`IntToStringRoundTrip`). */
  function ParseInt(s: string): (r: Option<int>)
    ensures r.Some? <==> IsIntLiteral(s)
    ensures r.Some? && s[0] == '-' ==> r.value <= 0
    ensures r.Some? && s[0] != '-' ==> r.value >= 0
    ensures r.Some? ==> IsIntLiteral(s) && IntToString(r.value) == Canonical(s)
  {
    if |s| > 0 && (s[0] == '+' || s[0] == '-') then
      if |s| > 1 && AllDigits(s[1..]) then
        var v: int := DigitsValue(s[1..]);
        DigitsCanonical(s[1..]);
        Some(if s[0] == '-' then -v else v)
      else None
    else if |s| > 0 && AllDigits(s) then
      DigitsCanonical(s);
      Some(DigitsValue(s))
    else None
  }

  /** A leading zero adds nothing to the value. */
  lemma {:induction false} LeadingZero(ds: string)
    requires |ds| >= 1 && AllDigits(ds) && ds[0] == '0'
    ensures DigitsValue(ds) == DigitsValue(ds[1..])
    decreases |ds|
  {
    var n := |ds|;
    if n == 1 {
      assert ds[..0] == [] && ds[1..] == [];
    } else {
      var init := ds[..n - 1];
      LeadingZero(init);
      assert init[1..] == ds[1..][..n - 2];
      assert ds[1..][n - 2] == ds[n - 1];
    }
  }

  /** Dropping leading zeros keeps the value. */
  lemma {:induction false} DropZerosValue(ds: string)
    requires AllDigits(ds)
    ensures AllDigits(DropZeros(ds))
    ensures DigitsValue(DropZeros(ds)) == DigitsValue(ds)
    decreases |ds|
  {
    if |ds| > 1 && ds[0] == '0' {
      LeadingZero(ds);
      DropZerosValue(ds[1..]);
    }
  }

  /** Digits that do not start with a zero denote a positive number. */
  lemma {:induction false} DigitsValuePositive(ds: string)
    requires |ds| >= 1 && AllDigits(ds) && ds[0] != '0'
    ensures DigitsValue(ds) >= 1
    decreases |ds|
  {
    if |ds| > 1 {
      DigitsValuePositive(ds[..|ds| - 1]);
    }
  }

  /** Digits without superfluous leading zeros are the digits of their
      value. */
  lemma {:induction false} CanonicalDigits(ds: string)
    requires |ds| >= 1 && AllDigits(ds) && (ds[0] == '0' ==> |ds| == 1)
    ensures NatToString(DigitsValue(ds)) == ds
    decreases |ds|
  {
    var n := |ds|;
    var d := ds[n - 1] as int - '0' as int;
    if n == 1 {
      assert ds[..0] == [];
      assert DigitChar(d) == ds[0];
    } else {
      var init := ds[..n - 1];
      DigitsValuePositive(init);
      CanonicalDigits(init);
      var v := DigitsValue(ds);
      assert v == 10 * DigitsValue(init) + d;
      assert v / 10 == DigitsValue(init) && v % 10 == d;
      assert DigitChar(d) == ds[n - 1];
      assert ds == init + [ds[n - 1]];
    }
  }

  /** Printing the value of a digit run gives the run without its leading
      zeros. */
  lemma DigitsCanonical(ds: string)
    requires |ds| >= 1 && AllDigits(ds)
    ensures NatToString(DigitsValue(ds)) == DropZeros(ds)
    ensures DropZeros(ds) != "0" ==> DigitsValue(ds) >= 1
  {
    DropZerosValue(ds);
    CanonicalDigits(DropZeros(ds));
    if DropZeros(ds) != "0" {
      DigitsValuePositive(DropZeros(ds));
    }
  }

  /** `int(str(n)) == n`: every rendered count, weight or marking reads
      back as the integer it came from. */
  lemma IntToStringRoundTrip(n: int)
    ensures ParseInt(IntToString(n)) == Some(n)
  {
    var r := IntToString(n);
    if n < 0 {
      assert r[1..] == NatToString(-n);
      NatToStringValue(-n);
    } else {
      NatToStringValue(n);
    }
  }
}
