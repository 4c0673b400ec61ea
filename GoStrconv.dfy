/** Go's `strconv.Itoa` and `strconv.Atoi` on a 64-bit platform: decimal
    text to and from `int`. */
module GoStrconv {
  import opened GoTypes

  const Zero: byte := 48
  const Minus: byte := 45
  const Plus: byte := 43

  predicate IsDigit(b: byte) {
    Zero <= b <= Zero + 9
  }

  predicate AllDigits(s: Bytes) {
    forall i :: 0 <= i < |s| ==> IsDigit(s[i])
  }

  /** The value of a string of decimal digits, most significant first. */
  function DigitsValue(s: Bytes): (v: nat)
    requires AllDigits(s)
  {
    if |s| == 0 then 0
    else DigitsValue(s[..|s| - 1]) * 10 + (s[|s| - 1] - Zero) as int
  }

  /** The shortest decimal digits of `n`. */
  function Digits(n: nat): (r: Bytes)
    ensures |r| >= 1 && AllDigits(r)
  {
    if n < 10 then [Zero + n as byte]
    else Digits(n / 10) + [Zero + (n % 10) as byte]
  }

  lemma {:induction false} DigitsValueOfDigits(n: nat)
    ensures DigitsValue(Digits(n)) == n
  {
    if n >= 10 {
      var d := Digits(n);
      DigitsValueOfDigits(n / 10);
      assert d[..|d| - 1] == Digits(n / 10);
    }
  }

  /** `strconv.Itoa(n)`: a minus sign for negative `n`, then the digits of
      its magnitude. */
  function Itoa(n: int): (r: Bytes)
    ensures |r| >= 1
  {
    if n < 0 then [Minus] + Digits(-n) else Digits(n)
  }

  /** The text `Atoi` can read: one or more digits, possibly after a single
      `+` or `-`. */
  predicate IsDecimalText(s: Bytes) {
    || (|s| >= 1 && AllDigits(s))
    || (|s| >= 2 && (s[0] == Minus || s[0] == Plus) && AllDigits(s[1..]))
  }

  /** `strconv.Atoi(s)`: an optional `+` or `-`, then one or more decimal
      digits, whose value must fit in 64 bits; anything else is an error
      (`None`). Leading zeros are accepted. */
  function Atoi(s: Bytes): (r: Option<int>)
    ensures r.Some? ==> IsInt64(r.value)
    ensures r.Some? ==> exists i :: 0 <= i < |s| && IsDigit(s[i])
    ensures r.Some? ==> IsDecimalText(s)
  {
    if |s| == 0 then None
    else
      var body := if s[0] == Minus || s[0] == Plus then s[1..] else s;
      if |body| == 0 || !AllDigits(body) then None
      else
        assert IsDigit(s[|s| - 1]);
        var v: int := if s[0] == Minus then -(DigitsValue(body) as int) else DigitsValue(body);
        if IsInt64(v) then Some(v) else None
  }

  /** What `Atoi` reads from digits without a sign: their value, when it
      fits in 64 bits, and an error otherwise. Together with `AtoiNegative`,
      `AtoiPositive` and `Atoi`'s own contract, which rejects every other text, this fixes
      `Atoi` on all inputs. */
  lemma AtoiUnsigned(d: Bytes)
    requires |d| >= 1 && AllDigits(d)
    ensures Atoi(d) == if IsInt64(DigitsValue(d)) then Some(DigitsValue(d)) else None
  {
    assert IsDigit(d[0]);
  }

  /** What `Atoi` reads from `-` followed by digits: the negated value,
      when it fits in 64 bits, and an error otherwise. */
  lemma AtoiNegative(d: Bytes)
    requires |d| >= 1 && AllDigits(d)
    ensures var v: int := -(DigitsValue(d) as int);
      Atoi([Minus] + d) == if IsInt64(v) then Some(v) else None
  {
    var s := [Minus] + d;
    assert s[0] == Minus && s[1..] == d;
  }

  /** What `Atoi` reads from `+` followed by digits: their value, when it
      fits in 64 bits, and an error otherwise. */
  lemma AtoiPositive(d: Bytes)
    requires |d| >= 1 && AllDigits(d)
    ensures Atoi([Plus] + d) == if IsInt64(DigitsValue(d)) then Some(DigitsValue(d)) else None
  {
    var s := [Plus] + d;
    assert s[0] == Plus && s[0] != Minus && s[1..] == d;
  }

  /** Every 64-bit integer survives `Itoa` followed by `Atoi`. */
  lemma AtoiItoa(n: int)
    requires IsInt64(n)
    ensures Atoi(Itoa(n)) == Some(n)
  {
    var s := Itoa(n);
    var d := Digits(if n < 0 then -n else n);
    DigitsValueOfDigits(if n < 0 then -n else n);
    assert IsDigit(d[0]);
    if n < 0 {
      assert s == [Minus] + d && s[1..] == d;
    } else {
      assert s == d && s[0] != Minus && s[0] != Plus;
    }
  }
}
