/** Decimal numbers as the metadata file holds them: printing with %lld, reading with atoll. */
module Decimals {
  import opened Text

  predicate IsDigit(c: char) {
    '0' <= c <= '9'
  }

  // The printed forms of a natural number and of an integer.
  function Digits(n: nat): (s: string)
    ensures s != "" && forall i :: 0 <= i < |s| ==> IsDigit(s[i])
  {
    if n < 10 then [Digit(n)] else Digits(n / 10) + [Digit(n % 10)]
  }

  function Digit(d: nat): (c: char)
    requires d < 10
    ensures IsDigit(c)
  {
    '0' + d as char
  }

  function Decimal(n: int): (s: string)
    ensures s != "" && forall i :: 0 <= i < |s| ==> IsDigit(s[i]) || s[i] == '-'
  {
    if n < 0 then "-" + Digits(-n) else Digits(n)
  }

  // The value of the digits that a text starts with.
  function Leading(s: string): (n: nat)
    ensures n <= |s| && (forall i :: 0 <= i < n ==> IsDigit(s[i])) && (n < |s| ==> !IsDigit(s[n]))
  {
    if s != "" && IsDigit(s[0]) then 1 + Leading(s[1..]) else 0
  }

  function Value(s: string): nat
    requires forall i :: 0 <= i < |s| ==> IsDigit(s[i])
  {
    if s == "" then 0
    else
      assert IsDigit(s[|s| - 1]);
      Value(s[..|s| - 1]) * 10 + (s[|s| - 1] - '0') as nat
  }

  function Unsigned(s: string): nat {
    Value(s[..Leading(s)])
  }

  // atoll and atoi: white space, a sign, digits; whatever follows is ignored.
  function Number(s: string): int {
    var t := TrimLeft(s);
    if t != "" && t[0] == '-' then 0 - Unsigned(t[1..])
    else if t != "" && t[0] == '+' then Unsigned(t[1..])
    else Unsigned(t)
  }

  method ReadNumber(s: string) returns (n: int)
    ensures n == Number(s)
  {
    var t := s;
    while t != "" && IsSpace(t[0])
      invariant TrimLeft(t) == TrimLeft(s)
      decreases |t|
    {
      t := t[1..];
    }
    var negative := t != "" && t[0] == '-';
    if t != "" && (t[0] == '-' || t[0] == '+') {
      t := t[1..];
    }
    var i, v := 0, 0;
    while i < |t| && IsDigit(t[i])
      invariant i <= |t| && (forall j :: 0 <= j < i ==> IsDigit(t[j])) && v == Value(t[..i])
    {
      assert t[..i + 1][..i] == t[..i];
      v := v * 10 + (t[i] - '0') as nat;
      i := i + 1;
    }
    LeadingIs(t, i);
    return if negative then -v else v;
  }

  lemma LeadingIs(s: string, n: nat)
    requires n <= |s| && (forall i :: 0 <= i < n ==> IsDigit(s[i])) && (n < |s| ==> !IsDigit(s[n]))
    ensures Leading(s) == n
  {
    var l := Leading(s);
    assert !(l < n) && !(n < l);
  }

  lemma {:induction false} ValueOfDigits(n: nat)
    ensures Value(Digits(n)) == n
  {
    if n >= 10 {
      ValueOfDigits(n / 10);
      assert Digits(n)[..|Digits(n)| - 1] == Digits(n / 10);
    }
  }

  // What is printed is read back.
  lemma NumberOfDecimal(n: int)
    ensures Number(Decimal(n)) == n
  {
    var s := Decimal(n);
    assert !IsSpace(s[0]);
    var t := Digits(if n < 0 then -n else n);
    assert s == if n < 0 then "-" + t else t;
    assert n < 0 ==> s[1..] == t;
    LeadingIs(t, |t|);
    assert t[..|t|] == t;
    ValueOfDigits(if n < 0 then -n else n);
  }

  // White space in front, a sign, and what follows the digits make no difference but for the sign.
  lemma NumberReads(space: string, sign: string, n: nat, rest: string)
    requires AllSpace(space) && (sign == "" || sign == "+" || sign == "-")
    requires rest != "" ==> !IsDigit(rest[0])
    ensures Number(space + (sign + (Digits(n) + rest))) == if sign == "-" then 0 - n else n
  {
    var t := Digits(n) + rest;
    UnsignedReads(n, rest);
    assert sign != "" ==> (sign + t)[1..] == t;
    assert sign == "" ==> sign + t == t;
    SpaceGoes(space, sign + t);
  }

  lemma UnsignedReads(n: nat, rest: string)
    requires rest != "" ==> !IsDigit(rest[0])
    ensures Unsigned(Digits(n) + rest) == n
  {
    var t := Digits(n) + rest;
    LeadingIs(t, |Digits(n)|);
    assert t[..|Digits(n)|] == Digits(n);
    ValueOfDigits(n);
  }

  // A text without digits at that place reads as zero.
  lemma NoNumber(space: string, rest: string)
    requires AllSpace(space)
    requires rest != "" ==> !IsSpace(rest[0]) && !IsDigit(rest[0]) && rest[0] != '+' && rest[0] != '-'
    ensures Number(space + rest) == 0
  {
    SpaceGoes(space, rest);
    assert rest[..0] == "";
  }

  lemma {:induction false} SpaceGoes(space: string, t: string)
    requires AllSpace(space) && (t != "" ==> !IsSpace(t[0]))
    ensures TrimLeft(space + t) == t
  {
    if space != "" {
      SpaceGoes(space[1..], t);
      assert (space + t)[1..] == space[1..] + t;
    } else {
      assert space + t == t;
    }
  }

  function Pow10(k: nat): nat {
    if k == 0 then 1 else Pow10(k - 1) * 10
  }

  lemma {:induction false} DigitsLength(n: nat, k: nat)
    requires k > 0 && n < Pow10(k)
    ensures |Digits(n)| <= k
  {
    if n >= 10 {
      assert k > 1;
      DigitsLength(n / 10, k - 1);
    }
  }

  // The ranges of the signed integers of 64 and 32 bits, and the width of the printed form.
  predicate Fits64(n: int) {
    -0x8000_0000_0000_0000 <= n < 0x8000_0000_0000_0000
  }

  predicate Fits32(n: int) {
    -0x8000_0000 <= n < 0x8000_0000
  }

  lemma DecimalLength(n: int)
    requires Fits64(n)
    ensures |Decimal(n)| <= 20
  {
    assert Pow10(5) == 100000;
    assert Pow10(10) == 10000000000;
    assert Pow10(15) == 1000000000000000;
    assert Pow10(19) == 10000000000000000000;
    DigitsLength(if n < 0 then -n else n, 19);
  }
}
