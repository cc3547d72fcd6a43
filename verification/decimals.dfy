/** Decimal numerals, as `std::to_chars` prints and `std::from_chars` reads them. */
module Decimals {
  import opened Base

  const ZERO: Byte := 0x30

  predicate IsDigit(c: Byte) {
    0x30 <= c <= 0x39
  }

  predicate AllDigits(t: Text) {
    forall i :: 0 <= i < |t| ==> IsDigit(t[i])
  }

  /** The number a run of digits denotes, leading zeros allowed. */
  function ValueOf(t: Text): nat
    requires AllDigits(t)
  {
    if t == [] then 0 else 10 * ValueOf(t[..|t| - 1]) + (t[|t| - 1] - ZERO)
  }

  function Decimal(n: nat): (t: Text)
    ensures t != [] && AllDigits(t)
    ensures ValueOf(t) == n
    ensures |t| > 1 ==> t[0] != ZERO
  {
    if n < 10 then [ZERO + n] else
      var head := Decimal(n / 10);
      var t := head + [ZERO + n % 10];
      assert t[..|t| - 1] == head;
      t
  }

  function Pow10(w: nat): (p: nat)
    ensures p > 0
  {
    if w == 0 then 1 else 10 * Pow10(w - 1)
  }

  /** A number below 10^w needs at most w digits. */
  lemma {:induction false} DecimalWidth(n: nat, w: nat)
    requires w > 0 && n < Pow10(w)
    ensures |Decimal(n)| <= w
  {
    if n >= 10 {
      assert Pow10(1) == 10 * Pow10(0);
      DecimalWidth(n / 10, w - 1);
    }
  }

  // ------------------------------------------------------------------ signed numbers

  const MINUS: Byte := 0x2D

  /** `std::from_chars` over the whole text: an optional minus sign and digits, in range. */
  function ReadInt(text: Text): Option<Int64> {
    var negative := text != [] && text[0] == MINUS;
    var digits := if negative then text[1..] else text;
    if digits == [] || !AllDigits(digits) then None
    else
      var n: int := if negative then -(ValueOf(digits) as int) else ValueOf(digits);
      if -0x8000_0000_0000_0000 <= n < 0x8000_0000_0000_0000 then Some(n) else None
  }

  function Magnitude(n: Int64): nat {
    if n < 0 then -(n as int) else n
  }

  function ShowInt(n: Int64): (text: Text)
    ensures text != []
  {
    if n < 0 then [MINUS] + Decimal(Magnitude(n)) else Decimal(n)
  }

  lemma ReadShownInt(n: Int64)
    ensures ReadInt(ShowInt(n)) == Some(n)
  {
    hide Decimal, ValueOf;
    var text := ShowInt(n);
    if n < 0 {
      assert text[1..] == Decimal(Magnitude(n));
    }
  }
}
