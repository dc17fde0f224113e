/** Decimal numbers as bytes: written with a fixed width, and read whatever their length. */
module Decimal {
  import opened Bytes
  import opened Sorting

  function Pow10(width: nat): nat {
    if width == 0 then 1 else 10 * Pow10(width - 1)
  }

  /** The last `width` decimal digits. */
  function Digits(n: nat, width: nat): (s: bytes)
    ensures |s| == width
    decreases n, width
  {
    if width == 0 then [] else Digits(n / 10, width - 1) + [48 + n % 10]
  }

  lemma {:induction false} DigitsOrder(m: nat, n: nat, width: nat)
    requires m < n < Pow10(width)
    ensures CompareBytes(Digits(m, width), Digits(n, width)) == -1
    decreases width
  {
    var x: bytes, y: bytes := [48 + m % 10], [48 + n % 10];
    CompareAppend(Digits(m / 10, width - 1), Digits(n / 10, width - 1), x, y);
    if m / 10 < n / 10 {
      DigitsOrder(m / 10, n / 10, width - 1);
    } else {
      assert m / 10 == n / 10 && m % 10 < n % 10;
      assert x[0] < y[0];
    }
  }

  // ---- reading --------------------------------------------------------------------------------------------------

  predicate IsDigit(c: byte) {
    48 <= c <= 57
  }

  predicate AllDigits(s: bytes) {
    forall i | 0 <= i < |s| :: IsDigit(s[i])
  }

  /** The number a run of digits stands for, however long. */
  function Value(s: bytes): nat
    requires AllDigits(s)
  {
    if s == [] then 0 else 10 * Value(s[..|s| - 1]) + (s[|s| - 1] - 48)
  }

  /** Without leading zeros. */
  function Strip(s: bytes): (r: bytes)
    ensures AllDigits(s) ==> AllDigits(r)
    ensures r != [] ==> r[0] != 48
  {
    if s != [] && s[0] == 48 then Strip(s[1..]) else s
  }

  lemma {:induction false} ValueOfZero(s: bytes)
    requires AllDigits(s)
    ensures Value([48] + s) == Value(s)
  {
    if s == [] {
      assert ([48] + s)[..0] == [];
    } else {
      assert ([48] + s)[..|s|] == [48] + s[..|s| - 1];
      ValueOfZero(s[..|s| - 1]);
    }
  }

  lemma {:induction false} StripKeepsValue(s: bytes)
    requires AllDigits(s)
    ensures Value(Strip(s)) == Value(s)
  {
    if s != [] && s[0] == 48 {
      assert s == [48] + s[1..];
      ValueOfZero(s[1..]);
      StripKeepsValue(s[1..]);
    }
  }

  lemma {:induction false} ValueBounds(s: bytes)
    requires AllDigits(s)
    ensures Value(s) < Pow10(|s|)
    ensures s != [] && s[0] != 48 ==> Value(s) >= Pow10(|s| - 1)
  {
    if s != [] {
      ValueBounds(s[..|s| - 1]);
    }
  }

  lemma {:induction false} Pow10Grows(m: nat, n: nat)
    requires m <= n
    ensures Pow10(m) <= Pow10(n)
    decreases n
  {
    if m < n {
      Pow10Grows(m, n - 1);
    }
  }

  function Sign(n: int): int {
    if n > 0 then 1 else if n < 0 then -1 else 0
  }

  /** Of two runs of one length, text order is numeric order. */
  lemma {:induction false} SameLengthOrder(s: bytes, t: bytes)
    requires AllDigits(s) && AllDigits(t) && |s| == |t|
    ensures CompareBytes(s, t) == Sign(Value(s) - Value(t))
  {
    if s != [] {
      var n := |s| - 1;
      var x: bytes, y: bytes := [s[n]], [t[n]];
      assert s == s[..n] + x && t == t[..n] + y;
      CompareAppend(s[..n], t[..n], x, y);
      SameLengthOrder(s[..n], t[..n]);
    }
  }

  /** Without leading zeros, the longer run is the greater number, and runs of one length compare as text. */
  lemma LengthThenText(s: bytes, t: bytes)
    requires AllDigits(s) && AllDigits(t)
    ensures var x, y := Strip(s), Strip(t);
            Sign(Value(s) - Value(t)) == if |x| != |y| then Sign(|x| - |y|) else CompareBytes(x, y)
  {
    hide Value, Strip, CompareBytes, Pow10;
    var x, y := Strip(s), Strip(t);
    StripKeepsValue(s);
    StripKeepsValue(t);
    ValueBounds(x);
    ValueBounds(y);
    if |x| < |y| {
      Pow10Grows(|x|, |y| - 1);
    } else if |y| < |x| {
      Pow10Grows(|y|, |x| - 1);
    } else {
      SameLengthOrder(x, y);
    }
  }

  /** Reading back what was written with a fixed width. */
  lemma {:induction false} ValueOfDigits(n: nat, width: nat)
    requires n < Pow10(width)
    ensures AllDigits(Digits(n, width)) && Value(Digits(n, width)) == n
    decreases width
  {
    if width > 0 {
      ValueOfDigits(n / 10, width - 1);
    }
  }
}
