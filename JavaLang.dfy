/** Java value semantics the tree code relies on: null references, the double
    sentinels it returns, String.compareTo and the (int) cast of a double. */
module JavaLang {

  /** A reference that may be null. */
  datatype Option<+T> = None | Some(value: T)

  /** A double as the tree queries produce it: finite, or one of the two infinities. */
  datatype ExtReal = NegInf | Finite(r: real) | PosInf

  /** Double.MAX_VALUE, exactly (2^53 - 1) * 2^971. */
  const DoubleMaxValue: real := 179769313486231570814527423731704356798070567525844996598917476803157260780028538760589558632766878171540458953514382464234321326889464182768467546703537516986049910576551282076245490090389328944075868508455133942304583236903222948165808559332123348274797826204144723168738177180919299881250404026184124858368.0

  const IntMax: int := 0x7fff_ffff
  const IntMin: int := -0x8000_0000

  /** The (int) cast of a finite double: truncation toward zero, saturating at the int range. */
  function IntCast(x: real): (k: int)
    ensures IntMin <= k <= IntMax
    ensures 0.0 <= x ==> 0 <= k && k as real <= x && (x < IntMax as real ==> x < k as real + 1.0)
    ensures x <= 0.0 ==> k <= 0 && x <= k as real && (IntMin as real < x ==> (k as real) < x + 1.0)
    ensures IntMax as real <= x ==> k == IntMax
    ensures x <= IntMin as real ==> k == IntMin
  {
    if 0.0 <= x then
      (if x < IntMax as real then x.Floor else IntMax)
    else
      (if IntMin as real < x then -((-x).Floor) else IntMin)
  }

  /** The product of two non-negative reals is non-negative. */
  lemma MulNonNegative(a: real, b: real)
    requires 0.0 <= a && 0.0 <= b
    ensures 0.0 <= a * b
  {
  }

  /** String.compareTo: the difference of the first differing characters, or else
      the difference of the lengths. */
  function CompareTo(a: string, b: string): (c: int)
  {
    if |a| == 0 || |b| == 0 then |a| - |b|
    else if a[0] != b[0] then a[0] as int - b[0] as int
    else CompareTo(a[1..], b[1..])
  }

  /** Swapping the operands of compareTo negates the result. */
  lemma {:induction false} CompareToAntisymmetric(a: string, b: string)
    ensures CompareTo(a, b) == -CompareTo(b, a)
  {
    if |a| != 0 && |b| != 0 && a[0] == b[0] {
      CompareToAntisymmetric(a[1..], b[1..]);
    }
  }

  /** compareTo is zero exactly on equal strings. */
  lemma {:induction false} CompareToZero(a: string, b: string)
    ensures CompareTo(a, b) == 0 <==> a == b
  {
    if |a| != 0 && |b| != 0 && a[0] == b[0] {
      CompareToZero(a[1..], b[1..]);
      assert a == [a[0]] + a[1..] && b == [b[0]] + b[1..];
    }
  }
}
