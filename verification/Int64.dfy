/** Go's 64-bit signed arithmetic, the arithmetic of time.Duration. */
module Int64 {

  const MIN: int := -0x8000_0000_0000_0000
  const MAX: int := 0x7fff_ffff_ffff_ffff
  const SPAN: int := 0x1_0000_0000_0000_0000

  type int64 = x: int | MIN <= x <= MAX

  /** Two's-complement wrap-around: the one representable value congruent to x. */
  function Wrap(x: int): (r: int64)
    ensures (x - r) % SPAN == 0
    ensures r == x <==> MIN <= x <= MAX
  {
    (x - MIN) % SPAN + MIN
  }

  /** time.Time.Sub: the difference of two instants, saturated instead of wrapped. */
  function SaturatedDifference(a: int, b: int): (r: int64)
    ensures MIN <= a - b <= MAX ==> r == a - b
  {
    if a - b > MAX then MAX else if a - b < MIN then MIN else a - b
  }
}
