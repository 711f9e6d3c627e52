/** Machine words: the driver runs on a 32-bit processor and keeps time in unsigned 64-bit
  * words. */
module Words {

  const U32: nat := 0x1_0000_0000
  const U64: nat := 0x1_0000_0000_0000_0000

  type HwTime = t: nat | t < U64

  function Wrap32(x: int): (w: nat)
    ensures w < U32
  {
    x % U32
  }

  function Wrap64(x: int): (w: HwTime)
  {
    x % U64
  }

  /** An unsigned 64-bit word read as a signed one. */
  function Signed64(w: HwTime): (x: int)
    ensures -(U64 / 2) <= x < U64 / 2 && Wrap64(x) == w
  {
    if w < U64 / 2 then w else w - U64
  }

  /** An unsigned word stored into a signed 32-bit variable. */
  function Signed32(x: int): (y: int)
    ensures -(U32 / 2) <= y < U32 / 2
    ensures -(U32 / 2) <= x < U32 / 2 ==> y == x
  {
    var w := x % U32;
    if w < U32 / 2 then w else w - U32
  }

  lemma MulMonotone(a: nat, b: nat, c: nat)
    requires a <= b
    ensures a * c <= b * c
  {
  }

  lemma MulAdd(a: int, b: int, c: int)
    ensures (a + b) * c == a * c + b * c
  {
  }

  /** A positive factor can be cancelled. */
  lemma MulCancel(a: int, b: int, c: nat)
    requires a * c < b * c
    ensures a < b
  {
  }

  lemma DivBounds(x: nat, d: nat)
    requires d > 0
    ensures 0 <= x / d && x / d * d <= x < (x / d + 1) * d
  {
    assert x == d * (x / d) + x % d;
  }

  /** A quotient is what its multiple says it is. */
  lemma DivIs(x: nat, d: nat, q: int)
    requires d > 0 && q * d <= x < (q + 1) * d
    ensures x / d == q
  {
    DivBounds(x, d);
    MulCancel(x / d, q + 1, d);
    MulCancel(q, x / d + 1, d);
  }

  lemma DivMod(x: nat, d: nat)
    requires d > 0
    ensures x == x / d * d + x % d && 0 <= x % d < d && x % d <= x
  {
    assert x == d * (x / d) + x % d;
    DivBounds(x, d);
  }

  /** A remainder is what is left after a multiple. */
  lemma ModIs(x: nat, d: nat, q: int, r: nat)
    requires r < d && x == q * d + r
    ensures x % d == r && x / d == q
  {
    MulAdd(q, 1, d);
    DivIs(x, d, q);
    DivMod(x, d);
  }

  lemma DivMonotone(x: nat, y: nat, d: nat)
    requires d > 0 && x <= y
    ensures x / d <= y / d
  {
    DivBounds(x, d);
    DivBounds(y, d);
    MulCancel(x / d, y / d + 1, d);
  }

  lemma DivShrinks(x: nat, d: nat)
    requires d > 0
    ensures 0 <= x / d <= x
  {
    DivBounds(x, d);
    MulMonotone(1, d, x / d);
  }
}
