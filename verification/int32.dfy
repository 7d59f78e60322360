/**
 The C# `int` the game scripts compute with: 32-bit two's complement, with
 wrap-around on overflow (the scripts run in an unchecked context) and a
 remainder operator that truncates toward zero.
 */
module Int32 {

  const Min: int := -0x8000_0000
  const Max: int := 0x7fff_ffff
  const Modulus: int := 0x1_0000_0000

  newtype i32 = x: int | -0x8000_0000 <= x < 0x8000_0000

  predicate InRange(x: int) {
    Min <= x <= Max
  }

  /** The value an unchecked C# `int` operation stores when the exact result is `x`. */
  function Wrap(x: int): (r: i32)
    ensures InRange(x) ==> r as int == x
    ensures (r as int - x) % Modulus == 0
  {
    ((x - Min) % Modulus + Min) as i32
  }

  /** C# `a % 2` on ints: the remainder truncates toward zero, so its sign follows `a`. */
  function Rem2(a: int): (r: int)
    ensures (a - r) % 2 == 0
    ensures a >= 0 ==> 0 <= r <= 1
    ensures a < 0 ==> -1 <= r <= 0
  {
    if a >= 0 then a % 2 else -((-a) % 2)
  }
}
