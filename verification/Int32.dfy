// A counter that is an int32 and is only moved by one.
module Int32 {
  // One up and one down, wrapping around.
  function Inc32(x: int): int {
    if x == 0x7FFF_FFFF then -0x8000_0000 else x + 1
  }

  function Dec32(x: int): int {
    if x == -0x8000_0000 then 0x7FFF_FFFF else x - 1
  }

  function Laps(k: int): int {
    0x1_0000_0000 * k
  }

  // `x` is the int32 that stands for `y`.
  ghost predicate Is32(x: int, y: int) {
    -0x8000_0000 <= x < 0x8000_0000 && exists k :: x == y + Laps(k)
  }

  lemma Is32Steps(x: int, y: int)
    requires Is32(x, y)
    ensures Is32(Inc32(x), y + 1) && Is32(Dec32(x), y - 1)
    ensures -0x8000_0000 <= y < 0x8000_0000 ==> x == y
  {
    var k :| x == y + Laps(k);
    assert Inc32(x) == y + 1 + Laps(if x == 0x7FFF_FFFF then k - 1 else k);
    assert Dec32(x) == y - 1 + Laps(if x == -0x8000_0000 then k + 1 else k);
  }
}
