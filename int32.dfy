/** C# `int`: the 32-bit two's-complement integers the tree uses for keys and counts. */
module Int32 {

  newtype i32 = x: int | -0x8000_0000 <= x < 0x8000_0000

  /** `int.MinValue`: the separator under which a new root holds its first child. */
  const MinValue: i32 := -0x8000_0000

  /** `int.MaxValue`: the placeholder key appended before the right shift of an ordered insert. */
  const MaxValue: i32 := 0x7FFF_FFFF

  /** The value C# computes for an unchecked `int` expression whose exact value is x. */
  function Wrap(x: int): (r: i32)
    ensures (x - r as int) % 0x1_0000_0000 == 0
    ensures -0x8000_0000 <= x < 0x8000_0000 ==> r as int == x
    ensures 0x8000_0000 <= x < 0x1_0000_0000 ==> r as int == x - 0x1_0000_0000
  {
    var m := x % 0x1_0000_0000;
    if m < 0x8000_0000 then m as i32 else (m - 0x1_0000_0000) as i32
  }

  /** The overflow threshold `BranchingRatio * 2` is 2t for t < 2^30 and negative above:
      a node count (never negative) can then never reach it. */
  lemma DoubledRatio(t: i32)
    requires 0 < t
    ensures t < 0x4000_0000 ==> Wrap(2 * t as int) as int == 2 * t as int
    ensures t >= 0x4000_0000 ==> Wrap(2 * t as int) < 0
  {
  }
}
