/** Small shared vocabulary: optional values, the clock's saturating arithmetic, extrema. */
module Base {

  datatype Option<+T> = None | Some(value: T)

  const U64_MAX: nat := 0xFFFF_FFFF_FFFF_FFFF

  /** Unix seconds as the program holds them, in 64 unsigned bits. */
  type Time = t: nat | t <= U64_MAX

  function SaturatingAdd(a: Time, b: nat): (r: Time)
    ensures a <= r <= a + b && (r == a + b || r == U64_MAX)
  {
    if a + b <= U64_MAX then a + b else U64_MAX
  }

  function SaturatingSub(a: nat, b: nat): nat {
    if a <= b then 0 else a - b
  }

  function Min(a: nat, b: nat): nat {
    if a <= b then a else b
  }

  function Max(a: nat, b: nat): nat {
    if a <= b then b else a
  }

  function Clamp(x: nat, lo: nat, hi: nat): nat
    requires lo <= hi
  {
    if x < lo then lo else if x > hi then hi else x
  }

  /** The elements of a sequence of cursors. */
  function Elements(s: seq<nat>): set<nat> {
    set x | x in s
  }
}
