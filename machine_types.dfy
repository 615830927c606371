/** gem5's machine word types: both `Addr` and `RegVal` are unsigned 64-bit
    integers. The reuse buffer only compares and copies them. */
module MachineTypes {
  newtype u64 = x: int | 0 <= x < 0x1_0000_0000_0000_0000

  type Addr = u64

  type RegVal = u64
}
