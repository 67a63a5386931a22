/** Machine words and the optional values the kernel returns. */
module Bytes {
  type Byte = n: nat | n < 256

  datatype Option<+T> = None | Some(value: T)

  const U32_RANGE := 0x1_0000_0000
  const U64_RANGE := 0x1_0000_0000_0000_0000
  const U64_MAX := 0xFFFF_FFFF_FFFF_FFFF

  /** These bytes are the ASCII codes of that text. */
  predicate Spells(b: seq<Byte>, text: string) {
    |b| == |text| && forall i :: 0 <= i < |b| ==> b[i] == text[i] as int
  }

  /** Unsigned 64-bit `saturating_add` and `saturating_mul`. */
  function SaturatingAdd(a: nat, b: nat): nat {
    if a + b <= U64_MAX then a + b else U64_MAX
  }

  function SaturatingMul(a: nat, b: nat): nat {
    if a * b <= U64_MAX then a * b else U64_MAX
  }

  function Min(a: int, b: int): int {
    if a <= b then a else b
  }
}
