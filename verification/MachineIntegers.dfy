/** The machine integers of the source, as ranges of the mathematical integers. */
module MachineIntegers {
  import opened NumberTheory

  const TWO_32 := 0x1_0000_0000
  const TWO_63 := 0x8000_0000_0000_0000
  const TWO_64 := 0x1_0000_0000_0000_0000

  /** An assignment to a variable of one of these types is checked: it proves that nothing wraps. */
  type byte = x: int | 0 <= x < 256
  type u32 = x: int | 0 <= x < 0x1_0000_0000
  type u64 = x: int | 0 <= x < 0x1_0000_0000_0000_0000
  type u128 = x: int | 0 <= x < 0x1_0000_0000_0000_0000_0000_0000_0000_0000
  type s64 = x: int | -0x8000_0000_0000_0000 <= x < 0x8000_0000_0000_0000

  /** What an unsigned 32-bit operation leaves of a mathematical result. */
  function Wrap32(x: int): u32 {
    x % TWO_32
  }

  /** What an unsigned 64-bit operation leaves of a mathematical result. */
  function Wrap64(x: int): u64 {
    x % TWO_64
  }

  /** The cast of an unsigned 64-bit number to a signed one. */
  function AsSigned(x: u64): s64 {
    if x < TWO_63 then x else x - TWO_64
  }

  /** What a signed 64-bit operation leaves of a mathematical result. */
  function WrapSigned(x: int): s64 {
    AsSigned(Wrap64(x))
  }

  lemma Wrap64Small(x: int)
    requires 0 <= x < TWO_64
    ensures Wrap64(x) == x
  {
    ModSmall(x, TWO_64);
  }

  /** Wrapping early does not change the wrapped sum. */
  lemma Wrap64Adds(n: nat, k: nat)
    ensures Wrap64(Wrap64(n) + k) == Wrap64(n + k)
  {
    ModAdd(n, k, TWO_64);
    assert n + k == k + n && Wrap64(n) + k == k + Wrap64(n);
  }

  lemma Wrap32Small(x: int)
    requires 0 <= x < TWO_32
    ensures Wrap32(x) == x
  {
    ModSmall(x, TWO_32);
  }

  lemma Wrap32Adds(n: nat, k: nat)
    ensures Wrap32(Wrap32(n) + k) == Wrap32(n + k)
  {
    ModAdd(n, k, TWO_32);
    assert n + k == k + n && Wrap32(n) + k == k + Wrap32(n);
  }
}
