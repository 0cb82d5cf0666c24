/** Fixed-width machine words and the optional value, shared by every component. */
module Words {

  datatype Option<+T> = None | Some(value: T)

  const U32_MAX: nat := 0xFFFF_FFFF
  const U64_MAX: nat := 0xFFFF_FFFF_FFFF_FFFF

  type U8 = n: nat | n < 0x100
  type U16 = n: nat | n < 0x1_0000
  type U32 = n: nat | n <= U32_MAX
  type U64 = n: nat | n <= U64_MAX

  const U64_COUNT: nat := U64_MAX + 1

  /** Adding one to a 64-bit word, which wraps. */
  function Incremented(n: U64): U64 {
    if n == U64_MAX then 0 else n + 1
  }

  lemma IncrementIsModular(n: nat)
    ensures Incremented(n % U64_COUNT) == (n + 1) % U64_COUNT
  {
    if n % U64_COUNT == U64_MAX {
      assert n + 1 == (n / U64_COUNT + 1) * U64_COUNT;
    } else {
      assert n + 1 == (n / U64_COUNT) * U64_COUNT + (n % U64_COUNT + 1);
    }
  }

  lemma Associates<T>(a: seq<T>, b: seq<T>, c: seq<T>)
    ensures (a + b) + c == a + (b + c)
  {
  }
}
