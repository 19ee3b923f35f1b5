/** 32-bit machine arithmetic and the word-addressed memory that kernel
    structures are overlaid on. All C `uint32_t` expressions of the kernel are
    written with the wrapping operators below. */
module Machine {

  const TWO32: int := 0x1_0000_0000

  type U32 = x: int | 0 <= x < 0x1_0000_0000

  function Add32(a: U32, b: U32): U32 { if a + b < TWO32 then a + b else a + b - TWO32 }

  function Sub32(a: U32, b: U32): U32 { if b <= a then a - b else a - b + TWO32 }

  lemma WrapsModulo(a: U32, b: U32)
    ensures Add32(a, b) == (a + b) % TWO32
    ensures Sub32(a, b) == (a - b) % TWO32
  {
  }

  /** Four gibibytes of memory. Cell `a` is the 32-bit word whose lowest byte is
      at address `a`; the kernel structures modelled here are only ever accessed
      at addresses that are multiples of four, so the cells they use never
      overlap. */
  type Memory = m: seq<U32> | |m| == 0x1_0000_0000 witness seq(0x1_0000_0000, _ => 0)

  function Load(m: Memory, a: U32): U32 { m[a] }

  function Store(m: Memory, a: U32, v: U32): Memory { m[a := v] }

  /** `m'` differs from `m` at most inside [lo, hi). */
  ghost predicate SameOutside(m: Memory, m': Memory, lo: int, hi: int)
  {
    forall a :: 0 <= a < 0x1_0000_0000 && !(lo <= a < hi) ==> m'[a] == m[a]
  }
}
