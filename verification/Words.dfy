/** 32-bit words as the kernels and the host see them: unsigned, wrapping arithmetic. */
module Words {
  const MOD32: int := 0x1_0000_0000

  type word = x: int | 0 <= x < 0x1_0000_0000

  /** The value an unvisited BFS vertex carries. */
  const UNSEEN: word := 0xffff_ffff

  function Wrap(x: int): word {
    x % MOD32
  }

  function AddW(a: word, b: word): word {
    Wrap(a + b)
  }

  /** Reading a word as a two's-complement int32_t. */
  function Signed(w: word): int {
    if w < 0x8000_0000 then w else w - MOD32
  }
}
