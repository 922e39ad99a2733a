/** Machine words shared by the kernel and boot-library models. */
module Words {

  const TWO_64: int := 0x1_0000_0000_0000_0000

  /** An unsigned 64-bit word (uint64_t, UINT64, UINTN on x86-64). */
  type U64 = x: int | 0 <= x < 0x1_0000_0000_0000_0000

  /** A UTF-16 code unit (CHAR16). */
  type Char16 = x: int | 0 <= x < 0x1_0000

  datatype Option<+T> = None | Some(value: T)

  /** C's unsigned 64-bit arithmetic: reduce modulo 2^64. */
  function Wrap(x: int): U64 {
    x % TWO_64
  }

  /** Equality on an arbitrary type: large values are compared as wholes. */
  ghost predicate Same<T(!new)>(x: T, y: T) {
    x == y
  }

  lemma {:induction false} WrapShifts(x: int, y: int, k: int)
    requires Wrap(x) == Wrap(y)
    ensures Wrap(x + k) == Wrap(y + k)
  {
    var q, r := x / TWO_64, y / TWO_64;
    assert x - y == TWO_64 * (q - r);
  }

  lemma {:induction false} WrapAbsorbs(x: int, k: int)
    ensures Wrap(Wrap(x) + k) == Wrap(x + k)
  {
    WrapShifts(Wrap(x), x, k);
  }

  lemma {:induction false} WrapDropsMultiples(x: int, k: int)
    ensures Wrap(x - k * TWO_64) == Wrap(x)
  {
  }
}
