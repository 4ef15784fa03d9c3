/**
 * The event-category bits of Linux inotify(7), as used by the watcher.
 * A mask is an unsigned 32-bit value; each flag is one bit, named here by
 * its position (ACCESS is bit 0, ISDIR is bit 30).
 */
module InotifyFlags {

  type U32 = x: nat | x < 0x1_0000_0000

  const ACCESS: U32        := 0x1
  const MODIFY: U32        := 0x2
  const ATTRIB: U32        := 0x4
  const CLOSE_WRITE: U32   := 0x8
  const CLOSE_NOWRITE: U32 := 0x10
  const OPEN: U32          := 0x20
  const MOVED_FROM: U32    := 0x40
  const MOVED_TO: U32      := 0x80
  const CREATE: U32        := 0x100
  const DELETE: U32        := 0x200
  const DELETE_SELF: U32   := 0x400
  const MOVE_SELF: U32     := 0x800
  const UNMOUNT: U32       := 0x2000
  const Q_OVERFLOW: U32    := 0x4000
  const IGNORED: U32       := 0x8000
  const ISDIR: U32         := 0x4000_0000

  /** 2 to the power k: the value of bit k. */
  function Pow2(k: nat): (r: nat)
    ensures r >= 1
  {
    if k == 0 then 1 else 2 * Pow2(k - 1)
  }

  /** Whether bit k of m is set, i.e. `m & (1 << k)` is non-zero. */
  predicate Bit(m: nat, k: nat) {
    if k == 0 then m % 2 == 1 else Bit(m / 2, k - 1)
  }

  /** A set bit is worth at most the whole mask. */
  lemma {:induction false} BitBound(m: nat, k: nat)
    requires Bit(m, k)
    ensures m >= Pow2(k)
  {
    if k > 0 { BitBound(m / 2, k - 1); }
  }

  /** `m & ~(1 << k)` for a set bit k: clearing the bit subtracts its value. */
  function Clear(m: nat, k: nat): (r: nat)
    requires Bit(m, k)
    ensures r < m
  {
    BitBound(m, k);
    m - Pow2(k)
  }

  /** Clearing bit k leaves it clear and every other bit as it was. */
  lemma {:induction false} ClearBit(m: nat, k: nat, j: nat)
    requires Bit(m, k)
    ensures Bit(Clear(m, k), j) == (Bit(m, j) && j != k)
  {
    if k == 0 {
      assert (m - 1) / 2 == m / 2;
    } else {
      var p := Pow2(k - 1);
      BitBound(m / 2, k - 1);
      if j == 0 {
        assert (m - 2 * p) % 2 == m % 2;
      } else {
        ClearBit(m / 2, k - 1, j - 1);
        assert (m - 2 * p) / 2 == m / 2 - p;
      }
    }
  }
}
