/**
 Numbers as bytes, low byte first: how the disk formats are written, and how the code reads them.
 */
module LittleEndian {

  // ---------- writing

  /** The lowest `n` bytes of a number. */
  function Le(v: nat, n: nat): (s: seq<int>)
    ensures |s| == n
    decreases n
  {
    if n == 0 then [] else [v % 256] + Le(v / 256, n - 1)
  }

  /** The bytes `s` stand at `at`. */
  predicate Holds(d: seq<int>, at: nat, s: seq<int>) {
    at + |s| <= |d| && d[at..at + |s|] == s
  }

  lemma HoldsSplit(d: seq<int>, at: nat, a: seq<int>, b: seq<int>)
    requires Holds(d, at, a + b)
    ensures Holds(d, at, a) && Holds(d, at + |a|, b)
  {
    assert d[at..at + |a|] == d[at..at + |a + b|][..|a|];
    assert d[at + |a|..at + |a| + |b|] == d[at..at + |a + b|][|a|..];
  }

  // ---------- reading

  function Byte(d: seq<int>, at: nat): nat {
    if at < |d| && 0 <= d[at] < 256 then d[at] else 0
  }

  function U16(d: seq<int>, at: nat): nat { Byte(d, at) + 0x100 * Byte(d, at + 1) }

  function U32(d: seq<int>, at: nat): nat { U16(d, at) + 0x1_0000 * U16(d, at + 2) }

  lemma LeByte(d: seq<int>, at: nat, v: nat, n: nat)
    requires n > 0 && Holds(d, at, Le(v, n))
    ensures Byte(d, at) == v % 256 && Holds(d, at + 1, Le(v / 256, n - 1))
  {
    HoldsSplit(d, at, [v % 256], Le(v / 256, n - 1));
    assert d[at] == d[at..at + 1][0];
  }

  /** What was written in two bytes is read back. */
  lemma ReadsU16(d: seq<int>, at: nat, v: nat)
    requires v < 0x1_0000 && Holds(d, at, Le(v, 2))
    ensures U16(d, at) == v
  {
    LeByte(d, at, v, 2);
    LeByte(d, at + 1, v / 256, 1);
  }

  /** And in four. */
  lemma ReadsU32(d: seq<int>, at: nat, v: nat)
    requires v < 0x1_0000_0000 && Holds(d, at, Le(v, 4))
    ensures U32(d, at) == v
  {
    hide Le, Holds, Byte;
    LeByte(d, at, v, 4);
    LeByte(d, at + 1, v / 256, 3);
    LeByte(d, at + 2, v / 256 / 256, 2);
    LeByte(d, at + 3, v / 256 / 256 / 256, 1);
  }
}
