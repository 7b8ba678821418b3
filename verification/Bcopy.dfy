/**
 The block move of the 32-bit shuffler (bcopyxx.inc): overlap-safe copying in byte, word
 and dword moves, and the list of moves built on it.
 */
module Bcopy {
  import S = Shift
  const WORD: int := 0x1_0000_0000

  // ---------- what a move means

  datatype Desc = Desc(dst: int, src: int, len: int)

  /** All bytes are read before any is written; source -1 stands for zeros. */
  function Moved(m: seq<int>, d: Desc): (r: seq<int>)
    requires InMemory(m, d)
    ensures |r| == |m|
  {
    m[..d.dst] + Source(m, d) + m[d.dst + d.len..]
  }

  function Source(m: seq<int>, d: Desc): (c: seq<int>)
    requires InMemory(m, d)
    ensures |c| == d.len
  {
    if d.src == WORD - 1 then seq(d.len, _ => 0) else m[d.src..d.src + d.len]
  }

  predicate InMemory(m: seq<int>, d: Desc) {
    && 0 <= d.dst && 0 <= d.src && 0 <= d.len && d.dst + d.len <= |m| <= WORD - 1
    && (d.src == WORD - 1 || d.src + d.len <= |m|)
  }

  // ---------- partial copies

  /** Exactly the bytes with offsets from `lo` up to `hi` have been moved. */
  ghost predicate Partly(a: seq<int>, b: seq<int>, d: Desc, lo: int, hi: int)
    requires InMemory(a, d)
  {
    && |a| == |b| && 0 <= lo <= hi <= d.len
    && (forall i :: 0 <= i < |a| ==> b[i] == if d.dst + lo <= i < d.dst + hi then Source(a, d)[i - d.dst] else a[i])
  }

  /** The first `k` of the bytes have been moved. */
  ghost predicate Front(a: seq<int>, b: seq<int>, d: Desc, k: nat)
    requires InMemory(a, d)
  {
    Partly(a, b, d, 0, k)
  }

  /** The last `k` of the bytes have been moved. */
  ghost predicate Back(a: seq<int>, b: seq<int>, d: Desc, k: nat)
    requires InMemory(a, d)
  {
    Partly(a, b, d, d.len - k, d.len)
  }

  /** A piece of `w` bytes put at `at`. */
  ghost predicate Piece(a: seq<int>, b: seq<int>, at: nat, c: seq<int>) {
    |a| == |b| && at + |c| <= |a| && forall i :: 0 <= i < |a| ==> b[i] == if at <= i < at + |c| then c[i - at] else a[i]
  }

  /** Adding the piece at offset `x`, next to what has been moved. */
  lemma PieceAdds(a: seq<int>, b: seq<int>, c: seq<int>, d: Desc, lo: int, hi: int, x: int, content: seq<int>)
    requires InMemory(a, d) && Partly(a, b, d, lo, hi) && 0 <= x && x + |content| <= d.len
    requires x == hi || (x + |content| == lo && x < hi)
    requires forall j :: 0 <= j < |content| ==> content[j] == Source(a, d)[x + j]
    requires Piece(b, c, d.dst + x, content)
    ensures Partly(a, c, d, if x == hi then lo else x, if x == hi then hi + |content| else hi)
  {
    hide Source, InMemory;
    var lo2, hi2 := if x == hi then lo else x, if x == hi then hi + |content| else hi;
    forall i | 0 <= i < |a|
      ensures c[i] == if d.dst + lo2 <= i < d.dst + hi2 then Source(a, d)[i - d.dst] else a[i]
    {
      var j := i - d.dst - x;
      assert c[i] == if 0 <= j < |content| then content[j] else b[i];
    }
  }

  /** Reading upwards never meets a byte already overwritten, unless the target overlaps the source from above. */
  lemma FrontStep(a: seq<int>, b: seq<int>, c: seq<int>, d: Desc, k: nat, w: nat)
    requires InMemory(a, d) && d.src != WORD - 1 && Front(a, b, d, k) && k + w <= d.len
    requires d.dst <= d.src || d.src + d.len <= d.dst
    requires Piece(b, c, d.dst + k, b[d.src + k..d.src + k + w])
    ensures Front(a, c, d, k + w)
  {
    var content := b[d.src + k..d.src + k + w];
    forall j | 0 <= j < w ensures content[j] == Source(a, d)[k + j] {
      assert content[j] == b[d.src + k + j] == a[d.src + k + j];
    }
    PieceAdds(a, b, c, d, 0, k, k, content);
  }

  /** Downwards it is the other way round. */
  lemma BackStep(a: seq<int>, b: seq<int>, c: seq<int>, d: Desc, k: nat, w: nat)
    requires InMemory(a, d) && d.src != WORD - 1 && Back(a, b, d, k) && k + w <= d.len
    requires d.src <= d.dst && w > 0
    requires Piece(b, c, d.dst + d.len - k - w, b[d.src + d.len - k - w..d.src + d.len - k])
    ensures Back(a, c, d, k + w)
  {
    var x := d.len - k - w;
    var content := b[d.src + x..d.src + x + w];
    forall j | 0 <= j < w ensures content[j] == Source(a, d)[x + j] {
      assert content[j] == b[d.src + x + j] == a[d.src + x + j];
    }
    PieceAdds(a, b, c, d, d.len - k, d.len, x, content);
  }

  lemma ZeroStep(a: seq<int>, b: seq<int>, c: seq<int>, d: Desc, k: nat, w: nat)
    requires InMemory(a, d) && d.src == WORD - 1 && Front(a, b, d, k) && k + w <= d.len
    requires Piece(b, c, d.dst + k, seq(w, _ => 0))
    ensures Front(a, c, d, k + w)
  {
  }

  lemma WholeMoved(a: seq<int>, b: seq<int>, d: Desc)
    requires InMemory(a, d) && (Front(a, b, d, d.len) || Back(a, b, d, d.len))
    ensures b == Moved(a, d)
  {
  }

  predicate Bit0(x: int) { x % 2 == 1 }

  predicate Bit1(x: int) { x / 2 % 2 == 1 }

  /** The low byte of a register. */
  function LowByte(x: int): int { x % 256 }

  function Dwords(n: nat): nat { n / 4 }

  /** Whole dwords and the last two bits of the low byte make up the count. */
  lemma LowBits(n: nat)
    ensures n == Dwords(n) * 4 + (if Bit1(LowByte(n)) then 2 else 0) + (if Bit0(LowByte(n)) then 1 else 0)
    ensures n < 2 ==> Dwords(n) == 0 && !Bit1(LowByte(n))
  {
    var low, a := n % 256, n / 256;
    S.Quotient(n, 256);
    var b, r := low / 4, low % 4;
    S.Quotient(low, 4);
    S.DivUnique(n, 4, a * 64 + b, r);
    S.DivUnique(low, 2, b * 2 + r / 2, r % 2);
    S.DivUnique(b * 2 + r / 2, 2, b, r / 2);
  }

  // ---------- the processor

  class Cpu {
    const mem: array<int>
    var esi: int
    var edi: int
    var ecx: int

    constructor (mem: array<int>)
      ensures this.mem == mem
    {
      this.mem, esi, edi, ecx := mem, 0, 0, 0;
    }

    /** movsb, movsw, movsd: `w` bytes are read, then written; the pointers move on, or back if `down`. */
    method Movs(w: nat, down: bool)
      requires 0 <= esi && esi + w <= mem.Length && 0 <= edi && edi + w <= mem.Length
      modifies this`esi, this`edi, mem
      ensures Piece(old(mem[..]), mem[..], old(edi), old(mem[esi..esi + w]))
      ensures esi == (if down then old(esi) - w else old(esi) + w)
      ensures edi == (if down then old(edi) - w else old(edi) + w)
    {
      Store(mem[esi..esi + w]);
      esi := if down then esi - w else esi + w;
      edi := if down then edi - w else edi + w;
    }

    /** stosb, stosw, stosd with a zero accumulator. */
    method Stos(w: nat)
      requires 0 <= edi && edi + w <= mem.Length
      modifies this`edi, mem
      ensures Piece(old(mem[..]), mem[..], old(edi), seq(w, _ => 0)) && edi == old(edi) + w
    {
      Store(seq(w, _ => 0));
      edi := edi + w;
    }

    method Store(c: seq<int>)
      requires 0 <= edi && edi + |c| <= mem.Length
      modifies mem
      ensures Piece(old(mem[..]), mem[..], edi, c)
    {
      var i := 0;
      while i < |c|
        invariant 0 <= i <= |c|
        invariant forall j :: 0 <= j < mem.Length ==> mem[j] == if edi <= j < edi + i then c[j - edi] else old(mem[..])[j]
      {
        mem[edi + i] := c[i];
        i := i + 1;
      }
    }

    // ---------- upwards

    /** `k` bytes have gone upwards and the pointers stand behind them. */
    ghost predicate Up(a: seq<int>, d: Desc, k: nat)
      requires InMemory(a, d)
      reads this`esi, this`edi, mem
    {
      && Front(a, mem[..], d, k) && edi == d.dst + k
      && (d.src != WORD - 1 ==> esi == d.src + k && (d.dst <= d.src || d.src + d.len <= d.dst))
    }

    method MovsUp(w: nat, ghost a: seq<int>, ghost d: Desc, ghost k: nat)
      requires InMemory(a, d) && d.src != WORD - 1 && Up(a, d, k) && k + w <= d.len
      modifies this`esi, this`edi, mem
      ensures Up(a, d, k + w)
    {
      ghost var b := mem[..];
      Movs(w, false);
      FrontStep(a, b, mem[..], d, k, w);
    }

    method StosUp(w: nat, ghost a: seq<int>, ghost d: Desc, ghost k: nat)
      requires InMemory(a, d) && d.src == WORD - 1 && Up(a, d, k) && k + w <= d.len
      modifies this`edi, mem
      ensures Up(a, d, k + w)
    {
      ghost var b := mem[..];
      Stos(w);
      ZeroStep(a, b, mem[..], d, k, w);
    }

    /** Such a move if a flag is set; the count is kept only before the bulk. */
    method IfMovsUp(flag: bool, w: nat, count: bool, ghost a: seq<int>, ghost d: Desc, ghost k0: nat) returns (ghost k: nat)
      requires InMemory(a, d) && d.src != WORD - 1 && Up(a, d, k0) && (flag ==> k0 + w <= d.len)
      modifies this, mem
      ensures k == (if flag then k0 + w else k0) && Up(a, d, k)
      ensures ecx == if flag && count then old(ecx) - w else old(ecx)
    {
      hide InMemory, Cpu.Up, Cpu.Down;
      k := k0;
      if flag {
        MovsUp(w, a, d, k);
        k := k + w;
        if count {
          ecx := ecx - w;
        }
      }
    }

    /** rep movsd. */
    method RepMovsUp(ghost a: seq<int>, ghost d: Desc, ghost k0: nat) returns (ghost k: nat)
      requires InMemory(a, d) && d.src != WORD - 1 && Up(a, d, k0) && 0 <= ecx && k0 + ecx * 4 <= d.len
      modifies this, mem
      ensures Up(a, d, k) && k == k0 + old(ecx) * 4 && ecx == 0
    {
      hide InMemory, Cpu.Up, Cpu.Down;
      k := k0;
      while ecx > 0
        invariant 0 <= ecx && k + ecx * 4 == k0 + old(ecx) * 4 && Up(a, d, k)
      {
        MovsUp(4, a, d, k);
        ecx, k := ecx - 1, k + 4;
      }
    }

    /** Such a move if a flag is set; the count is kept only before the bulk. */
    method IfStosUp(flag: bool, w: nat, count: bool, ghost a: seq<int>, ghost d: Desc, ghost k0: nat) returns (ghost k: nat)
      requires InMemory(a, d) && d.src == WORD - 1 && Up(a, d, k0) && (flag ==> k0 + w <= d.len)
      modifies this, mem
      ensures k == (if flag then k0 + w else k0) && Up(a, d, k)
      ensures ecx == if flag && count then old(ecx) - w else old(ecx)
    {
      hide InMemory, Cpu.Up, Cpu.Down;
      k := k0;
      if flag {
        StosUp(w, a, d, k);
        k := k + w;
        if count {
          ecx := ecx - w;
        }
      }
    }

    /** rep stosd. */
    method RepStosUp(ghost a: seq<int>, ghost d: Desc, ghost k0: nat) returns (ghost k: nat)
      requires InMemory(a, d) && d.src == WORD - 1 && Up(a, d, k0) && 0 <= ecx && k0 + ecx * 4 <= d.len
      modifies this, mem
      ensures Up(a, d, k) && k == k0 + old(ecx) * 4 && ecx == 0
    {
      hide InMemory, Cpu.Up, Cpu.Down;
      k := k0;
      while ecx > 0
        invariant 0 <= ecx && k + ecx * 4 == k0 + old(ecx) * 4 && Up(a, d, k)
      {
        StosUp(4, a, d, k);
        ecx, k := ecx - 1, k + 4;
      }
    }

    /** The words and dwords; what is left is at most one byte, told by the low byte. */
    method BulkMovsUp(word: bool, ghost a: seq<int>, ghost d: Desc, ghost k0: nat) returns (al: int, ghost k: nat)
      requires InMemory(a, d) && d.src != WORD - 1 && Up(a, d, k0) && 0 <= ecx && k0 + ecx == d.len
      modifies this, mem
      ensures Up(a, d, k) && k + (if Bit0(al) then 1 else 0) == d.len
    {
      hide InMemory, Cpu.Up, Cpu.Down, Bit0, Bit1, LowByte, Dwords;
      k := k0;
      al := LowByte(ecx);
      LowBits(ecx);
      if ecx >= 2 {
        k := IfMovsUp(word, 2, true, a, d, k);
        al := LowByte(ecx);
        LowBits(ecx);
        ecx := Dwords(ecx);
        k := RepMovsUp(a, d, k);
        k := IfMovsUp(Bit1(al), 2, false, a, d, k);
      }
    }

    /** Lines 57-94. */
    method Forward(ghost d: Desc)
      requires InMemory(mem[..], d) && 0 < d.len == ecx && d.src != WORD - 1 && Up(mem[..], d, 0)
      modifies this, mem
      ensures mem[..] == Moved(old(mem[..]), d)
    {
      hide InMemory, Cpu.Up, Moved, Bit0, Bit1, LowByte, Dwords;
      ghost var a, k := mem[..], 0;
      var edx := edi / 2;
      k := IfMovsUp(Bit0(edi), 1, true, a, d, k);
      var al;
      al, k := BulkMovsUp(Bit0(edx), a, d, k);
      k := IfMovsUp(Bit0(al), 1, false, a, d, k);
      UpDone(a, d);
    }

    /** The words and dwords; what is left is at most one byte, told by the low byte. */
    method BulkStosUp(word: bool, ghost a: seq<int>, ghost d: Desc, ghost k0: nat) returns (bl: int, ghost k: nat)
      requires InMemory(a, d) && d.src == WORD - 1 && Up(a, d, k0) && 0 <= ecx && k0 + ecx == d.len
      modifies this, mem
      ensures Up(a, d, k) && k + (if Bit0(bl) then 1 else 0) == d.len
    {
      hide InMemory, Cpu.Up, Cpu.Down, Bit0, Bit1, LowByte, Dwords;
      k := k0;
      bl := LowByte(ecx);
      LowBits(ecx);
      if ecx >= 2 {
        k := IfStosUp(word, 2, true, a, d, k);
        bl := LowByte(ecx);
        LowBits(ecx);
        ecx := Dwords(ecx);
        k := RepStosUp(a, d, k);
        k := IfStosUp(Bit1(bl), 2, false, a, d, k);
      }
    }

    /** Lines 149-183. */
    method Zero(ghost d: Desc)
      requires InMemory(mem[..], d) && 0 < d.len == ecx && d.src == WORD - 1 && Up(mem[..], d, 0)
      modifies this, mem
      ensures mem[..] == Moved(old(mem[..]), d)
    {
      hide InMemory, Cpu.Up, Moved, Bit0, Bit1, LowByte, Dwords;
      ghost var a, k := mem[..], 0;
      var edx := edi / 2;
      k := IfStosUp(Bit0(edi), 1, true, a, d, k);
      var bl;
      bl, k := BulkStosUp(Bit0(edx), a, d, k);
      k := IfStosUp(Bit0(bl), 1, false, a, d, k);
      UpDone(a, d);
    }

    lemma UpDone(a: seq<int>, d: Desc)
      requires InMemory(a, d) && Up(a, d, d.len)
      ensures mem[..] == Moved(a, d)
    {
      WholeMoved(a, mem[..], d);
    }

    // ---------- downwards

    /** `k` bytes have gone downwards; the pointers stand `w` bytes before them. */
    ghost predicate Down(a: seq<int>, d: Desc, k: nat, w: nat)
      requires InMemory(a, d)
      reads this`esi, this`edi, mem
    {
      && Back(a, mem[..], d, k) && d.src != WORD - 1 && d.src <= d.dst
      && edi == d.dst + d.len - k - w && esi == d.src + d.len - k - w
    }

    method MovsDown(w: nat, ghost a: seq<int>, ghost d: Desc, ghost k: nat)
      requires InMemory(a, d) && Down(a, d, k, w) && k + w <= d.len && w > 0
      modifies this`esi, this`edi, mem
      ensures Down(a, d, k + w, w)
    {
      ghost var b := mem[..];
      Movs(w, true);
      BackStep(a, b, mem[..], d, k, w);
    }

    /** Such a move if a flag is set; the count is kept only before the bulk. */
    method IfMovsDown(flag: bool, w: nat, count: bool, ghost a: seq<int>, ghost d: Desc, ghost k0: nat) returns (ghost k: nat)
      requires InMemory(a, d) && Down(a, d, k0, w) && w > 0 && (flag ==> k0 + w <= d.len)
      modifies this, mem
      ensures k == (if flag then k0 + w else k0) && Down(a, d, k, w)
      ensures ecx == if flag && count then old(ecx) - w else old(ecx)
    {
      hide InMemory, Cpu.Up, Cpu.Down;
      k := k0;
      if flag {
        MovsDown(w, a, d, k);
        k := k + w;
        if count {
          ecx := ecx - w;
        }
      }
    }

    /** rep movsd, downwards. */
    method RepMovsDown(ghost a: seq<int>, ghost d: Desc, ghost k0: nat) returns (ghost k: nat)
      requires InMemory(a, d) && Down(a, d, k0, 4) && 0 <= ecx && k0 + ecx * 4 <= d.len
      modifies this, mem
      ensures Down(a, d, k, 4) && k == k0 + old(ecx) * 4 && ecx == 0
    {
      hide InMemory, Cpu.Up, Cpu.Down;
      k := k0;
      while ecx > 0
        invariant 0 <= ecx && k + ecx * 4 == k0 + old(ecx) * 4 && Down(a, d, k, 4)
      {
        MovsDown(4, a, d, k);
        ecx, k := ecx - 1, k + 4;
      }
    }

    /** Both pointers moved by `delta`. */
    method Shift(delta: int, ghost a: seq<int>, ghost d: Desc, ghost k: nat, ghost w: nat)
      requires InMemory(a, d) && Down(a, d, k, w) && w - delta >= 0
      modifies this`esi, this`edi
      ensures Down(a, d, k, w - delta)
    {
      esi := esi + delta;
      edi := edi + delta;
    }

    /** The words and dwords; what is left is at most one byte, told by the low byte. */
    method BulkMovsDown(word: bool, ghost a: seq<int>, ghost d: Desc, ghost k0: nat) returns (al: int, ghost k: nat)
      requires InMemory(a, d) && Down(a, d, k0, 2) && 0 <= ecx && k0 + ecx == d.len
      modifies this, mem
      ensures Down(a, d, k, 2) && k + (if Bit0(al) then 1 else 0) == d.len
    {
      hide InMemory, Cpu.Up, Cpu.Down, Bit0, Bit1, LowByte, Dwords;
      k := k0;
      al := LowByte(ecx);
      LowBits(ecx);
      if ecx >= 2 {
        k := IfMovsDown(word, 2, true, a, d, k);
        Shift(-2, a, d, k, 2);
        al := LowByte(ecx);
        LowBits(ecx);
        ecx := Dwords(ecx);
        k := RepMovsDown(a, d, k);
        Shift(2, a, d, k, 4);
        k := IfMovsDown(Bit1(al), 2, false, a, d, k);
      }
    }

    /** Lines 97-103: the pointers go to the last bytes. */
    method ToLastByte(ghost d: Desc)
      requires InMemory(mem[..], d) && 0 < d.len == ecx && d.src != WORD - 1
      requires esi == d.src && edi == d.dst && d.src <= d.dst
      modifies this`esi, this`edi
      ensures Down(mem[..], d, 0, 1) && edi >= 0
    {
      esi := esi + ecx - 1;
      edi := edi + ecx - 1;
    }

    /** Lines 96-147, for a target that overlaps the source from above. */
    method Reverse(ghost d: Desc)
      requires InMemory(mem[..], d) && 0 < d.len == ecx && d.src != WORD - 1
      requires esi == d.src && edi == d.dst && d.src <= d.dst
      modifies this, mem
      ensures mem[..] == Moved(old(mem[..]), d)
    {
      hide InMemory, Cpu.Down, Moved, Bit0, Bit1, LowByte, Dwords;
      ghost var a, k := mem[..], 0;
      ToLastByte(d);
      var edx := edi / 2;
      k := IfMovsDown(!Bit0(edi), 1, true, a, d, k);
      Shift(-1, a, d, k, 1);
      var al;
      al, k := BulkMovsDown(!Bit0(edx), a, d, k);
      Shift(1, a, d, k, 2);
      k := IfMovsDown(Bit0(al), 1, false, a, d, k);
      DownDone(a, d);
    }

    lemma DownDone(a: seq<int>, d: Desc)
      requires InMemory(a, d) && Down(a, d, d.len, 1)
      ensures mem[..] == Moved(a, d)
    {
      WholeMoved(a, mem[..], d);
    }

    /** `pm_bcopy`, bcopyxx.inc:46-183. */
    method PmBcopy()
      requires 0 < ecx && InMemory(mem[..], Desc(edi, esi, ecx))
      modifies this, mem
      ensures mem[..] == Moved(old(mem[..]), Desc(old(edi), old(esi), old(ecx)))
    {
      ghost var d := Desc(edi, esi, ecx);
      if esi == WORD - 1 {
        Zero(d);
      } else if esi < edi {
        if edi > esi + ecx - 1 {
          Forward(d);
        } else {
          Reverse(d);
        }
      } else {
        Forward(d);
      }
    }

    /**
     The loop of `pm_shuffle`, lines 232-240: carry out the list at `list`, reading each
     entry from memory just before it is used.  The entry point and mode are returned.
     */
    method PmShuffle(list: nat, ghost n: nat) returns (entry: int, mode: int)
      requires SafeList(mem[..], list, n)
      modifies this, mem
      ensures mem[..] == Shuffled(old(mem[..]), Entries(old(mem[..]), list, n))
      ensures entry == DescAt(old(mem[..]), list + 12 * n).dst && mode == DescAt(old(mem[..]), list + 12 * n).src
    {
      hide Moved, InMemory, DescAt;
      ghost var a, ds := mem[..], Entries(mem[..], list, n);
      EntriesSafe(a, list, n);
      var ebx := list;
      ghost var i := 0;
      while true
        invariant 0 <= i <= n && ebx == list + 12 * i && AllInMemory(a, ds)
        invariant mem[..] == Shuffled(a, ds[..i]) && ListKept(a, mem[..], list, n)
        decreases n - i
      {
        EntryKept(a, mem[..], list, n, i);
        edi := DWord(mem[..], ebx);
        esi := DWord(mem[..], ebx + 4);
        ecx := DWord(mem[..], ebx + 8);
        ebx := ebx + 12;
        if ecx == 0 {
          LastEntry(a, list, n, i);
          assert ds[..i] == ds;
          return edi, esi;
        }
        NotLast(a, list, n, i);
        ShuffleNext(a, mem[..], ds, i, list, n);
        PmBcopy();
        i := i + 1;
      }
    }
  }

  // ---------- lists of moves

  function DWord(m: seq<int>, at: nat): int
    requires at + 4 <= |m|
  {
    m[at] + 0x100 * m[at + 1] + 0x1_0000 * m[at + 2] + 0x100_0000 * m[at + 3]
  }

  function DescAt(m: seq<int>, at: nat): Desc
    requires at + 12 <= |m|
  {
    Desc(DWord(m, at), DWord(m, at + 4), DWord(m, at + 8))
  }

  function Entries(m: seq<int>, list: nat, n: nat): (ds: seq<Desc>)
    requires list + 12 * (n + 1) <= |m|
    ensures |ds| == n && forall i :: 0 <= i < n ==> ds[i] == DescAt(m, list + 12 * i)
  {
    seq(n, i requires 0 <= i < n => DescAt(m, list + 12 * i))
  }

  /** A move that stays in memory and does not write over the list. */
  predicate SafeEntry(m: seq<int>, d: Desc, list: nat, n: nat) {
    InMemory(m, d) && d.len > 0 && (d.dst + d.len <= list || list + 12 * (n + 1) <= d.dst)
  }

  /** `n` safe moves, and then an entry of length zero. */
  ghost predicate SafeList(m: seq<int>, list: nat, n: nat) {
    && list + 12 * (n + 1) <= |m| && DescAt(m, list + 12 * n).len == 0
    && forall i :: 0 <= i < n ==> SafeEntry(m, Entries(m, list, n)[i], list, n)
  }

  ghost predicate AllInMemory(m: seq<int>, ds: seq<Desc>) {
    forall i :: 0 <= i < |ds| ==> InMemory(m, ds[i])
  }

  /** The moves one after the other. */
  ghost function Shuffled(m: seq<int>, ds: seq<Desc>): (r: seq<int>)
    requires AllInMemory(m, ds)
    ensures |r| == |m|
  {
    if ds == [] then m
    else
      var last := |ds| - 1;
      assert InMemory(m, ds[last]);
      Moved(Shuffled(m, ds[..last]), ds[last])
  }

  ghost predicate ListKept(a: seq<int>, b: seq<int>, list: nat, n: nat) {
    |a| == |b| && forall k :: list <= k < list + 12 * (n + 1) && k < |a| ==> b[k] == a[k]
  }

  lemma EntriesSafe(a: seq<int>, list: nat, n: nat)
    requires SafeList(a, list, n)
    ensures AllInMemory(a, Entries(a, list, n)) && ListKept(a, a, list, n) && list + 12 * (n + 1) <= |a|
    ensures Entries(a, list, n)[..0] == []
  {
    forall i | 0 <= i < n ensures InMemory(a, Entries(a, list, n)[i]) {
      assert SafeEntry(a, Entries(a, list, n)[i], list, n);
    }
  }

  lemma EntryKept(a: seq<int>, b: seq<int>, list: nat, n: nat, i: nat)
    requires ListKept(a, b, list, n) && list + 12 * (n + 1) <= |a| && i <= n
    ensures DescAt(b, list + 12 * i) == DescAt(a, list + 12 * i)
    ensures DescAt(b, list + 12 * i) == Desc(DWord(b, list + 12 * i), DWord(b, list + 12 * i + 4), DWord(b, list + 12 * i + 8))
  {
  }

  lemma LastEntry(a: seq<int>, list: nat, n: nat, i: nat)
    requires SafeList(a, list, n) && i <= n && DescAt(a, list + 12 * i).len == 0
    ensures i == n
  {
    var es := Entries(a, list, n);
    var len := if i < n then es[i].len else 0;
    assert forall k :: 0 <= k < n ==> es[k].len > 0 by {
      forall k | 0 <= k < n ensures es[k].len > 0 {
        assert SafeEntry(a, es[k], list, n);
      }
    }
  }

  lemma NotLast(a: seq<int>, list: nat, n: nat, i: nat)
    requires SafeList(a, list, n) && i <= n && DescAt(a, list + 12 * i).len != 0
    ensures i < n && DescAt(a, list + 12 * i) == Entries(a, list, n)[i]
    ensures SafeEntry(a, Entries(a, list, n)[i], list, n) && Entries(a, list, n)[i].len > 0
  {
  }

  lemma ShuffleNext(a: seq<int>, b: seq<int>, ds: seq<Desc>, i: nat, list: nat, n: nat)
    requires AllInMemory(a, ds) && i < |ds| && b == Shuffled(a, ds[..i]) && ListKept(a, b, list, n)
    requires SafeEntry(a, ds[i], list, n)
    ensures InMemory(b, ds[i]) && Moved(b, ds[i]) == Shuffled(a, ds[..i + 1]) && ListKept(a, Moved(b, ds[i]), list, n)
  {
    ShuffledStep(a, ds, i);
    hide Moved, Shuffled;
    forall k | list <= k < list + 12 * (n + 1) && k < |a| ensures Moved(b, ds[i])[k] == a[k] {
      MovedOutside(b, ds[i], k);
    }
  }

  lemma ShuffledStep(a: seq<int>, ds: seq<Desc>, i: nat)
    requires AllInMemory(a, ds) && i < |ds|
    ensures InMemory(Shuffled(a, ds[..i]), ds[i])
    ensures Shuffled(a, ds[..i + 1]) == Moved(Shuffled(a, ds[..i]), ds[i])
  {
    assert ds[..i + 1][..i] == ds[..i];
  }

  lemma MovedOutside(m: seq<int>, d: Desc, k: nat)
    requires InMemory(m, d) && k < |m| && !(d.dst <= k < d.dst + d.len)
    ensures Moved(m, d)[k] == m[k]
  {
  }
}
