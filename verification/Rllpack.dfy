/**
 The run-length packer of rllpack.c.  Packed records are stacked downward in memory: a
 pointer names the byte above the record, and the record is read towards lower addresses.
 */
module Rllpack {

  type Byte = b: int | 0 <= b < 256

  const MAX_RUN: nat := 8191
  const MAX_VERBATIM: nat := 128

  datatype Record =
    | Verbatim(data: seq<Byte>)
    | Repeat(n: nat, c: Byte)

  // ---------- the format (rllpack.c:20-28)

  ghost predicate GoodRecord(r: Record) {
    match r
    case Verbatim(d) => 1 <= |d| <= MAX_VERBATIM
    case Repeat(n, _) => 3 <= n <= MAX_RUN
  }

  ghost predicate GoodRecords(rs: seq<Record>) {
    forall k :: 0 <= k < |rs| ==> GoodRecord(rs[k])
  }

  function Repeated(n: nat, c: Byte): (s: seq<Byte>)
    ensures |s| == n
  {
    seq(n, _ => c)
  }

  function Expand(r: Record): seq<Byte> {
    match r
    case Verbatim(d) => d
    case Repeat(n, c) => Repeated(n, c)
  }

  function ExpandAll(rs: seq<Record>): seq<Byte> {
    if rs == [] then [] else Expand(rs[0]) + ExpandAll(rs[1..])
  }

  /** The bytes of one record in reading order. */
  function Encode(r: Record): (s: seq<Byte>)
    requires GoodRecord(r)
  {
    match r
    case Verbatim(d) => [|d|] + d
    case Repeat(n, c) => if n < 98 then [n + 126, c] else [224 + n / 256, n % 256, c]
  }

  function EncodeAll(rs: seq<Record>): seq<Byte>
    requires GoodRecords(rs)
  {
    if rs == [] then [] else Encode(rs[0]) + EncodeAll(rs[1..])
  }

  datatype Decoded = Truncated | Decoded(data: seq<Byte>, used: nat)

  /** What unpacking the stream `s` from its start yields, and how much of it is read. */
  function Decode(s: seq<Byte>): Decoded
    decreases |s|
  {
    if s == [] then Truncated
    else if s[0] == 0 then Decoded([], 1)
    else
      var head := HeadLength(s);
      if head == 0 then Truncated
      else
        match Decode(s[head..])
        case Truncated => Truncated
        case Decoded(rest, used) => Decoded(HeadData(s) + rest, head + used)
  }

  /** Length of the first record of `s`, or 0 when the stream ends inside it. */
  function HeadLength(s: seq<Byte>): (n: nat)
    requires s != [] && s[0] != 0
    ensures n <= |s|
  {
    var n := if s[0] <= 128 then 1 + s[0] else if s[0] < 224 then 2 else 3;
    if n <= |s| then n else 0
  }

  function HeadData(s: seq<Byte>): seq<Byte>
    requires s != [] && s[0] != 0 && HeadLength(s) > 0
  {
    var c: int := s[0];
    if c <= 128 then s[1..1 + c]
    else if c < 224 then Repeated(c - 126, s[1])
    else Repeated((c - 224) * 256 + s[1], s[2])
  }

  /** The leading byte: how many bytes follow as they are, or how often the next one is repeated. */
  lemma DecodeFormat(x: Byte, y: Byte, c: Byte, d: seq<Byte>, t: seq<Byte>)
    requires Decode(t).Decoded?
    ensures Decode([0] + t) == Decoded([], 1)
    ensures 1 <= x <= 128 && |d| == x ==> Decode([x] + d + t) == Decoded(d + Decode(t).data, 1 + x + Decode(t).used)
    ensures 129 <= x <= 223 ==> Decode([x, c] + t) == Decoded(seq(x - 126, _ => c) + Decode(t).data, 2 + Decode(t).used)
    ensures 224 <= x ==> Decode([x, y, c] + t) == Decoded(seq((x - 224) * 256 + y, _ => c) + Decode(t).data, 3 + Decode(t).used)
  {
    if 1 <= x <= 128 && |d| == x {
      var s := [x] + d + t;
      assert s[1..1 + x] == d && s[1 + x..] == t;
    } else if 129 <= x <= 223 {
      assert ([x, c] + t)[2..] == t;
    } else if 224 <= x {
      assert ([x, y, c] + t)[3..] == t;
    }
  }

  // ---------- the packer's choice of records (rllpack.c:43-73)

  /** Length of the leading run of equal bytes, capped at MAX_RUN. */
  function RunLength(s: seq<Byte>, run: nat): (r: nat)
    requires 1 <= run <= |s| && run <= MAX_RUN
    requires forall k :: 0 <= k < run ==> s[k] == s[0]
    ensures run <= r <= |s| && r <= MAX_RUN
    ensures forall k :: 0 <= k < r ==> s[k] == s[0]
    ensures r == |s| || r == MAX_RUN || s[r] != s[0]
    decreases |s| - run
  {
    if run < |s| && run < MAX_RUN && s[run] == s[0] then RunLength(s, run + 1) else run
  }

  function Flushed(open: seq<Byte>): seq<Record> {
    if open == [] then [] else [Verbatim(open)]
  }

  /** The records for `s` when the verbatim record `open` may still grow. */
  function Choose(s: seq<Byte>, open: seq<Byte>): (rs: seq<Record>)
    requires |open| <= MAX_VERBATIM
    ensures GoodRecords(rs)
    decreases |s|
  {
    if s == [] then Flushed(open)
    else
      var run := RunLength(s, 1);
      if run < 3 then
        if |open| == MAX_VERBATIM then Flushed(open) + Choose(s[1..], [s[0]])
        else Choose(s[1..], open + [s[0]])
      else Flushed(open) + [Repeat(run, s[0])] + Choose(s[run..], [])
  }

  lemma ChooseVerbatim(s: seq<Byte>, open: seq<Byte>)
    requires |open| <= MAX_VERBATIM && s != [] && RunLength(s, 1) < 3
    ensures |open| == MAX_VERBATIM ==> Choose(s, open) == Flushed(open) + Choose(s[1..], [s[0]])
    ensures |open| < MAX_VERBATIM ==> Choose(s, open) == Choose(s[1..], open + [s[0]])
  {
    hide Flushed, GoodRecords, GoodRecord;
  }

  lemma ChooseNothing(open: seq<Byte>)
    requires |open| <= MAX_VERBATIM
    ensures Choose([], open) == Flushed(open)
  {
  }

  lemma ChooseRepeat(s: seq<Byte>, open: seq<Byte>)
    requires |open| <= MAX_VERBATIM && s != [] && RunLength(s, 1) >= 3
    ensures var run := RunLength(s, 1);
            Choose(s, open) == Flushed(open) + ([Repeat(run, s[0])] + Choose(s[run..], []))
  {
    hide Flushed, GoodRecords, GoodRecord;
    var run := RunLength(s, 1);
    var r, tail := [Repeat(run, s[0])], Choose(s[run..], []);
    assert Flushed(open) + r + tail == Flushed(open) + (r + tail);
  }

  function Packed(s: seq<Byte>): seq<Byte> {
    EncodeAll(Choose(s, [])) + [0]
  }

  // ---------- round trip

  lemma ExpandAllAppend(rs: seq<Record>, ts: seq<Record>)
    ensures ExpandAll(rs + ts) == ExpandAll(rs) + ExpandAll(ts)
  {
    if rs == [] {
      assert rs + ts == ts;
    } else {
      assert (rs + ts)[1..] == rs[1..] + ts;
    }
  }

  lemma {:induction false} EncodeAllAppend(rs: seq<Record>, ts: seq<Record>)
    requires GoodRecords(rs) && GoodRecords(ts)
    ensures EncodeAll(rs + ts) == EncodeAll(rs) + EncodeAll(ts)
    decreases |rs|
  {
    hide Encode, GoodRecord;
    if rs == [] {
      assert rs + ts == ts;
    } else {
      assert (rs + ts)[0] == rs[0] && (rs + ts)[1..] == rs[1..] + ts;
      EncodeAllAppend(rs[1..], ts);
      assert Encode(rs[0]) + (EncodeAll(rs[1..]) + EncodeAll(ts)) == Encode(rs[0]) + EncodeAll(rs[1..]) + EncodeAll(ts);
    }
  }

  lemma ExpandFlushed(open: seq<Byte>)
    ensures ExpandAll(Flushed(open)) == open
  {
  }

  lemma ExpandRepeat(s: seq<Byte>, run: nat, rs: seq<Record>)
    requires 0 < run <= |s| && (forall k :: 0 <= k < run ==> s[k] == s[0]) && ExpandAll(rs) == s[run..]
    ensures ExpandAll([Repeat(run, s[0])] + rs) == s
  {
    assert ([Repeat(run, s[0])] + rs)[1..] == rs;
    assert Repeated(run, s[0]) == s[..run];
  }

  /** The packer neither loses nor reorders a byte. */
  lemma {:induction false} ChooseExpands(s: seq<Byte>, open: seq<Byte>)
    requires |open| <= MAX_VERBATIM
    ensures ExpandAll(Choose(s, open)) == open + s
    decreases |s|
  {
    hide ExpandAll, Flushed;
    ExpandFlushed(open);
    if s != [] {
      var run := RunLength(s, 1);
      if run < 3 {
        assert s == [s[0]] + s[1..];
        if |open| == MAX_VERBATIM {
          ChooseExpands(s[1..], [s[0]]);
          ExpandAllAppend(Flushed(open), Choose(s[1..], [s[0]]));
        } else {
          ChooseExpands(s[1..], open + [s[0]]);
          assert open + [s[0]] + s[1..] == open + s;
        }
      } else {
        var rest := [Repeat(run, s[0])] + Choose(s[run..], []);
        ChooseExpands(s[run..], []);
        assert [] + s[run..] == s[run..];
        ExpandRepeat(s, run, Choose(s[run..], []));
        ExpandAllAppend(Flushed(open), rest);
        assert Flushed(open) + [Repeat(run, s[0])] + Choose(s[run..], []) == Flushed(open) + rest;
      }
    } else {
      assert open + s == open;
    }
  }

  lemma HeadOfRecord(r: Record, t: seq<Byte>)
    requires GoodRecord(r)
    ensures var s := Encode(r) + t;
            s[0] != 0 && HeadLength(s) == |Encode(r)| && HeadData(s) == Expand(r) && s[|Encode(r)|..] == t
  {
    var s := Encode(r) + t;
    match r
    case Verbatim(d) => assert s[1..1 + |d|] == d;
    case Repeat(n, c) =>
      if n < 98 {
        assert s[0] == n + 126 && s[1] == c;
      } else {
        assert s[0] == 224 + n / 256 && s[1] == n % 256 && s[2] == c;
        assert n / 256 * 256 + n % 256 == n;
      }
  }

  /** Decoding reads exactly the records up to the end mark, whatever lies behind it. */
  lemma {:induction false} DecodeRecords(rs: seq<Record>, t: seq<Byte>)
    requires GoodRecords(rs)
    ensures Decode(EncodeAll(rs) + [0] + t) == Decoded(ExpandAll(rs), |EncodeAll(rs)| + 1)
    decreases |rs|
  {
    if rs != [] {
      var rest := EncodeAll(rs[1..]) + [0] + t;
      assert EncodeAll(rs) + [0] + t == Encode(rs[0]) + rest;
      HeadOfRecord(rs[0], rest);
      DecodeRecords(rs[1..], t);
    }
  }

  /** Unpacking inverts packing for every byte string and stops where packing stopped. */
  lemma RoundTrip(s: seq<Byte>, t: seq<Byte>)
    ensures Decode(Packed(s) + t) == Decoded(s, |Packed(s)|)
  {
    ChooseExpands(s, []);
    DecodeRecords(Choose(s, []), t);
  }

  // ---------- size

  function CeilDiv(n: nat, d: nat): nat
    requires d > 0
  {
    (n + d - 1) / d
  }

  lemma CeilDivBounds(n: nat, m: nat)
    ensures CeilDiv(MAX_VERBATIM + n, MAX_VERBATIM) == 1 + CeilDiv(n, MAX_VERBATIM)
    ensures n <= m ==> CeilDiv(n, MAX_VERBATIM) <= CeilDiv(m, MAX_VERBATIM)
    ensures 0 < n <= MAX_VERBATIM ==> CeilDiv(n, MAX_VERBATIM) == 1
  {
  }

  lemma FlushedSize(open: seq<Byte>, rs: seq<Record>)
    requires |open| <= MAX_VERBATIM && GoodRecords(rs)
    ensures GoodRecords(Flushed(open) + rs)
    ensures |EncodeAll(Flushed(open) + rs)| == (if open == [] then 0 else |open| + 1) + |EncodeAll(rs)|
  {
    EncodeAllAppend(Flushed(open), rs);
    assert open != [] ==> Flushed(open)[1..] == [];
  }

  lemma RepeatSize(run: nat, c: Byte, rs: seq<Record>)
    requires GoodRecord(Repeat(run, c)) && GoodRecords(rs)
    ensures GoodRecords([Repeat(run, c)] + rs) && |EncodeAll([Repeat(run, c)] + rs)| < run + |EncodeAll(rs)|
  {
    assert ([Repeat(run, c)] + rs)[1..] == rs;
  }

  lemma {:induction false} ChooseSize(s: seq<Byte>, open: seq<Byte>)
    requires |open| <= MAX_VERBATIM
    ensures |EncodeAll(Choose(s, open))| <= |open| + |s| + CeilDiv(|open| + |s|, MAX_VERBATIM)
    decreases |s|
  {
    hide CeilDiv, EncodeAll, Flushed, GoodRecords, GoodRecord, Choose;
    CeilDivBounds(|s|, |open| + |s|);
    if s == [] {
      ChooseNothing(open);
      FlushedSize(open, []);
      CeilDivBounds(|open|, 0);
      NothingEncoded();
      assert Flushed(open) + [] == Flushed(open);
    } else {
      var run := RunLength(s, 1);
      if run < 3 {
        ChooseVerbatim(s, open);
        if |open| == MAX_VERBATIM {
          ChooseSize(s[1..], [s[0]]);
          FlushedSize(open, Choose(s[1..], [s[0]]));
        } else {
          ChooseSize(s[1..], open + [s[0]]);
        }
      } else {
        ChooseSize(s[run..], []);
        ChooseRepeat(s, open);
        RepeatSize(run, s[0], Choose(s[run..], []));
        FlushedSize(open, [Repeat(run, s[0])] + Choose(s[run..], []));
        CeilDivBounds(|s| - run, |open| + |s|);
      }
    }
  }

  /** A run of equal bytes is packed into three bytes or four, with the end mark. */
  lemma RunPacked(n: nat, c: Byte)
    requires 3 <= n <= MAX_RUN
    ensures |Packed(Repeated(n, c))| == if n < 98 then 3 else 4
  {
    var s := Repeated(n, c);
    var run := RunLength(s, 1);
    assert run == n;
    assert s[run..] == [];
    ChooseNothing([]);
    assert Choose(s, []) == [Repeat(n, c)];
    assert EncodeAll([Repeat(n, c)]) == Encode(Repeat(n, c)) + EncodeAll([Repeat(n, c)][1..]);
    NothingEncoded();
  }

  lemma NothingEncoded()
    ensures GoodRecords([]) && EncodeAll([]) == []
  {
  }

  /** Packing n bytes takes at most n + ceil(n / 128) + 1 bytes. */
  lemma PackedSize(s: seq<Byte>)
    ensures |Packed(s)| <= |s| + CeilDiv(|s|, MAX_VERBATIM) + 1
  {
    ChooseSize(s, []);
  }

  // ---------- the code

  // (size_t)-1, the counter value that forces a new header.
  const NO_RUN: int := 0xffff_ffff

  /** The stream `s` lies in `mem` below `top`, read downwards. */
  ghost predicate Stacked(mem: seq<Byte>, top: int, s: seq<Byte>) {
    |s| <= top <= |mem| && forall k :: 0 <= k < |s| ==> mem[top - 1 - k] == s[k]
  }

  /** What has been written when `done` is complete and `open` may still grow. */
  ghost function Written(done: seq<Record>, open: seq<Byte>): seq<Byte>
    requires GoodRecords(done) && |open| <= MAX_VERBATIM
  {
    EncodeAll(done) + (if open == [] then [] else [|open|] + open)
  }

  /** Choosing records for `all` has come to `done` and `open`, with `rest` still to do. */
  ghost predicate Progress(all: seq<Byte>, rest: seq<Byte>, done: seq<Record>, open: seq<Byte>) {
    GoodRecords(done) && |open| <= MAX_VERBATIM && Choose(all, []) == done + Choose(rest, open)
  }

  lemma {:induction false} OpenFits(s: seq<Byte>, open: seq<Byte>)
    requires |open| <= MAX_VERBATIM
    ensures |EncodeAll(Flushed(open))| <= |EncodeAll(Choose(s, open))|
    decreases |s|
  {
    if s != [] {
      var run := RunLength(s, 1);
      if run < 3 {
        if |open| == MAX_VERBATIM {
          EncodeAllAppend(Flushed(open), Choose(s[1..], [s[0]]));
        } else {
          OpenFits(s[1..], open + [s[0]]);
        }
      } else {
        var rest := [Repeat(run, s[0])] + Choose(s[run..], []);
        EncodeAllAppend(Flushed(open), rest);
        assert Flushed(open) + [Repeat(run, s[0])] + Choose(s[run..], []) == Flushed(open) + rest;
      }
    }
  }

  /** What has been written, and the end mark, fit in the room the packed form needs. */
  lemma WrittenFits(all: seq<Byte>, rest: seq<Byte>, done: seq<Record>, open: seq<Byte>)
    requires Progress(all, rest, done, open)
    ensures |Written(done, open)| < |Packed(all)|
    ensures rest == [] ==> Packed(all) == Written(done, open) + [0]
  {
    OpenFits(rest, open);
    EncodeAllAppend(done, Choose(rest, open));
    if open != [] {
      assert EncodeAll(Flushed(open)) == [|open|] + open by {
        assert Flushed(open)[1..] == [];
      }
    }
  }

  /** The next byte goes into a verbatim record, behind a new header when the last one is full. */
  lemma VerbatimStep(all: seq<Byte>, rest: seq<Byte>, done: seq<Record>, open: seq<Byte>)
    requires Progress(all, rest, done, open) && rest != [] && RunLength(rest, 1) < 3
    ensures |open| < MAX_VERBATIM ==> Progress(all, rest[1..], done, open + [rest[0]])
    ensures |open| == MAX_VERBATIM ==> Progress(all, rest[1..], done + Flushed(open), [rest[0]])
  {
    hide Flushed, GoodRecord, EncodeAll, Choose, RunLength;
    ChooseVerbatim(rest, open);
    if |open| == MAX_VERBATIM {
      FlushWritten(done, open);
      var tail := Choose(rest[1..], [rest[0]]);
      assert done + (Flushed(open) + tail) == done + Flushed(open) + tail;
    }
  }

  lemma FlushWritten(done: seq<Record>, open: seq<Byte>)
    requires GoodRecords(done) && |open| <= MAX_VERBATIM
    ensures GoodRecords(done + Flushed(open)) && Written(done + Flushed(open), []) == Written(done, open)
  {
    EncodeAllAppend(done, Flushed(open));
    if open == [] {
      assert done + Flushed(open) == done;
    } else {
      assert Flushed(open)[1..] == [];
    }
  }

  /** A run of three or more becomes a repeat record. */
  lemma RepeatStep(all: seq<Byte>, rest: seq<Byte>, done: seq<Record>, open: seq<Byte>)
    requires Progress(all, rest, done, open) && rest != [] && RunLength(rest, 1) >= 3
    ensures var run := RunLength(rest, 1);
            Progress(all, rest[run..], done + Flushed(open) + [Repeat(run, rest[0])], [])
  {
    hide Flushed, EncodeAll, Choose;
    var run := RunLength(rest, 1);
    var r := [Repeat(run, rest[0])];
    FlushWritten(done, open);
    ChooseRepeat(rest, open);
    assert done + (Flushed(open) + (r + Choose(rest[run..], []))) == done + Flushed(open) + r + Choose(rest[run..], []);
  }

  lemma RepeatWritten(done: seq<Record>, open: seq<Byte>, r: Record)
    requires GoodRecords(done) && |open| <= MAX_VERBATIM && GoodRecord(r)
    ensures GoodRecords(done + Flushed(open) + [r])
    ensures Written(done + Flushed(open) + [r], []) == Written(done, open) + Encode(r)
  {
    hide Flushed, Encode, GoodRecord;
    FlushWritten(done, open);
    EncodeAllAppend(done + Flushed(open), [r]);
    assert [r][1..] == [];
  }

  /** The inner loop of the packer: length of the run at `i`, rllpack.c:47-50. */
  method CountRun(src: array<Byte>, i: nat, cnt: nat) returns (run: nat)
    requires 0 < cnt && i + cnt <= src.Length
    ensures run == RunLength(src[i..i + cnt], 1) && 1 <= run <= cnt && (run >= 3 ==> GoodRecord(Repeat(run, src[i])))
  {
    ghost var s := src[i..i + cnt];
    var c := src[i];
    run := 1;
    var tcnt := if cnt > 8191 then 8191 else cnt;
    while run < tcnt && src[i + run] == c
      invariant 1 <= run <= tcnt
      invariant forall k :: 0 <= k < run ==> s[k] == s[0]
      invariant RunLength(s, run) == RunLength(s, 1)
    {
      assert s[run] == src[i + run];
      run := run + 1;
    }
    assert run < |s| ==> s[run] == src[i + run];
  }

  /** Lines 53-60: one byte into the verbatim record, with its header brought up to date. */
  method PutVerbatim(dst: array<Byte>, o0: nat, o1: nat, hdr0: int, vrun0: int, c: Byte,
                     ghost done: seq<Record>, ghost open: seq<Byte>)
    returns (o: nat, hdr: int, vrun: int)
    requires GoodRecords(done) && |open| < MAX_VERBATIM
    requires if open == [] then vrun0 >= 128 else vrun0 == |open| && hdr0 == o0 - 1 - |EncodeAll(done)|
    requires Stacked(dst[..], o0, Written(done, open)) && o1 == o0 - |Written(done, open)|
    requires |Written(done, open + [c])| <= o0
    modifies dst
    ensures vrun == |open| + 1 && hdr == o0 - 1 - |EncodeAll(done)|
    ensures o <= o1 && o == o0 - |Written(done, open + [c])| && Stacked(dst[..], o0, Written(done, open + [c]))
    ensures forall x :: 0 <= x < dst.Length && !(o <= x < o0) ==> dst[x] == old(dst[x])
  {
    hide EncodeAll;
    ghost var before := EncodeAll(done);
    assert Written(done, open + [c]) == before + [|open| + 1] + open + [c];
    o, hdr, vrun := o1, hdr0, vrun0;
    if vrun >= 128 {
      o := o - 1;
      hdr := o;
      vrun := 0;
    }
    o := o - 1;
    dst[o] := c;
    vrun := vrun + 1;
    dst[hdr] := vrun;
    ghost var w, w' := Written(done, open), Written(done, open + [c]);
    forall k | 0 <= k < |w'| ensures dst[o0 - 1 - k] == w'[k] {
      if k < |before| || |before| < k < |w'| - 1 {
        assert w[k] == w'[k];
      }
    }
  }

  /** Lines 62-68: a repeat record in its two- or three-byte form. */
  method PutRepeat(dst: array<Byte>, o0: nat, o1: nat, run: nat, c: Byte, ghost w: seq<Byte>) returns (o: nat)
    requires GoodRecord(Repeat(run, c))
    requires Stacked(dst[..], o0, w) && o1 == o0 - |w| && |w + Encode(Repeat(run, c))| <= o0
    modifies dst
    ensures o <= o1 && o == o0 - |w + Encode(Repeat(run, c))| && Stacked(dst[..], o0, w + Encode(Repeat(run, c)))
    ensures forall x :: 0 <= x < dst.Length && !(o <= x < o0) ==> dst[x] == old(dst[x])
  {
    o := o1;
    if run < 224 - 126 {
      o := o - 1;
      dst[o] := run + 126;
    } else {
      o := o - 2;
      var word := run + 224 * 256;
      dst[o], dst[o + 1] := word % 256, word / 256;
    }
    o := o - 1;
    dst[o] := c;
  }

  /** `rllpack`, rllpack.c:34-78. */
  method RllPack(src: array<Byte>, i0: nat, cnt0: nat, dst: array<Byte>, o0: nat) returns (i: nat, o: nat)
    requires src != dst && i0 + cnt0 <= src.Length && o0 <= dst.Length
    requires |Packed(src[i0..i0 + cnt0])| <= o0
    modifies dst
    ensures i == i0 + cnt0
    ensures o == o0 - |Packed(src[i0..i0 + cnt0])| && Stacked(dst[..], o0, Packed(src[i0..i0 + cnt0]))
    ensures forall x :: 0 <= x < dst.Length && !(o <= x < o0) ==> dst[x] == old(dst[x])
  {
    hide EncodeAll, Flushed, Choose, Stacked, Encode, Packed, RunLength, Written, Progress, GoodRecord;
    ghost var all := src[i0..i0 + cnt0];
    ghost var done: seq<Record>, open: seq<Byte> := [], [];
    var cnt, hdr, vrun := cnt0, 0, NO_RUN;
    i, o := i0, o0;
    Start(all, dst[..], o0);
    while cnt > 0
      invariant i + cnt == i0 + cnt0 && 0 <= cnt <= cnt0
      invariant Progress(all, src[i..i0 + cnt0], done, open) && GoodRecords(done) && |open| <= MAX_VERBATIM
      invariant vrun == (if open == [] then NO_RUN else |open|)
      invariant open != [] ==> hdr == o0 - 1 - |EncodeAll(done)|
      invariant o == o0 - |Written(done, open)| && Stacked(dst[..], o0, Written(done, open))
      invariant forall x :: 0 <= x < dst.Length && !(o <= x < o0) ==> dst[x] == old(dst[x])
    {
      ghost var rest := src[i..i0 + cnt0];
      var c := src[i];
      var run := CountRun(src, i, cnt);
      assert c == rest[0];
      if run < 3 {
        VerbatimStep(all, rest, done, open);
        if |open| == MAX_VERBATIM {
          FlushWritten(done, open);
          done, open := done + Flushed(open), [];
        }
        assert [] + [c] == [c] && rest[1..] == src[i + 1..i0 + cnt0];
        WrittenFits(all, rest[1..], done, open + [c]);
        o, hdr, vrun := PutVerbatim(dst, o0, o, hdr, vrun, c, done, open);
        open := open + [c];
        i := i + 1;
        cnt := cnt - 1;
      } else {
        assert rest[run..] == src[i + run..i0 + cnt0];
        RepeatStep(all, rest, done, open);
        RepeatWritten(done, open, Repeat(run, c));
        WrittenFits(all, rest[run..], done + Flushed(open) + [Repeat(run, c)], []);
        o := PutRepeat(dst, o0, o, run, c, Written(done, open));
        done, open := done + Flushed(open) + [Repeat(run, c)], [];
        vrun := NO_RUN;
        i := i + run;
        cnt := cnt - run;
      }
    }
    assert src[i..i0 + cnt0] == [];
    WrittenFits(all, [], done, open);
    o := o - 1;
    PutEnd(dst[..], o0, Written(done, open));
    dst[o] := 0;
  }

  lemma Start(all: seq<Byte>, mem: seq<Byte>, top: nat)
    requires top <= |mem|
    ensures Progress(all, all, [], []) && Written([], []) == [] && Stacked(mem, top, [])
  {
    assert Choose(all, []) == [] + Choose(all, []);
  }

  lemma PutEnd(mem: seq<Byte>, top: nat, w: seq<Byte>)
    requires Stacked(mem, top, w) && |w| < top
    ensures Stacked(mem[top - |w| - 1 := 0], top, w + [0])
  {
  }

  // ---------- the unpacker

  lemma DecodeStep(s: seq<Byte>)
    requires Decode(s).Decoded? && s != [] && s[0] != 0
    ensures HeadLength(s) > 0
    ensures var rest := Decode(s[HeadLength(s)..]);
            rest.Decoded? && Decode(s) == Decoded(HeadData(s) + rest.data, HeadLength(s) + rest.used)
  {
  }

  lemma StackedRest(mem: seq<Byte>, top: int, s: seq<Byte>, k: nat)
    requires Stacked(mem, top, s) && k <= |s|
    ensures Stacked(mem, top - k, s[k..])
  {
  }

  /** Lines 89-91: `c0` bytes as they stand. */
  method CopyVerbatim(src: array<Byte>, i0: nat, c0: Byte, dst: array<Byte>, o0: nat, ghost s: seq<Byte>)
    returns (i: nat, o: nat)
    requires src != dst && Stacked(src[..], i0 + 1, s) && 1 + c0 <= |s| && o0 + c0 <= dst.Length
    modifies dst
    ensures i == i0 - c0 && o == o0 + c0 && dst[o0..o] == s[1..1 + c0]
    ensures forall x :: 0 <= x < dst.Length && !(o0 <= x < o) ==> dst[x] == old(dst[x])
  {
    i, o := i0, o0;
    var c: int := c0;
    while c > 0
      invariant 0 <= c <= c0 && i == i0 - (c0 - c) && o == o0 + (c0 - c)
      invariant forall x :: o0 <= x < o ==> dst[x] == s[1 + x - o0]
      invariant forall x :: 0 <= x < dst.Length && !(o0 <= x < o) ==> dst[x] == old(dst[x])
    {
      i := i - 1;
      assert src[i] == s[i0 - i];
      dst[o] := src[i];
      o := o + 1;
      c := c - 1;
    }
  }

  /** Lines 97-98: `n0` times the byte `c`. */
  method FillRun(c: Byte, n0: nat, dst: array<Byte>, o0: nat) returns (o: nat)
    requires o0 + n0 <= dst.Length
    modifies dst
    ensures o == o0 + n0 && dst[o0..o] == Repeated(n0, c)
    ensures forall x :: 0 <= x < dst.Length && !(o0 <= x < o) ==> dst[x] == old(dst[x])
  {
    o := o0;
    var n := n0;
    while n > 0
      invariant 0 <= n <= n0 && o == o0 + (n0 - n)
      invariant forall x :: o0 <= x < o ==> dst[x] == c
      invariant forall x :: 0 <= x < dst.Length && !(o0 <= x < o) ==> dst[x] == old(dst[x])
    {
      dst[o] := c;
      o := o + 1;
      n := n - 1;
    }
  }

  /** The body of the outer loop, rllpack.c:88-99: expand the record whose header `c0` was read from `i0`. */
  method UnpackRecord(src: array<Byte>, i0: nat, c0: Byte, dst: array<Byte>, o0: nat, ghost s: seq<Byte>)
    returns (i: nat, o: nat)
    requires src != dst && Stacked(src[..], i0 + 1, s) && s != [] && c0 == s[0] && c0 != 0 && HeadLength(s) > 0
    requires o0 + |HeadData(s)| <= dst.Length
    modifies dst
    ensures i == i0 + 1 - HeadLength(s) && o == o0 + |HeadData(s)| && dst[o0..o] == HeadData(s)
    ensures forall x :: 0 <= x < dst.Length && !(o0 <= x < o) ==> dst[x] == old(dst[x])
  {
    i, o := i0, o0;
    var c: int := c0;
    if c <= 128 {
      i, o := CopyVerbatim(src, i, c, dst, o, s);
    } else {
      var n: int;
      if c < 224 {
        n := c - 126;
      } else {
        i := i - 1;
        n := (c - 224) * 256 + src[i];
        assert src[i] == s[1];
      }
      i := i - 1;
      c := src[i];
      assert c == s[i0 - i];
      o := FillRun(c, n, dst, o);
    }
  }

  /** `rllunpack`, rllpack.c:80-105; `n` is the byte count it returns in ECX. */
  method RllUnpack(src: array<Byte>, i0: nat, dst: array<Byte>, o0: nat, ghost s: seq<Byte>)
    returns (i: nat, o: nat, n: nat)
    requires src != dst && Stacked(src[..], i0, s) && Decode(s).Decoded?
    requires o0 + |Decode(s).data| <= dst.Length
    modifies dst
    ensures i == i0 - Decode(s).used && o == o0 + n && n == |Decode(s).data|
    ensures dst[o0..o] == Decode(s).data
    ensures forall x :: 0 <= x < dst.Length && !(o0 <= x < o) ==> dst[x] == old(dst[x])
  {
    hide HeadLength, HeadData, Decode;
    ghost var left: seq<Byte>, data: seq<Byte> := s, [];
    DecodeEnds(s);
    i, o := i0 - 1, o0;
    var c := src[i];
    while c != 0
      invariant left != [] && c == left[0] && Stacked(src[..], i + 1, left) && Decode(left).Decoded?
      invariant data + Decode(left).data == Decode(s).data
      invariant i0 - (i + 1) + Decode(left).used == Decode(s).used
      invariant o == o0 + |data| && dst[o0..o] == data
      invariant forall x :: 0 <= x < dst.Length && !(o0 <= x < o) ==> dst[x] == old(dst[x])
      decreases |left|
    {
      var i1, o1 := i, o;
      DecodeStep(left);
      ghost var head, rest := HeadData(left), left[HeadLength(left)..];
      assert data + (head + Decode(rest).data) == data + head + Decode(rest).data;
      StackedRest(src[..], i + 1, left, HeadLength(left));
      i, o := UnpackRecord(src, i1, c, dst, o1, left);
      assert dst[o0..o] == dst[o0..o1] + dst[o1..o];
      left, data := rest, data + head;
      DecodeEnds(left);
      i := i - 1;
      c := src[i];
    }
    DecodeEnds(left);
    n := o - o0;
  }

  lemma DecodeEnds(s: seq<Byte>)
    requires Decode(s).Decoded?
    ensures s != [] && (s[0] == 0 ==> Decode(s) == Decoded([], 1))
  {
  }

  /**
     Whatever is packed below a record is found by unpacking it: records stacked one after
     another come back in the order in which they were packed.
   */
  lemma {:induction false} StackRoundTrip(blobs: seq<seq<Byte>>, mem: seq<Byte>, top: int, k: nat)
    requires Stacked(mem, top, PackedStack(blobs)) && k < |blobs|
    ensures var at := |PackedStack(blobs[..k])|;
            && at <= |PackedStack(blobs)|
            && Stacked(mem, top - at, PackedStack(blobs)[at..])
            && Decode(PackedStack(blobs)[at..]) == Decoded(blobs[k], |Packed(blobs[k])|)
            && at + |Packed(blobs[k])| == |PackedStack(blobs[..k + 1])|
  {
    hide Packed, Decode;
    PackedStackAppend(blobs[..k], blobs[k..]);
    PackedStackAppend(blobs[..k], [blobs[k]]);
    assert blobs[..k] + blobs[k..] == blobs && blobs[..k] + [blobs[k]] == blobs[..k + 1];
    var one := [blobs[k]];
    assert one[1..] == [] && PackedStack(one) == Packed(blobs[k]);
    var at := |PackedStack(blobs[..k])|;
    assert PackedStack(blobs)[at..] == Packed(blobs[k]) + PackedStack(blobs[k..][1..]);
    RoundTrip(blobs[k], PackedStack(blobs[k..][1..]));
    StackedRest(mem, top, PackedStack(blobs), at);
  }

  function PackedStack(blobs: seq<seq<Byte>>): seq<Byte> {
    if blobs == [] then [] else Packed(blobs[0]) + PackedStack(blobs[1..])
  }

  lemma {:induction false} PackedStackAppend(a: seq<seq<Byte>>, b: seq<seq<Byte>>)
    ensures PackedStack(a + b) == PackedStack(a) + PackedStack(b)
    decreases |a|
  {
    hide Packed;
    if a == [] {
      assert a + b == b;
    } else {
      assert (a + b)[1..] == a[1..] + b;
      PackedStackAppend(a[1..], b);
      assert Packed(a[0]) + (PackedStack(a[1..]) + PackedStack(b)) == Packed(a[0]) + PackedStack(a[1..]) + PackedStack(b);
    }
  }
}
