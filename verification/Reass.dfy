/** The fragment reassembly helper of include/utils/reass_helper.h. */
module Reass {
  import opened Common
  import Numbers
  import opened ByteBits

  /** The limits of size_t and uint64_t, and of half a size_t. */
  const SIZE_LIMIT: nat := 0x1_0000_0000_0000_0000
  const HALF_LIMIT: nat := 0x1_0000_0000

  type Word = n: nat | n < SIZE_LIMIT

  /** What the function answers, or that it has no answer: it divides by zero, or it writes beyond the buffer. */
  datatype Answer = Returned(status: Status) | DivisionByZero | OutOfBuffer

  // ----- the state -----

  datatype Bitmap = NoBitmap | Bitmap(bits: seq<bv8>)

  /** reass_hlp_t. */
  datatype State = State(buf: seq<bv8>, bitmap: Bitmap, blkSize: Word, blkCnt: nat, recvCnt: nat,
                         sequenceSize: nat, dupCnt: nat, reordersCnt: nat,
                         firstSeqNo: Word, lastSeqNo: Word, curSeqNo: Word)

  type Data = s: seq<bv8> | |s| < SIZE_LIMIT

  datatype Frag = Frag(seqNo: Word, isFirst: bool, isLast: bool, data: Data)

  function Cleared(bitmap: Bitmap): Bitmap
  {
    if bitmap.Bitmap? then Bitmap(seq(|bitmap.bits|, _ => 0)) else NoBitmap
  }

  /** reass_hlp_reset leaves the last sequence number alone. */
  function Reset(s: State): State
  {
    State(s.buf, Cleared(s.bitmap), 0, 0, 0, 0, 0, 0, 0, 0, s.curSeqNo)
  }

  /** reass_hlp_seq_calc_diff: one too small when the numbers wrap. */
  function SeqDiff(first: Word, last: Word): Word
  {
    if last >= first then last - first else last + (SIZE_LIMIT - 1 - first)
  }

  /** It is the distance of the two numbers exactly when they do not wrap. */
  lemma SeqDiffExact(first: Word, last: Word)
    ensures SeqDiff(first, last) == (last - first) % SIZE_LIMIT <==> first <= last
  {
    if last < first { Numbers.DivModUnique(last - first, SIZE_LIMIT, -1, last - first + SIZE_LIMIT); }
  }

  /** A flagged fragment starts over. */
  function Started(s: State, f: Frag): State
  {
    Reset(s).(blkSize := |f.data|, firstSeqNo := f.seqNo)
  }

  /** The state after the checks on the block size. */
  function Counted(s: State, f: Frag): State
  {
    if f.isFirst then Started(s, f)
    else if (s.curSeqNo + 1) % SIZE_LIMIT != f.seqNo then s.(reordersCnt := s.reordersCnt + 1)
    else s
  }

  /** The test for an overflow of the multiplication. */
  predicate Overflows(blkIdx: nat, blkSize: nat)
    requires blkSize > 0 || blkIdx < HALF_LIMIT
  {
    (blkIdx >= HALF_LIMIT || blkSize >= HALF_LIMIT) && blkIdx * blkSize % SIZE_LIMIT / blkSize != blkIdx
  }

  /** It is exact. */
  lemma OverflowsIff(blkIdx: nat, blkSize: nat)
    requires blkSize > 0 || blkIdx < HALF_LIMIT
    ensures Overflows(blkIdx, blkSize) <==> blkIdx * blkSize >= SIZE_LIMIT
  {
    if blkIdx * blkSize < SIZE_LIMIT {
      if blkSize > 0 { QuotientKept(blkIdx, blkSize, blkIdx * blkSize); }
    } else {
      BothHalf(blkIdx, blkSize);
      QuotientLost(blkIdx, blkSize, blkIdx * blkSize, blkIdx * blkSize % SIZE_LIMIT);
    }
  }

  lemma QuotientKept(i: nat, b: nat, x: nat)
    requires b > 0 && x == i * b && x < SIZE_LIMIT
    ensures x % SIZE_LIMIT / b == i
  {
    assert x % SIZE_LIMIT == x;
    Numbers.DivExact(i, b);
  }

  lemma QuotientLost(i: nat, b: nat, x: nat, r: nat)
    requires x == i * b && x >= SIZE_LIMIT && r < SIZE_LIMIT
    ensures b > 0 && r / b < i
  {
    Numbers.DivLess(r, i, b);
  }

  lemma BothHalf(i: nat, b: nat)
    ensures i < HALF_LIMIT && b < HALF_LIMIT ==> i * b < SIZE_LIMIT
  {
    if i < HALF_LIMIT && b < HALF_LIMIT { Numbers.MulBelow(i, b, HALF_LIMIT, HALF_LIMIT); }
  }

  function Stored(s: State, f: Frag, blkIdx: nat, offset: nat): State
    requires offset + |f.data| <= |s.buf|
    requires s.bitmap.Bitmap? ==> blkIdx / 8 < |s.bitmap.bits|
  {
    var s1 := if s.bitmap.Bitmap? then s.(bitmap := Bitmap(Marked(s.bitmap.bits, blkIdx))) else s;
    var s2 := if f.isLast && s1.sequenceSize == 0 then s1.(sequenceSize := offset + |f.data|, lastSeqNo := f.seqNo) else s1;
    s2.(buf := s2.buf[..offset] + f.data + s2.buf[offset + |f.data|..],
        recvCnt := s2.recvCnt + |f.data|, blkCnt := s2.blkCnt + 1, curSeqNo := f.seqNo)
  }

  /** The answer after a fragment has been stored. */
  function Verdict(s: State): Status
  {
    if s.sequenceSize == 0 || SeqDiff(s.firstSeqNo, s.lastSeqNo) + 1 > s.blkCnt then EAGAIN
    else if s.sequenceSize != s.recvCnt then EBADMSG
    else Ok
  }

  /** The rest of reass_hlp_handle_frag: where the fragment goes, and whether it is new. The end of the
      fragment is compared with the buffer after it has wrapped around. */
  function Placed(s: State, f: Frag): (Answer, State)
  {
    hide Overflows;
    hide Got;
    var blkIdx := SeqDiff(s.firstSeqNo, f.seqNo);
    if s.blkSize == 0 && blkIdx >= HALF_LIMIT then (DivisionByZero, s)
    else if Overflows(blkIdx, s.blkSize) then (Returned(EINVAL), s)
    else
      var offset := blkIdx * s.blkSize;
      if (offset + |f.data|) % SIZE_LIMIT > |s.buf| then (Returned(EINVAL), s)
      else if s.bitmap.Bitmap? && |s.bitmap.bits| <= blkIdx then (Returned(ERANGE), s)
      else if s.bitmap.Bitmap? && Got(s.bitmap.bits, blkIdx) then (Returned(EAGAIN), s.(dupCnt := s.dupCnt + 1))
      else if offset + |f.data| > |s.buf| then (OutOfBuffer, s)
      else
        var t := Stored(s, f, blkIdx, offset);
        (Returned(Verdict(t)), t)
  }

  /** The checks before the place of the fragment is looked for. */
  function Refusal(s: State, f: Frag): Status
  {
    if f.isFirst && f.data == [] then EINVAL
    else if f.isFirst && s.bitmap.Bitmap? && |s.buf| / |f.data| > |s.bitmap.bits| * 8 then ENOBUFS
    else if !f.isFirst && !f.isLast && s.blkSize != |f.data| then EINVAL
    else Ok
  }

  /** reass_hlp_handle_frag. */
  function Handled(s: State, f: Frag): (Answer, State)
  {
    if Refusal(s, f) == Ok then Placed(Counted(s, f), f)
    else (Returned(Refusal(s, f)), if Refusal(s, f) == ENOBUFS then Started(s, f) else s)
  }

  // ----- the answers -----

  /** Whether block i is marked. */
  predicate Has(bitmap: Bitmap, i: nat) { bitmap.Bitmap? && i / 8 < |bitmap.bits| && Got(bitmap.bits, i) }

  predicate SameSize(a: Bitmap, b: Bitmap)
  {
    a.Bitmap? == b.Bitmap? && (a.Bitmap? ==> |a.bits| == |b.bits|)
  }

  lemma ClearedHasNone(bitmap: Bitmap)
    ensures forall j: nat :: !Has(Cleared(bitmap), j)
  {
    forall j: nat ensures !Has(Cleared(bitmap), j) { NoBitSet(j % 8); }
  }

  lemma MarkedHas(bits: seq<bv8>, i: nat)
    requires i / 8 < |bits|
    ensures forall j: nat :: Has(Bitmap(Marked(bits, i)), j) <==> j == i || Has(Bitmap(bits), j)
  {
    hide Got, Marked;
    forall j: nat ensures Has(Bitmap(Marked(bits, i)), j) <==> j == i || Has(Bitmap(bits), j) {
      if j / 8 < |bits| { MarkedGot(bits, i, j); }
    }
  }

  /** The second half of the function, with the overflow test replaced by what it decides. */
  lemma PlacedIs(s: State, f: Frag, i: nat, start: nat)
    requires i == SeqDiff(s.firstSeqNo, f.seqNo) && start == i * s.blkSize && !(s.blkSize == 0 && i >= HALF_LIMIT)
    ensures start >= SIZE_LIMIT || (start + |f.data|) % SIZE_LIMIT > |s.buf| ==> Placed(s, f) == (Returned(EINVAL), s)
    ensures start < SIZE_LIMIT && (start + |f.data|) % SIZE_LIMIT <= |s.buf| ==>
      && (s.bitmap.Bitmap? && |s.bitmap.bits| <= i ==> Placed(s, f) == (Returned(ERANGE), s))
      && (s.bitmap.Bitmap? && |s.bitmap.bits| > i && Has(s.bitmap, i) ==>
            Placed(s, f) == (Returned(EAGAIN), s.(dupCnt := s.dupCnt + 1)))
      && (Free(s.bitmap, i) && start + |f.data| > |s.buf| ==> Placed(s, f) == (OutOfBuffer, s))
      && (Free(s.bitmap, i) && start + |f.data| <= |s.buf| ==>
            Placed(s, f) == (Returned(Verdict(Stored(s, f, i, start))), Stored(s, f, i, start)))
  {
    hide Overflows, Stored, Got, SeqDiff, Verdict;
    OverflowsIff(i, s.blkSize);
  }

  /** A flagged fragment: the four answers, and every field of the state it leaves. */
  lemma FirstIs(s: State, f: Frag)
    requires f.isFirst
    ensures f.data == [] ==> Handled(s, f) == (Returned(EINVAL), s)
    ensures f.data != [] ==>
      var (answer, t) := Handled(s, f);
      var short := s.bitmap.Bitmap? && |s.buf| / |f.data| > 8 * |s.bitmap.bits|;
      var kept := !short && |f.data| <= |s.buf|;
      && answer == Returned(if short then ENOBUFS else if !kept then EINVAL else if f.isLast then Ok else EAGAIN)
      && t.buf == (if kept then f.data + s.buf[|f.data|..] else s.buf)
      && SameSize(t.bitmap, s.bitmap) && (forall j: nat :: Has(t.bitmap, j) <==> kept && j == 0 && s.bitmap.Bitmap?)
      && t.blkSize == |f.data| && t.blkCnt == (if kept then 1 else 0) && t.recvCnt == (if kept then |f.data| else 0)
      && t.sequenceSize == (if kept && f.isLast then |f.data| else 0) && t.dupCnt == t.reordersCnt == 0
      && t.firstSeqNo == f.seqNo && t.lastSeqNo == (if kept && f.isLast then f.seqNo else 0)
      && t.curSeqNo == (if kept then f.seqNo else s.curSeqNo)
  {
    hide Placed, Has, Marked;
    if f.data != [] {
      ClearedHasNone(s.bitmap);
      var c, short := Started(s, f), s.bitmap.Bitmap? && |s.buf| / |f.data| > 8 * |s.bitmap.bits|;
      PlacedIs(c, f, 0, 0);
      if !short && |f.data| <= |s.buf| {
        AtLeastOne(|s.buf|, |f.data|);
        ClearedFree(s.bitmap);
        if s.bitmap.Bitmap? { MarkedHas(Cleared(s.bitmap).bits, 0); }
        assert s.buf[..0] + f.data == f.data;
      } else {
        NoneFits(|s.buf|, |f.data|);
      }
    }
  }

  lemma AtLeastOne(n: nat, d: nat)
    requires 0 < d <= n
    ensures n / d >= 1
  {}

  lemma NoneFits(n: nat, d: nat)
    requires 0 < d
    ensures n < d ==> n / d == 0
  {}

  lemma ClearedFree(bitmap: Bitmap)
    requires bitmap.Bitmap? ==> bitmap.bits != []
    ensures Free(Cleared(bitmap), 0)
  {
    NoBitSet(0);
  }

  /** A fragment that is not flagged: the exact conditions of the refusals and of a duplicate, and how little of the
      state changes. */
  lemma LaterRefused(s: State, f: Frag, i: nat, start: nat)
    requires !f.isFirst
    requires i == if s.firstSeqNo <= f.seqNo then f.seqNo - s.firstSeqNo else f.seqNo + SIZE_LIMIT - 1 - s.firstSeqNo
    requires start == i * s.blkSize
    ensures !f.isLast && |f.data| != s.blkSize ==> Handled(s, f) == (Returned(EINVAL), s)
    ensures f.isLast || |f.data| == s.blkSize ==>
      var (answer, t) := Handled(s, f);
      var end := (start + |f.data|) % SIZE_LIMIT;
      var defined, inside := !(s.blkSize == 0 && i >= HALF_LIMIT), start < SIZE_LIMIT && end <= |s.buf|;
      var late := s.(reordersCnt := s.reordersCnt + if f.seqNo == (s.curSeqNo + 1) % SIZE_LIMIT then 0 else 1);
      && (answer == Returned(EINVAL) <==> defined && !inside)
      && (answer == Returned(ERANGE) <==> defined && inside && s.bitmap.Bitmap? && |s.bitmap.bits| <= i)
      && (t.dupCnt != s.dupCnt <==> defined && inside && Has(s.bitmap, i) && i < |s.bitmap.bits|)
      && (t.dupCnt != s.dupCnt ==> answer == Returned(EAGAIN) && t == late.(dupCnt := s.dupCnt + 1))
      && (answer == Returned(EINVAL) || answer == Returned(ERANGE) ==> t == late)
      && answer != Returned(ENOBUFS)
  {
    hide Has, Placed, Marked;
    if f.isLast || |f.data| == s.blkSize {
      FreeIs(s.bitmap, i);
      if s.blkSize == 0 && i >= HALF_LIMIT {
        PlacedUndefined(Counted(s, f), f);
      } else {
        PlacedIs(Counted(s, f), f, i, start);
      }
    }
  }

  lemma PlacedUndefined(s: State, f: Frag)
    requires s.blkSize == 0 && SeqDiff(s.firstSeqNo, f.seqNo) >= HALF_LIMIT
    ensures Placed(s, f) == (DivisionByZero, s)
  {
    hide Overflows, Stored;
  }

  /** Exactly when a fragment is answered EINVAL: flagged, if it is empty or larger than the buffer; otherwise, if it
      is not the last one and its size is not the block size, or if its place leaves size_t or the buffer. */
  lemma EinvalIff(s: State, f: Frag, i: nat, start: nat)
    requires i == if s.firstSeqNo <= f.seqNo then f.seqNo - s.firstSeqNo else f.seqNo + SIZE_LIMIT - 1 - s.firstSeqNo
    requires start == i * s.blkSize
    ensures Handled(s, f).0 == Returned(EINVAL) <==>
      if f.isFirst then f.data == [] || |f.data| > |s.buf|
      else
        || (!f.isLast && |f.data| != s.blkSize)
        || (!(s.blkSize == 0 && i >= HALF_LIMIT) && (start >= SIZE_LIMIT || (start + |f.data|) % SIZE_LIMIT > |s.buf|))
  {
    hide Handled;
    if f.isFirst {
      FirstIs(s, f);
      if f.data != [] { NoneFits(|s.buf|, |f.data|); }
    } else {
      LaterRefused(s, f, i, start);
    }
  }

  /** A fragment that is not flagged and is new: every field of the state it leaves, and the answer. */
  lemma LaterStored(s: State, f: Frag, i: nat, start: nat)
    requires !f.isFirst && (f.isLast || |f.data| == s.blkSize) && !(s.blkSize == 0 && i >= HALF_LIMIT)
    requires i == if s.firstSeqNo <= f.seqNo then f.seqNo - s.firstSeqNo else f.seqNo + SIZE_LIMIT - 1 - s.firstSeqNo
    requires start == i * s.blkSize && start + |f.data| <= |s.buf| < SIZE_LIMIT
    requires s.bitmap.Bitmap? ==> i < |s.bitmap.bits| && !Has(s.bitmap, i)
    ensures
      var (answer, t) := Handled(s, f);
      var ends := f.isLast && s.sequenceSize == 0;
      var n := |f.data|;
      && t.buf == s.buf[..start] + f.data + s.buf[start + n..]
      && SameSize(t.bitmap, s.bitmap) && (forall j: nat :: Has(t.bitmap, j) <==> (j == i && s.bitmap.Bitmap?) || Has(s.bitmap, j))
      && t.blkCnt == s.blkCnt + 1 && t.recvCnt == s.recvCnt + n
      && t.sequenceSize == (if ends then start + n else s.sequenceSize) && t.lastSeqNo == (if ends then f.seqNo else s.lastSeqNo)
      && t.reordersCnt == s.reordersCnt + (if f.seqNo == (s.curSeqNo + 1) % SIZE_LIMIT then 0 else 1)
      && t.dupCnt == s.dupCnt && t.blkSize == s.blkSize && t.firstSeqNo == s.firstSeqNo && t.curSeqNo == f.seqNo
      && (var blocks := if t.firstSeqNo <= t.lastSeqNo then t.lastSeqNo - t.firstSeqNo + 1
                        else t.lastSeqNo + SIZE_LIMIT - t.firstSeqNo;
          && (answer == Returned(EAGAIN) <==> t.sequenceSize == 0 || t.blkCnt < blocks)
          && (answer == Returned(EBADMSG) <==> t.sequenceSize != 0 && t.blkCnt >= blocks && t.recvCnt != t.sequenceSize)
          && (answer == Returned(Ok) <==> t.sequenceSize != 0 && t.blkCnt >= blocks && t.recvCnt == t.sequenceSize))
  {
    hide Has, Placed, Stored, Free, Verdict, Counted;
    var c := s.(reordersCnt := s.reordersCnt + if f.seqNo == (s.curSeqNo + 1) % SIZE_LIMIT then 0 else 1);
    CountedIs(s, f);
    PlacedIs(c, f, i, start);
    FreeIs(s.bitmap, i);
    StoredIs(c, f, i, start);
    VerdictIs(Stored(c, f, i, start));
  }

  lemma CountedIs(s: State, f: Frag)
    requires !f.isFirst
    ensures Counted(s, f) == s.(reordersCnt := s.reordersCnt + if f.seqNo == (s.curSeqNo + 1) % SIZE_LIMIT then 0 else 1)
  {}

  lemma VerdictIs(t: State)
    ensures
      var blocks := if t.firstSeqNo <= t.lastSeqNo then t.lastSeqNo - t.firstSeqNo + 1 else t.lastSeqNo + SIZE_LIMIT - t.firstSeqNo;
      && (Verdict(t) == EAGAIN <==> t.sequenceSize == 0 || t.blkCnt < blocks)
      && (Verdict(t) == EBADMSG <==> t.sequenceSize != 0 && t.blkCnt >= blocks && t.recvCnt != t.sequenceSize)
      && (Verdict(t) == Ok <==> t.sequenceSize != 0 && t.blkCnt >= blocks && t.recvCnt == t.sequenceSize)
  {}

  lemma StoredIs(s: State, f: Frag, i: nat, start: nat)
    requires start + |f.data| <= |s.buf| && (s.bitmap.Bitmap? ==> i / 8 < |s.bitmap.bits|)
    ensures
      var t, ends, n := Stored(s, f, i, start), f.isLast && s.sequenceSize == 0, |f.data|;
      && SameSize(t.bitmap, s.bitmap) && (forall j: nat :: Has(t.bitmap, j) <==> (j == i && s.bitmap.Bitmap?) || Has(s.bitmap, j))
      && t.(bitmap := s.bitmap) ==
           s.(buf := s.buf[..start] + f.data + s.buf[start + n..], blkCnt := s.blkCnt + 1, recvCnt := s.recvCnt + n,
              sequenceSize := if ends then start + n else s.sequenceSize, lastSeqNo := if ends then f.seqNo else s.lastSeqNo,
              curSeqNo := f.seqNo)
  {
    hide Has, Marked;
    if s.bitmap.Bitmap? { MarkedHas(s.bitmap.bits, i); }
    FreeIs(s.bitmap, i);
  }

  lemma FreeIs(bitmap: Bitmap, i: nat)
    ensures Free(bitmap, i) <==> (bitmap.Bitmap? ==> i < |bitmap.bits| && !Has(bitmap, i))
    ensures Has(bitmap, i) ==> bitmap.Bitmap?
  {}

  // ----- the fragments without an answer -----

  /** The bitmap does not stop block i. */
  predicate Free(bitmap: Bitmap, i: nat)
  {
    bitmap.Bitmap? ==> i < |bitmap.bits| && !Got(bitmap.bits, i)
  }

  /** The overflow test divides by the block size exactly for a far sequence number before any first fragment. */
  lemma DivisionByZeroIff(s: State, f: Frag)
    ensures Handled(s, f).0 == DivisionByZero <==>
      !f.isFirst && s.blkSize == 0 && (f.isLast || f.data == []) && SeqDiff(s.firstSeqNo, f.seqNo) >= HALF_LIMIT
  {
    hide Overflows, Stored;
  }

  lemma FarSequence(s: State)
    ensures Handled(Reset(s), Frag(HALF_LIMIT, false, true, [])).0 == DivisionByZero
  {
    DivisionByZeroIff(Reset(s), Frag(HALF_LIMIT, false, true, []));
  }

  /** Bytes are written beyond the buffer exactly when the end of an accepted fragment wraps around to a
      place in it, and the block is neither too far for the bitmap nor there already. */
  lemma OutOfBufferIff(s: State, f: Frag)
    requires |s.buf| < SIZE_LIMIT
    ensures var t := Counted(s, f);
      var i := SeqDiff(t.firstSeqNo, f.seqNo);
      var offset := Numbers.Mul(i, t.blkSize);
      Handled(s, f).0 == OutOfBuffer <==>
        && Refusal(s, f) == Ok && Free(t.bitmap, i)
        && offset < SIZE_LIMIT <= offset + |f.data| <= SIZE_LIMIT + |s.buf|
  {
    hide Overflows, Stored, Got, Refusal;
    var t := Counted(s, f);
    var i := SeqDiff(t.firstSeqNo, f.seqNo);
    Numbers.MulIs(i, t.blkSize);
    if t.blkSize > 0 || i < HALF_LIMIT { OverflowsIff(i, t.blkSize); }
    EndModulo(i * t.blkSize, |f.data|);
  }

  lemma EndModulo(offset: nat, n: nat)
    requires n < SIZE_LIMIT
    ensures offset < SIZE_LIMIT ==>
      (offset + n) % SIZE_LIMIT == if offset + n < SIZE_LIMIT then offset + n else offset + n - SIZE_LIMIT
  {
    if SIZE_LIMIT <= offset + n < SIZE_LIMIT + SIZE_LIMIT {
      Numbers.DivModUnique(offset + n, SIZE_LIMIT, 1, offset + n - SIZE_LIMIT);
    }
  }

  /** Without a bitmap, block 2^60 - 1 of 16 bytes ends at 2^64. */
  lemma EndWraps(s: State, data: Data)
    requires s.bitmap.NoBitmap? && s.blkSize == |data| == 16 && s.firstSeqNo == 0 && |s.buf| < SIZE_LIMIT
    ensures Handled(s, Frag(SIZE_LIMIT / 16 - 1, false, false, data)).0 == OutOfBuffer
  {
    OutOfBufferIff(s, Frag(SIZE_LIMIT / 16 - 1, false, false, data));
  }

  /** Whatever is answered, only the bytes of the fragment change, and only in its place. */
  lemma OnlyItsPlace(s: State, f: Frag)
    ensures var t := Handled(s, f).1;
      && |t.buf| == |s.buf|
      && forall k :: 0 <= k < |s.buf| && t.buf[k] != s.buf[k] ==>
           var offset := Numbers.Mul(SeqDiff(Counted(s, f).firstSeqNo, f.seqNo), Counted(s, f).blkSize);
           offset <= k < offset + |f.data| && t.buf[k] == f.data[k - offset]
  {
    hide Placed;
    if Refusal(s, f) == Ok { PlacedOnly(Counted(s, f), f); }
  }

  lemma PlacedOnly(s: State, f: Frag)
    ensures var t := Placed(s, f).1;
      && |t.buf| == |s.buf|
      && forall k :: 0 <= k < |s.buf| && t.buf[k] != s.buf[k] ==>
           var offset := Numbers.Mul(SeqDiff(s.firstSeqNo, f.seqNo), s.blkSize);
           offset <= k < offset + |f.data| && t.buf[k] == f.data[k - offset]
  {
    hide Overflows, Got, Marked, SeqDiff;
    Numbers.MulIs(SeqDiff(s.firstSeqNo, f.seqNo), s.blkSize);
  }

  // ----- the object -----

  class Helper {
    const buf: array<bv8>
    const bitmap: array?<bv8>
    var blkSize: Word
    var blkCnt: nat
    var recvCnt: nat
    var sequenceSize: nat
    var dupCnt: nat
    var reordersCnt: nat
    var firstSeqNo: Word
    var lastSeqNo: Word
    var curSeqNo: Word

    /** reass_hlp_init; the source leaves the current sequence number as it finds it. */
    constructor (buf: array<bv8>, bitmap: array?<bv8>)
      requires buf.Length > 0 && bitmap != buf
      modifies if bitmap == null then {} else {bitmap}
      ensures this.buf == buf && this.bitmap == bitmap && Whole()
      ensures Value() == Reset(Value())
    {
      this.buf, this.bitmap := buf, bitmap;
      new;
      Clear();
    }

    ghost predicate Whole() { bitmap != buf }

    ghost function Bits(): Bitmap
      reads bitmap
    {
      if bitmap == null then NoBitmap else Bitmap(bitmap[..])
    }

    ghost function Value(): State
      reads this, buf, bitmap
    {
      State(buf[..], Bits(), blkSize, blkCnt, recvCnt, sequenceSize, dupCnt, reordersCnt,
            firstSeqNo, lastSeqNo, curSeqNo)
    }

    /** reass_hlp_reset. */
    method Clear()
      requires Whole()
      modifies this, bitmap
      ensures Value() == Reset(old(Value()))
      ensures blkSize == blkCnt == recvCnt == sequenceSize == dupCnt == reordersCnt == firstSeqNo == lastSeqNo == 0
      ensures curSeqNo == old(curSeqNo) && buf[..] == old(buf[..])
      ensures bitmap != null ==> forall i :: 0 <= i < bitmap.Length ==> bitmap[i] == 0
    {
      recvCnt, blkCnt, blkSize, sequenceSize := 0, 0, 0, 0;
      dupCnt, reordersCnt, firstSeqNo, lastSeqNo := 0, 0, 0, 0;
      if bitmap != null {
        forall i | 0 <= i < bitmap.Length { bitmap[i] := 0; }
        assert bitmap[..] == seq(bitmap.Length, _ => 0);
      }
    }

    /** reass_hlp_handle_frag. Its test for a sequence beyond the buffer cannot succeed after the range check
        and is left out. */
    method HandleFrag(f: Frag) returns (answer: Answer)
      requires Whole()
      modifies this, buf, bitmap
      ensures (answer, Value()) == Handled(old(Value()), f)
      ensures !f.isFirst && !f.isLast && |f.data| != old(blkSize) ==>
        answer == Returned(EINVAL) && Value() == old(Value())
    {
      hide Placed;
      if f.isFirst {
        if |f.data| == 0 { return Returned(EINVAL); }
        Clear();
        blkSize := |f.data|;
        firstSeqNo := f.seqNo;
        if bitmap != null && buf.Length / blkSize > bitmap.Length * 8 { return Returned(ENOBUFS); }
      } else {
        if !f.isLast && blkSize != |f.data| { return Returned(EINVAL); }
        if (curSeqNo + 1) % SIZE_LIMIT != f.seqNo { reordersCnt := reordersCnt + 1; }
      }
      answer := Place(f);
    }

    /** The second half of reass_hlp_handle_frag. */
    method Place(f: Frag) returns (answer: Answer)
      requires Whole()
      modifies this, buf, bitmap
      ensures (answer, Value()) == Placed(old(Value()), f)
    {
      hide Got, Marked, Overflows;
      var blkIdx := SeqDiff(firstSeqNo, f.seqNo);
      if blkSize == 0 && blkIdx >= HALF_LIMIT { return DivisionByZero; }
      if Overflows(blkIdx, blkSize) { return Returned(EINVAL); }
      var offset := blkIdx * blkSize;
      if (offset + |f.data|) % SIZE_LIMIT > buf.Length { return Returned(EINVAL); }
      if bitmap != null {
        if bitmap.Length <= blkIdx { return Returned(ERANGE); }
        if Got(bitmap[..], blkIdx) {
          dupCnt := dupCnt + 1;
          return Returned(EAGAIN);
        }
      }
      if offset + |f.data| > buf.Length { return OutOfBuffer; }
      Store(f, blkIdx, offset);
      if sequenceSize == 0 || SeqDiff(firstSeqNo, lastSeqNo) + 1 > blkCnt { return Returned(EAGAIN); }
      if sequenceSize != recvCnt { return Returned(EBADMSG); }
      return Returned(Ok);
    }

    method Store(f: Frag, blkIdx: nat, offset: nat)
      requires Whole() && offset + |f.data| <= buf.Length && (bitmap != null ==> blkIdx / 8 < bitmap.Length)
      modifies this, buf, bitmap
      ensures Value() == Stored(old(Value()), f, blkIdx, offset)
    {
      hide WithBit;
      ghost var s := Value();
      if bitmap != null { bitmap[blkIdx / 8] := WithBit(bitmap[blkIdx / 8], blkIdx % 8); }
      if f.isLast && sequenceSize == 0 {
        sequenceSize := offset + |f.data|;
        lastSeqNo := f.seqNo;
      }
      forall k | 0 <= k < |f.data| { buf[offset + k] := f.data[k]; }
      assert buf[..] == s.buf[..offset] + f.data + s.buf[offset + |f.data|..];
      assert bitmap != null ==> bitmap[..] == Marked(s.bitmap.bits, blkIdx);
      recvCnt := recvCnt + |f.data|;
      blkCnt := blkCnt + 1;
      curSeqNo := f.seqNo;
    }
  }
}
