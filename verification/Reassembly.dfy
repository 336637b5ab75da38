/** Whole runs of the reassembly helper: every arrival order of the pieces of one message. */
module Reassembly {
  import opened Common
  import Numbers
  import opened ByteBits
  import opened Reass

  /** A message cut into n pieces of blk bytes, the last of which may be shorter. The sequence numbers start
      at `first` and may wrap around. */
  datatype Cut = Cut(msg: Data, blk: nat, n: nat, first: Word) {
    ghost predicate Valid()
    {
      0 < blk <= |msg| && n > 0 && Offset(n - 1) < |msg| <= Offset(n)
    }

    function Offset(i: nat): nat { i * blk }

    function End(i: nat): nat { if i + 1 == n then |msg| else Offset(i + 1) }

    lemma Offsets(i: nat)
      requires Valid() && i < n
      ensures Offset(0) == 0 && Offset(i + 1) == Offset(i) + blk && Offset(i) < End(i) <= |msg| && End(i) <= Offset(i + 1)
      ensures i + 1 < n ==> End(i) == Offset(i) + blk
      ensures End(n - 1) == |msg| && Offset(n) == Offset(n - 1) + blk
    {
      Numbers.Distribute(blk, i, 1);
      Numbers.Distribute(blk, n - 1, 1);
      Numbers.MulMono(blk, i, n - 1);
      if i + 1 < n { Numbers.MulMono(blk, i + 1, n - 1); }
    }

    /** Piece i as a fragment; `flag` marks it as the first one. */
    function Piece(i: nat, flag: bool): Frag
      requires Valid() && i < n
    {
      Offsets(i);
      Frag((first + i) % SIZE_LIMIT, flag, i + 1 == n, msg[Offset(i)..End(i)])
    }

    lemma PieceIs(i: nat, flag: bool)
      requires Valid() && i < n
      ensures Offset(i) < End(i) <= |msg|
      ensures var f := Piece(i, flag);
        f.data == msg[Offset(i)..End(i)] && f.isLast == (i + 1 == n) && f.isFirst == flag
      ensures first + i < SIZE_LIMIT ==> Piece(i, flag).seqNo == first + i
    {
      hide Offset, End;
      Offsets(i);
    }

    /** The last sequence number is not below the first. */
    predicate InOrder() { first + n <= SIZE_LIMIT }

    /** Where piece i is put: once the numbers have wrapped, one block too early. */
    lemma Placement(i: nat)
      requires Valid() && i < n
      ensures n <= |msg|
      ensures SeqDiff(first, Piece(i, false).seqNo) == if first + i < SIZE_LIMIT then i else i - 1
    {
      hide SeqDiff;
      Numbers.MulMono(n - 1, 1, blk);
      SeqPlace(first, i);
    }

    /** The piece that a byte belongs to. */
    lemma PieceOf(k: nat, i: nat)
      requires Valid() && k < |msg| && i < n
      ensures k / blk == i <==> Offset(i) <= k < End(i)
    {
      hide Offset;
      Offsets(i);
      OffsetIs(i);
      BlockOf(k, blk, i, Offset(i));
    }

    lemma OffsetIs(i: nat)
      ensures Offset(i) == i * blk
    {}
  }

  lemma SeqPlace(first: Word, i: nat)
    requires i < SIZE_LIMIT
    ensures SeqDiff(first, (first + i) % SIZE_LIMIT) == if first + i < SIZE_LIMIT then i else i - 1
  {
    if first + i >= SIZE_LIMIT { Numbers.DivModUnique(first + i, SIZE_LIMIT, 1, first + i - SIZE_LIMIT); }
  }

  /** The block of a byte. */
  lemma BlockOf(k: nat, blk: nat, i: nat, offset: nat)
    requires blk > 0 && offset == i * blk
    ensures k / blk == i <==> offset <= k < offset + blk
  {
    if offset <= k < offset + blk { Numbers.DivModUnique(k, blk, i, k - offset); }
    Numbers.MulQuotient(k, blk);
    Numbers.MulIs(blk, k / blk);
    Numbers.MulCommutes(blk, i);
  }

  /** Only pieces below n. */
  ghost predicate Within(r: set<nat>, n: nat) { forall i :: i in r ==> i < n }

  /** All pieces below n. */
  ghost predicate Everything(r: set<nat>, n: nat) { forall i: nat :: i < n ==> i in r }

  function All(n: nat): set<nat>
  {
    if n == 0 then {} else All(n - 1) + {n - 1}
  }

  lemma {:induction false} AllIs(n: nat)
    ensures |All(n)| == n && Within(All(n), n) && Everything(All(n), n)
  {
    if n > 0 { AllIs(n - 1); }
  }

  lemma {:induction false} SubsetSize(a: set<nat>, b: set<nat>)
    requires a <= b
    ensures |a| <= |b| && (|a| == |b| ==> a == b)
    decreases |a|
  {
    if x :| x in a {
      SubsetSize(a - {x}, b - {x});
      assert a == (a - {x}) + {x} && b == (b - {x}) + {x};
    } else {
      assert a == {};
    }
  }

  /** A set of n pieces below n holds all of them. */
  lemma Complete(r: set<nat>, n: nat)
    requires Within(r, n)
    ensures |r| <= n && (|r| == n <==> Everything(r, n))
  {
    AllIs(n);
    assert r <= All(n);
    SubsetSize(r, All(n));
    if Everything(r, n) { assert r == All(n); }
  }

  /** The first piece finds the bitmap large enough for the blocks of the buffer. */
  predicate Opens(s: State, c: Cut)
    requires c.blk > 0
  {
    s.bitmap.Bitmap? ==> |s.buf| / c.blk <= |s.bitmap.bits| * 8
  }

  /** The helper can hold the message, and the bitmap has a byte for every piece. */
  ghost predicate Roomy(s: State, c: Cut)
  {
    && c.Valid() && c.InOrder() && |c.msg| <= |s.buf|
    && (s.bitmap.Bitmap? ==> c.n <= |s.bitmap.bits|)
  }

  /** Exactly the pieces r have arrived. */
  ghost predicate Received(s: State, c: Cut, r: set<nat>)
  {
    && Roomy(s, c) && Within(r, c.n)
    && s.blkSize == c.blk && s.firstSeqNo == c.first
    && (s.bitmap.Bitmap? ==> MapIs(s.bitmap.bits, r))
    && s.blkCnt == |r| && s.recvCnt == c.blk * |r| - (if c.n - 1 in r then c.Offset(c.n) - |c.msg| else 0)
    && (if c.n - 1 in r then s.sequenceSize == |c.msg| && s.lastSeqNo == c.first + c.n - 1 else s.sequenceSize == 0)
    && Holds(s.buf, c, r)
  }

  ghost predicate MapIs(bits: seq<bv8>, r: set<nat>)
  {
    forall i: nat :: i / 8 < |bits| ==> (Got(bits, i) <==> i in r)
  }

  ghost predicate Holds(buf: seq<bv8>, c: Cut, r: set<nat>)
    requires |c.msg| <= |buf| && c.blk > 0
  {
    forall k: nat :: k < |c.msg| && k / c.blk in r ==> buf[k] == c.msg[k]
  }

  lemma MapMarked(bits: seq<bv8>, r: set<nat>, i: nat)
    requires MapIs(bits, r) && i / 8 < |bits|
    ensures MapIs(Marked(bits, i), r + {i})
  {
    hide Got, Marked;
    forall j: nat | j / 8 < |bits| ensures Got(Marked(bits, i), j) <==> j in r + {i} { MarkedGot(bits, i, j); }
  }

  lemma HoldsMore(buf: seq<bv8>, c: Cut, r: set<nat>, i: nat)
    requires c.Valid() && |c.msg| <= |buf| && i < c.n && Holds(buf, c, r) && c.Offset(i) <= c.End(i) <= |c.msg|
    ensures Holds(buf[..c.Offset(i)] + c.msg[c.Offset(i)..c.End(i)] + buf[c.End(i)..], c, r + {i})
  {
    var buf' := buf[..c.Offset(i)] + c.msg[c.Offset(i)..c.End(i)] + buf[c.End(i)..];
    forall k: nat | k < |c.msg| && k / c.blk in r + {i} ensures buf'[k] == c.msg[k] { c.PieceOf(k, i); }
  }

  lemma ClearedMap(bits: seq<bv8>)
    requires forall k :: 0 <= k < |bits| ==> bits[k] == 0
    ensures MapIs(bits, {})
  {
    forall i: nat | i / 8 < |bits| ensures !Got(bits, i) { NoBitSet(i % 8); }
  }

  /** The counters after piece i has been added to the pieces r. */
  lemma CountersMore(c: Cut, r: set<nat>, i: nat)
    requires c.Valid() && i < c.n && i !in r
    ensures |r + {i}| == |r| + 1
    ensures c.blk * |r + {i}| - (if c.n - 1 in r + {i} then c.Offset(c.n) - |c.msg| else 0)
      == c.blk * |r| - (if c.n - 1 in r then c.Offset(c.n) - |c.msg| else 0) + (c.End(i) - c.Offset(i))
  {
    c.Offsets(i);
    Numbers.Distribute(c.blk, |r|, 1);
  }

  /** A new piece that reaches the right place is stored. */
  lemma StoredReceived(s: State, c: Cut, r: set<nat>, i: nat, flag: bool)
    requires c.Valid() && i < c.n && i !in r && Within(r, c.n)
    requires Roomy(s, c) && s.blkSize == c.blk && s.firstSeqNo == c.first
    requires s.bitmap.Bitmap? ==> MapIs(s.bitmap.bits, r)
    requires s.blkCnt == |r| && s.recvCnt == c.blk * |r| - (if c.n - 1 in r then c.Offset(c.n) - |c.msg| else 0)
    requires if c.n - 1 in r then s.sequenceSize == |c.msg| && s.lastSeqNo == c.first + c.n - 1 else s.sequenceSize == 0
    requires Holds(s.buf, c, r)
    ensures s.bitmap.Bitmap? ==> i / 8 < |s.bitmap.bits|
    ensures c.Offset(i) + |c.Piece(i, flag).data| <= |s.buf|
    ensures Received(Stored(s, c.Piece(i, flag), i, c.Offset(i)), c, r + {i})
  {
    hide Got, Marked, MapIs, Holds, Cut.Offset, Cut.Valid, Cut.End, Roomy;
    c.Offsets(i);
    c.PieceIs(i, flag);
    RoomyParts(s, c, i);
    if s.bitmap.Bitmap? { MapMarked(s.bitmap.bits, r, i); }
    HoldsMore(s.buf, c, r, i);
    CountersMore(c, r, i);
    var t := Stored(s, c.Piece(i, flag), i, c.Offset(i));
    RoomyKept(s, t, c);
  }

  lemma RoomyParts(s: State, c: Cut, i: nat)
    requires Roomy(s, c) && i < c.n
    ensures c.InOrder() && |c.msg| <= |s.buf| && (s.bitmap.Bitmap? ==> i / 8 < |s.bitmap.bits|)
  {}

  /** Room depends on the sizes of the buffer and the bitmap only. */
  lemma RoomyKept(s: State, t: State, c: Cut)
    requires Roomy(s, c) && |t.buf| == |s.buf| && t.bitmap.Bitmap? == s.bitmap.Bitmap?
    requires s.bitmap.Bitmap? ==> |t.bitmap.bits| == |s.bitmap.bits|
    ensures Roomy(t, c)
  {}

  /** A piece that fits reaches its place. */
  lemma PieceFits(s: State, c: Cut, i: nat, flag: bool)
    requires c.Valid() && c.InOrder() && |c.msg| <= |s.buf| && i < c.n && s.blkSize == c.blk && s.firstSeqNo == c.first
    ensures c.Offset(i) + |c.Piece(i, flag).data| <= |s.buf|
    ensures s.bitmap.Bitmap? && i < |s.bitmap.bits| ==> i / 8 < |s.bitmap.bits|
    ensures Placed(s, c.Piece(i, flag)) ==
      if s.bitmap.Bitmap? && |s.bitmap.bits| <= i then (Returned(ERANGE), s)
      else if s.bitmap.Bitmap? && Got(s.bitmap.bits, i) then (Returned(EAGAIN), s.(dupCnt := s.dupCnt + 1))
      else
        var t := Stored(s, c.Piece(i, flag), i, c.Offset(i));
        (Returned(Verdict(t)), t)
  {
    hide Got, Overflows, Stored, Verdict;
    c.Offsets(i);
    c.Placement(i);
    OverflowsIff(i, c.blk);
    EndModulo(c.Offset(i), |c.Piece(i, flag).data|);
  }

  /** The answer says whether the message is complete. */
  lemma VerdictComplete(s: State, c: Cut, r: set<nat>)
    requires Received(s, c, r)
    ensures Verdict(s) == if Everything(r, c.n) then Ok else EAGAIN
  {
    hide MapIs, Holds;
    Complete(r, c.n);
    c.Offsets(c.n - 1);
  }

  /** The flagged first piece, whatever the helper held before. */
  lemma FirstArrives(s: State, c: Cut)
    requires Roomy(s, c) && Opens(s, c)
    ensures var (answer, t) := Handled(s, c.Piece(0, true));
      Received(t, c, {0}) && answer == Returned(if c.n == 1 then Ok else EAGAIN)
  {
    hide Got, Marked, MapIs, Placed, Stored, Verdict;
    c.Offsets(0);
    var f := c.Piece(0, true);
    var t := Started(s, f);
    var none: set<nat> := {};
    assert c.blk * |none| == 0 && none + {0} == {0};
    if s.bitmap.Bitmap? {
      ClearedMap(t.bitmap.bits);
      NothingGot(t.bitmap.bits, 0);
    }
    StoredReceived(t, c, {}, 0, true);
    PieceFits(t, c, 0, true);
    VerdictComplete(Stored(t, f, 0, 0), c, {0});
    OneOfAll(c.n);
  }

  /** The first piece is refused for want of bitmap space exactly when the helper does not open. */
  lemma FirstRefused(s: State, c: Cut)
    requires c.Valid()
    ensures Handled(s, c.Piece(0, true)).0 == Returned(ENOBUFS) <==> !Opens(s, c)
  {
    hide Overflows, Stored;
    c.Offsets(0);
  }

  /** Then the block size is set and the bitmap is clear, but nothing has been taken. */
  lemma FirstLeavesNothing(s: State, c: Cut)
    requires Roomy(s, c) && !Opens(s, c)
    ensures Handled(s, c.Piece(0, true)).0 == Returned(ENOBUFS)
    ensures Received(Handled(s, c.Piece(0, true)).1, c, {})
  {
    hide Got, Placed;
    c.Offsets(0);
    FirstRefused(s, c);
    var t := Started(s, c.Piece(0, true));
    ClearedMap(t.bitmap.bits);
    var none: set<nat> := {};
    assert c.blk * |none| == 0;
  }

  lemma NothingGot(bits: seq<bv8>, i: nat)
    requires i / 8 < |bits| && MapIs(bits, {})
    ensures !Got(bits, i)
  {}

  lemma OneOfAll(n: nat)
    requires n > 0
    ensures Everything({0}, n) <==> n == 1
  {
    var r: set<nat> := {0};
    var one: nat := 1;
    assert one !in r && 0 in r;
  }

  /** Any piece, once the first one has arrived: a duplicate changes nothing but its counter, and a new
      piece completes the message exactly when it is the last one missing. */
  lemma PieceArrives(s: State, c: Cut, r: set<nat>, i: nat)
    requires Received(s, c, r) && i < c.n && (s.bitmap.Bitmap? || i !in r)
    ensures var (answer, t) := Handled(s, c.Piece(i, false));
      && Received(t, c, r + {i}) && (answer == Returned(Ok) || answer == Returned(EAGAIN))
      && (answer == Returned(Ok) <==> i !in r && Everything(r + {i}, c.n))
      && (i in r ==> t.dupCnt == s.dupCnt + 1 && t.buf == s.buf && t.bitmap == s.bitmap)
  {
    hide Got, Marked, MapIs, Holds, Placed, Stored, Verdict;
    c.Offsets(i);
    var f := c.Piece(i, false);
    var t := Counted(s, f);
    PieceFits(t, c, i, false);
    if s.bitmap.Bitmap? { GotIs(s.bitmap.bits, r, i); }
    if i in r {
      assert r + {i} == r;
    } else {
      StoredReceived(t, c, r, i, false);
      VerdictComplete(Stored(t, f, i, c.Offset(i)), c, r + {i});
    }
  }

  lemma GotIs(bits: seq<bv8>, r: set<nat>, i: nat)
    requires i / 8 < |bits| && MapIs(bits, r)
    ensures Got(bits, i) <==> i in r
  {}

  /** The helper holds the message and counts all of it. */
  predicate Whole(s: State, c: Cut)
  {
    && |c.msg| <= |s.buf| && s.buf[..|c.msg|] == c.msg
    && s.sequenceSize == |c.msg| && s.blkCnt == c.n && s.recvCnt == |c.msg|
  }

  /** The complete buffer is the message. */
  lemma CompleteIsMessage(s: State, c: Cut, r: set<nat>)
    requires Received(s, c, r) && Everything(r, c.n)
    ensures Whole(s, c)
  {
    hide Holds, MapIs;
    Complete(r, c.n);
    c.Offsets(c.n - 1);
    forall k: nat | k < |c.msg| ensures s.buf[k] == c.msg[k] {
      ByteHasPiece(c, k);
      HoldsAt(s.buf, c, r, k);
    }
  }

  lemma HoldsAt(buf: seq<bv8>, c: Cut, r: set<nat>, k: nat)
    requires |c.msg| <= |buf| && c.blk > 0 && Holds(buf, c, r) && k < |c.msg|
    requires k / c.blk >= 0 && k / c.blk in r
    ensures buf[k] == c.msg[k]
  {}

  lemma ByteHasPiece(c: Cut, k: nat)
    requires c.Valid() && k < |c.msg|
    ensures 0 <= k / c.blk < c.n
  {
    Numbers.DivNat(k, c.blk);
    Numbers.DivLess(k, c.n, c.blk);
  }

  // ----- whole runs -----

  function Seen(order: seq<nat>): set<nat> { set i: nat | i in order }

  /** The k-th arrival is the last missing piece. */
  ghost predicate Completes(order: seq<nat>, k: nat, n: nat)
    requires k < |order|
  {
    Everything(Seen(order[..k + 1]), n) && order[k] !in Seen(order[..k])
  }

  lemma SeenNext(order: seq<nat>, k: nat)
    requires k < |order|
    ensures Seen(order[..k + 1]) == Seen(order[..k]) + {order[k]}
  {
    assert order[..k + 1] == order[..k] + [order[k]];
  }

  predicate Pieces(order: seq<nat>, n: nat) { forall i :: 0 <= i < |order| ==> order[i] < n }

  predicate Distinct(order: seq<nat>) { forall i, j :: 0 <= i < j < |order| ==> order[i] != order[j] }

  /** The answers and the last state when the pieces are handed over in the given order, flagging the first. */
  ghost function Deliver(s: State, c: Cut, order: seq<nat>): (r: (seq<Answer>, State))
    requires c.Valid() && Pieces(order, c.n)
    ensures |r.0| == |order|
  {
    if order == [] then ([], s)
    else
      var k := |order| - 1;
      var (answers, t) := Deliver(s, c, order[..k]);
      var (answer, u) := Handled(t, c.Piece(order[k], k == 0));
      (answers + [answer], u)
  }

  /** Success is answered exactly when the message is complete. */
  ghost predicate Honest(answers: seq<Answer>, order: seq<nat>, n: nat)
    requires |answers| == |order|
  {
    forall k :: 0 <= k < |order| ==> (answers[k] == Returned(Ok) <==> Completes(order, k, n))
  }

  /** Every arrival order with the first piece first, with any number of duplicates if there is a bitmap. */
  lemma {:induction false} Delivered(s: State, c: Cut, order: seq<nat>)
    requires Roomy(s, c) && Opens(s, c) && Pieces(order, c.n) && order != [] && order[0] == 0
    requires s.bitmap.Bitmap? || Distinct(order)
    ensures Honest(Deliver(s, c, order).0, order, c.n)
    ensures Received(Deliver(s, c, order).1, c, Seen(order)) && Deliver(s, c, order).1.bitmap.Bitmap? == s.bitmap.Bitmap?
    ensures Everything(Seen(order), c.n) ==> Whole(Deliver(s, c, order).1, c)
    decreases |order|
  {
    hide Handled, Received, Completes, Seen, Roomy, Everything, Whole, Deliver, Honest, Distinct;
    RoomyCut(s, c);
    var k := |order| - 1;
    var before := order[..k];
    DeliverNext(s, c, order);
    var (answers, t) := Deliver(s, c, before);
    var f := c.Piece(order[k], k == 0);
    KeepsBitmap(t, f);
    if k == 0 {
      FirstArrives(s, c);
      FirstCompletes(order, c.n);
    } else {
      NotBefore(order);
      Delivered(s, c, before);
      PieceArrives(t, c, Seen(before), order[k]);
      SeenNext(order, k);
      CompletesIs(order, k, c.n);
    }
    assert order[..k + 1] == order;
    HonestNext(answers, order, c.n, Handled(t, f).0);
    if Everything(Seen(order), c.n) { CompleteIsMessage(Deliver(s, c, order).1, c, Seen(order)); }
  }

  lemma DeliverNothing(s: State, c: Cut)
    requires c.Valid()
    ensures Deliver(s, c, []) == ([], s)
  {}

  lemma DeliverNext(s: State, c: Cut, order: seq<nat>)
    requires c.Valid() && Pieces(order, c.n) && order != []
    ensures var k := |order| - 1;
      var (answers, t) := Deliver(s, c, order[..k]);
      var (answer, u) := Handled(t, c.Piece(order[k], k == 0));
      Deliver(s, c, order) == (answers + [answer], u) && (k == 0 ==> (answers, t) == ([], s) && Honest(answers, order[..k], c.n))
  {
    hide Handled;
  }

  lemma RoomyCut(s: State, c: Cut)
    requires Roomy(s, c)
    ensures c.Valid()
  {}

  lemma KeepsBitmap(s: State, f: Frag)
    ensures Handled(s, f).1.bitmap.Bitmap? == s.bitmap.Bitmap?
  {
    hide Overflows, Got, Marked;
  }

  lemma NotBefore(order: seq<nat>)
    requires order != []
    ensures Distinct(order) ==> Distinct(order[..|order| - 1]) && order[|order| - 1] !in Seen(order[..|order| - 1])
  {}

  lemma HonestNext(answers: seq<Answer>, order: seq<nat>, n: nat, answer: Answer)
    requires |order| == |answers| + 1 && Honest(answers, order[..|answers|], n)
    requires answer == Returned(Ok) <==> Completes(order, |answers|, n)
    ensures Honest(answers + [answer], order, n)
  {
    hide Everything, Seen;
    forall k: nat | k < |answers| ensures Completes(order[..|answers|], k, n) == Completes(order, k, n) {
      assert order[..|answers|][..k + 1] == order[..k + 1] && order[..|answers|][..k] == order[..k];
    }
  }

  /** The deliveries as calls. */
  method DeliverAll(h: Helper, c: Cut, order: seq<nat>) returns (answers: seq<Answer>)
    requires h.Whole() && c.Valid() && Pieces(order, c.n)
    modifies h, h.buf, h.bitmap
    ensures (answers, h.Value()) == Deliver(old(h.Value()), c, order)
  {
    hide Handled, Cut.Valid, Cut.Piece, Deliver;
    ghost var s := h.Value();
    DeliverNothing(s, c);
    answers := [];
    for k := 0 to |order|
      invariant (answers, h.Value()) == Deliver(s, c, order[..k])
    {
      DeliverNext(s, c, order[..k + 1]);
      assert order[..k + 1][..k] == order[..k];
      var answer := h.HandleFrag(c.Piece(order[k], k == 0));
      answers := answers + [answer];
    }
    assert order[..|order|] == order;
  }

  lemma FirstCompletes(order: seq<nat>, n: nat)
    requires order != [] && order[0] == 0 && n > 0
    ensures Seen(order[..1]) == {0} && (Completes(order, 0, n) <==> n == 1)
  {
    assert order[..1] == [0];
    OneOfAll(n);
  }

  lemma CompletesIs(order: seq<nat>, k: nat, n: nat)
    requires k < |order|
    ensures Completes(order, k, n) <==> order[k] !in Seen(order[..k]) && Everything(Seen(order[..k]) + {order[k]}, n)
  {
    SeenNext(order, k);
  }

  // ----- when a run succeeds -----

  /** What a run needs: room in the buffer, sequence numbers that do not wrap, and a byte of the bitmap for
      every piece, or, without a bitmap, no duplicates. */
  predicate Fits(s: State, c: Cut, order: seq<nat>)
  {
    && |c.msg| <= |s.buf| && c.InOrder()
    && if s.bitmap.Bitmap? then c.n <= |s.bitmap.bits| else Distinct(order)
  }

  /** A state in which the end of the message has not been seen where it is. */
  predicate EndMissing(s: State, t: State, c: Cut)
  {
    && t.blkSize == c.blk && t.firstSeqNo == c.first && t.sequenceSize != |c.msg| && |t.buf| == |s.buf|
    && t.bitmap.Bitmap? == s.bitmap.Bitmap? && (s.bitmap.Bitmap? ==> |t.bitmap.bits| == |s.bitmap.bits|)
  }

  /** A block that is too far for the buffer or the bitmap is not stored, and after a wrap the last block is
      taken for the one before it. */
  lemma EndStaysMissing(s: State, t: State, c: Cut, i: nat, flag: bool)
    requires c.Valid() && i < c.n && EndMissing(s, t, c)
    requires |s.buf| < |c.msg| || !c.InOrder() || (s.bitmap.Bitmap? && |s.bitmap.bits| < c.n)
    ensures EndMissing(s, Placed(t, c.Piece(i, flag)).1, c)
  {
    hide Placed, SeqDiff;
    c.Offsets(i);
    c.Offsets(c.n - 1);
    c.Placement(i);
    EndPlaced(t, c.Piece(i, flag));
    var k := SeqDiff(c.first, c.Piece(i, flag).seqNo);
    Numbers.MulIs(k, c.blk);
    if k + 1 == c.n - 1 { c.Offsets(k); }
  }

  /** What a fragment does to the size of the sequence, and what it leaves alone. */
  lemma EndPlaced(s: State, f: Frag)
    ensures var t, i := Placed(s, f).1, SeqDiff(s.firstSeqNo, f.seqNo);
      && t.blkSize == s.blkSize && t.firstSeqNo == s.firstSeqNo && |t.buf| == |s.buf|
      && t.bitmap.Bitmap? == s.bitmap.Bitmap? && (s.bitmap.Bitmap? ==> |t.bitmap.bits| == |s.bitmap.bits|)
      && (t.sequenceSize == s.sequenceSize
          || (f.isLast && t.sequenceSize == Numbers.Mul(i, s.blkSize) + |f.data| <= |s.buf|
              && (s.bitmap.Bitmap? ==> i < |s.bitmap.bits|)))
  {
    hide Overflows, Got, Marked, SeqDiff;
    Numbers.MulIs(SeqDiff(s.firstSeqNo, f.seqNo), s.blkSize);
  }

  lemma {:induction false} EndNeverSeen(s: State, c: Cut, order: seq<nat>)
    requires c.Valid() && Pieces(order, c.n) && order != [] && order[0] == 0
    requires |s.buf| < |c.msg| || !c.InOrder() || (s.bitmap.Bitmap? && |s.bitmap.bits| < c.n)
    ensures EndMissing(s, Deliver(s, c, order).1, c)
    decreases |order|
  {
    hide Placed;
    var k := |order| - 1;
    c.Offsets(order[k]);
    if k == 0 {
      assert Deliver(s, c, order[..0]) == ([], s);
      EndStaysMissing(s, Started(s, c.Piece(0, true)), c, 0, true);
    } else {
      var t := Deliver(s, c, order[..k]).1;
      EndNeverSeen(s, c, order[..k]);
      EndStaysMissing(s, Counted(t, c.Piece(order[k], false)), c, order[k], false);
    }
  }

  predicate Counting(s: State, t: State, c: Cut, n: nat)
  {
    t.blkCnt == n && t.blkSize == c.blk && t.firstSeqNo == c.first && |t.buf| == |s.buf| && t.bitmap.NoBitmap?
  }

  lemma OneMore(s: State, t: State, c: Cut, k: nat, i: nat, flag: bool)
    requires c.Valid() && i < c.n && |c.msg| <= |s.buf| && c.InOrder() && Counting(s, t, c, k)
    ensures Counting(s, Placed(t, c.Piece(i, flag)).1, c, k + 1)
  {
    hide Placed, Verdict, Got;
    PieceFits(t, c, i, flag);
  }

  /** Without a bitmap every piece counts, duplicate or not. */
  lemma {:induction false} AllCounted(s: State, c: Cut, order: seq<nat>)
    requires c.Valid() && Pieces(order, c.n) && order != [] && order[0] == 0
    requires s.bitmap.NoBitmap? && |c.msg| <= |s.buf| && c.InOrder()
    ensures Counting(s, Deliver(s, c, order).1, c, |order|)
    decreases |order|
  {
    hide Placed;
    var k := |order| - 1;
    c.Offsets(order[k]);
    if k == 0 {
      assert Deliver(s, c, order[..0]) == ([], s);
      OneMore(s, Started(s, c.Piece(0, true)), c, 0, 0, true);
    } else {
      var t := Deliver(s, c, order[..k]).1;
      AllCounted(s, c, order[..k]);
      OneMore(s, Counted(t, c.Piece(order[k], false)), c, k, order[k], false);
    }
  }

  lemma {:induction false} DistinctIff(order: seq<nat>)
    ensures |Seen(order)| <= |order| && (|Seen(order)| == |order| <==> Distinct(order))
    decreases |order|
  {
    if order == [] {
      assert Seen(order) == {};
    } else {
      var k := |order| - 1;
      DistinctIff(order[..k]);
      SeenMore(order, k);
      DistinctNext(order, k);
    }
  }

  lemma SeenMore(order: seq<nat>, k: nat)
    requires k == |order| - 1
    ensures |Seen(order)| == |Seen(order[..k])| + if order[k] in Seen(order[..k]) then 0 else 1
  {
    hide Seen;
    SeenNext(order, k);
    assert order[..k + 1] == order;
    if order[k] in Seen(order[..k]) { assert Seen(order) == Seen(order[..k]); }
  }

  lemma DistinctNext(order: seq<nat>, k: nat)
    requires k == |order| - 1
    ensures Distinct(order) <==> Distinct(order[..k]) && order[k] !in Seen(order[..k])
  {
    var s := order[..k];
    if Distinct(s) && order[k] !in Seen(s) {
      forall i, j | 0 <= i < j < |order| ensures order[i] != order[j] {
        if j == k { assert s[i] in s; }
      }
    }
    if Distinct(order) {
      forall i, j | 0 <= i < j < |s| ensures s[i] != s[j] { assert order[i] != order[j]; }
    }
  }

  /** Success is answered at the last missing piece and nowhere else, and the helper is left with the message. */
  ghost predicate Succeeds(s: State, c: Cut, order: seq<nat>)
    requires c.Valid() && Pieces(order, c.n)
  {
    Honest(Deliver(s, c, order).0, order, c.n) && Whole(Deliver(s, c, order).1, c)
  }

  // ----- after a refused first piece -----

  /** The k-th arrival is the last missing piece when the first arrival is not counted. */
  ghost predicate CompletesLate(order: seq<nat>, k: nat, n: nat)
    requires k < |order|
  {
    k > 0 && order[k] !in Seen(order[1..k]) && Everything(Seen(order[1..k + 1]), n)
  }

  ghost predicate HonestLate(answers: seq<Answer>, order: seq<nat>, n: nat)
    requires |answers| == |order|
  {
    forall k :: 0 <= k < |order| ==> (answers[k] == Returned(Ok) <==> CompletesLate(order, k, n))
  }

  /** A refused first piece is as if it had not come. */
  lemma {:induction false} DeliveredLate(s: State, c: Cut, order: seq<nat>)
    requires Roomy(s, c) && !Opens(s, c) && Pieces(order, c.n) && order != [] && order[0] == 0
    ensures HonestLate(Deliver(s, c, order).0, order, c.n)
    ensures Received(Deliver(s, c, order).1, c, Seen(order[1..])) && Deliver(s, c, order).1.bitmap.Bitmap?
    decreases |order|
  {
    hide Handled, Received, Seen, Roomy, Everything, Deliver, HonestLate, CompletesLate;
    RoomyCut(s, c);
    var k := |order| - 1;
    var before := order[..k];
    DeliverNext(s, c, order);
    var (answers, t) := Deliver(s, c, before);
    var f := c.Piece(order[k], k == 0);
    KeepsBitmap(t, f);
    if k == 0 {
      FirstLeavesNothing(s, c);
      NothingSeen(order, c.n);
    } else {
      DeliveredLate(s, c, before);
      PieceArrives(t, c, Seen(before[1..]), order[k]);
      LateNext(order, k, c.n);
    }
    HonestLateNext(answers, order, c.n, Handled(t, f).0);
  }

  lemma NothingSeen(order: seq<nat>, n: nat)
    requires |order| == 1
    ensures Seen(order[1..]) == {} && !CompletesLate(order, 0, n) && HonestLate([], order[..0], n)
  {}

  lemma LateNext(order: seq<nat>, k: nat, n: nat)
    requires 0 < k == |order| - 1
    ensures Seen(order[1..]) == Seen(order[..k][1..]) + {order[k]}
    ensures CompletesLate(order, k, n) <==> order[k] !in Seen(order[..k][1..]) && Everything(Seen(order[1..]), n)
  {
    assert order[..k][1..] == order[1..k] && order[1..k + 1] == order[1..];
    assert order[1..] == order[1..k] + [order[k]];
  }

  lemma HonestLateNext(answers: seq<Answer>, order: seq<nat>, n: nat, answer: Answer)
    requires |order| == |answers| + 1 && HonestLate(answers, order[..|answers|], n)
    requires answer == Returned(Ok) <==> CompletesLate(order, |answers|, n)
    ensures HonestLate(answers + [answer], order, n)
  {
    hide Everything, Seen;
    forall k: nat | k < |answers| ensures CompletesLate(order[..|answers|], k, n) == CompletesLate(order, k, n) {
      if k > 0 {
        assert order[..|answers|][1..k + 1] == order[1..k + 1] && order[..|answers|][1..k] == order[1..k];
      }
    }
  }

  /** In a run up to the last missing piece, not counting the first arrival makes no difference if the first
      piece comes again. */
  lemma LateIsComplete(order: seq<nat>, n: nat, k: nat)
    requires k < |order| && order != [] && Completes(order, |order| - 1, n) && order[0] == 0 && 0 in order[1..] && Pieces(order, n)
    ensures CompletesLate(order, k, n) <==> Completes(order, k, n)
    ensures Everything(Seen(order[1..]), n)
  {
    var last := |order| - 1;
    assert order[..last + 1] == order;
    forall i: nat | i < n ensures i in order[1..] {
      assert i in Seen(order);
      if i != 0 { AfterFirst(order, i); }
    }
    if k < last {
      NotEarlier(order, k, last);
      assert order[last] !in Seen(order[..k + 1]) && order[last] !in Seen(order[1..k + 1]);
    } else {
      assert order[1..k + 1] == order[1..];
      NotEarlier(order, last - 1, last);
      assert order[last] !in Seen(order[1..last]);
    }
  }

  lemma AfterFirst(order: seq<nat>, i: nat)
    requires i in order && order[0] != i
    ensures i in order[1..]
  {
    var j :| 0 <= j < |order| && order[j] == i;
    assert order[1..][j - 1] == i;
  }

  lemma NotEarlier(order: seq<nat>, k: nat, last: nat)
    requires k < last < |order| && order[last] !in Seen(order[..last])
    ensures order[last] !in order[..k + 1] && order[last] !in order[1..k + 1]
  {
    forall j | 0 <= j <= k ensures order[j] != order[last] { assert order[..last][j] in order[..last]; }
  }

  /** A run whose first piece is refused succeeds exactly when that piece comes again. */
  lemma RefusedIff(s: State, c: Cut, order: seq<nat>)
    requires Roomy(s, c) && !Opens(s, c) && Pieces(order, c.n) && order != [] && order[0] == 0
    requires Completes(order, |order| - 1, c.n)
    ensures Succeeds(s, c, order) <==> 0 in order[1..]
  {
    hide Received, Deliver, Completes, CompletesLate, Honest, HonestLate, Seen, Whole;
    var (answers, t) := Deliver(s, c, order);
    DeliveredLate(s, c, order);
    ReceivedCounts(t, c, Seen(order[1..]));
    Complete(Seen(order[1..]), c.n);
    if 0 in order[1..] {
      HonestAgain(answers, order, c.n);
      LateIsComplete(order, c.n, 0);
      CompleteIsMessage(t, c, Seen(order[1..]));
    } else {
      NotAgain(t, c, order);
    }
  }

  lemma HonestAgain(answers: seq<Answer>, order: seq<nat>, n: nat)
    requires |answers| == |order| && HonestLate(answers, order, n) && Pieces(order, n) && order != [] && order[0] == 0
    requires Completes(order, |order| - 1, n) && 0 in order[1..]
    ensures Honest(answers, order, n)
  {
    hide Completes, CompletesLate;
    forall k | 0 <= k < |order| ensures answers[k] == Returned(Ok) <==> Completes(order, k, n) {
      LateIsComplete(order, n, k);
    }
  }

  lemma NotAgain(t: State, c: Cut, order: seq<nat>)
    requires order != [] && Received(t, c, Seen(order[1..])) && 0 !in order[1..]
    requires |Seen(order[1..])| == c.n <==> Everything(Seen(order[1..]), c.n)
    ensures !Whole(t, c)
  {
    var first: nat := 0;
    assert first !in Seen(order[1..]);
  }

  lemma ReceivedCounts(s: State, c: Cut, r: set<nat>)
    requires Received(s, c, r)
    ensures s.blkCnt == |r| && Within(r, c.n) && c.n > 0
  {}

  /** A run up to the arrival of the last missing piece succeeds exactly when it has what it needs, and its first
      piece is taken at once or comes again. */
  lemma RightIff(s: State, c: Cut, order: seq<nat>)
    requires c.Valid() && Pieces(order, c.n) && order != [] && order[0] == 0
    requires Completes(order, |order| - 1, c.n)
    ensures Succeeds(s, c, order) <==> Fits(s, c, order) && (Opens(s, c) || 0 in order[1..])
  {
    hide Handled, Honest, Received, Deliver, Distinct;
    assert order[..|order|] == order;
    if Fits(s, c, order) && Opens(s, c) {
      Delivered(s, c, order);
    } else if Fits(s, c, order) {
      RefusedIff(s, c, order);
    } else if s.bitmap.Bitmap? || |s.buf| < |c.msg| || !c.InOrder() {
      EndNeverSeen(s, c, order);
    } else {
      AllCounted(s, c, order);
      DistinctIff(order);
      Complete(Seen(order), c.n);
    }
  }

  /** Two bytes in two pieces, in order: they arrive when the buffer holds two bytes, except ... */
  lemma TwoPieces(s: State, first: Word)
    requires |s.buf| == 2 && (s.bitmap.Bitmap? ==> |s.bitmap.bits| > 0)
    ensures var c := Cut([0x41, 0x42], 1, 2, first);
      c.Valid() && (Succeeds(s, c, [0, 1]) <==> first < SIZE_LIMIT - 1 && (s.bitmap.Bitmap? ==> |s.bitmap.bits| > 1))
  {
    hide Succeeds, Completes;
    var c := Cut([0x41, 0x42], 1, 2, first);
    assert c.Offset(1) == 1 && c.Offset(2) == 2;
    InOrderOfTwo();
    RightIff(s, c, [0, 1]);
  }

  lemma InOrderOfTwo()
    ensures Completes([0, 1], 1, 2)
  {
    assert [0, 1][..2] == [0, 1] && [0, 1][..1] == [0];
    assert Everything({0, 1}, 2);
    assert Seen([0, 1]) == {0, 1};
  }

  /** ... with a bitmap of one byte, */
  lemma SmallBitmap(s: State)
    requires |s.buf| == 2 && s.bitmap.Bitmap? && |s.bitmap.bits| == 1
    ensures Cut([0x41, 0x42], 1, 2, 0).Valid() && !Succeeds(s, Cut([0x41, 0x42], 1, 2, 0), [0, 1])
  {
    hide Succeeds;
    TwoPieces(s, 0);
  }

  /** ... with the sequence numbers 2^64 - 1 and 0, */
  lemma WrappedPair(s: State)
    requires |s.buf| == 2 && (s.bitmap.Bitmap? ==> |s.bitmap.bits| > 0)
    ensures var c := Cut([0x41, 0x42], 1, 2, SIZE_LIMIT - 1); c.Valid() && !Succeeds(s, c, [0, 1])
  {
    hide Succeeds;
    TwoPieces(s, SIZE_LIMIT - 1);
  }

  /** ... with a first piece that is too short for the bitmap, unless it comes again, */
  lemma ShortFirstPiece(s: State)
    requires |s.buf| == 100 && s.bitmap.Bitmap? && |s.bitmap.bits| == 2
    ensures var c := Cut([0x41, 0x42], 1, 2, 0);
      c.Valid() && Fits(s, c, [0, 1]) && !Succeeds(s, c, [0, 1]) && Succeeds(s, c, [0, 0, 1])
  {
    hide Succeeds, Completes;
    var c := Cut([0x41, 0x42], 1, 2, 0);
    assert c.Offset(1) == 1 && c.Offset(2) == 2;
    InOrderOfTwo();
    DuplicateOfTwo();
    RightIff(s, c, [0, 1]);
    RightIff(s, c, [0, 0, 1]);
    assert [0, 1][1..] == [1] && [0, 0, 1][1..] == [0, 1];
  }

  /** ... or with a duplicate and no bitmap. */
  lemma Duplicated(s: State)
    requires |s.buf| == 2 && s.bitmap.NoBitmap?
    ensures Cut([0x41, 0x42], 1, 2, 0).Valid() && !Succeeds(s, Cut([0x41, 0x42], 1, 2, 0), [0, 0, 1])
  {
    hide Succeeds, Completes;
    var c := Cut([0x41, 0x42], 1, 2, 0);
    assert c.Offset(1) == 1 && c.Offset(2) == 2;
    DuplicateOfTwo();
    RightIff(s, c, [0, 0, 1]);
    assert [0, 0, 1][0] == [0, 0, 1][1];
  }

  lemma DuplicateOfTwo()
    ensures Completes([0, 0, 1], 2, 2)
  {
    assert [0, 0, 1][..3] == [0, 0, 1] && [0, 0, 1][..2] == [0, 0];
    assert Everything({0, 1}, 2);
    assert Seen([0, 0, 1]) == {0, 1};
    assert Seen([0, 0]) == {0};
  }
}
