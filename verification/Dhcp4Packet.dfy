/** Sizes, serialization and aggregation of DHCPv4 options, and the packet check of include/proto/dhcpv4.h. */
module Dhcp4Packet {
  import opened Common
  import opened ByteBits
  import opened Dhcp4Wire
  import opened Dhcp4

  // ----- selection by a filter -----

  /** The options that an allow filter lets through; no filter lets all of them through. */
  ghost function Selected(m: Options, filter: array?<bv8>): Options
    requires filter == null || filter.Length == 32
    reads filter
  {
    if filter == null then m else map c | c in m && c < 256 && Got(filter[..], c) :: m[c]
  }

  /** A bitmap holds exactly the codes of m. */
  ghost predicate CodesOf(flt: seq<bv8>, m: Options)
  {
    |flt| == 32 && forall c: nat :: c < 256 ==> (Got(flt, c) <==> c in m)
  }

  lemma ValueCodes(a: AoBuf)
    requires a.Valid()
    ensures CodesOf(a.bits[..], a.Value()) && forall c :: c in a.Value() ==> c < 256
  {}

  lemma AndCodes(x: seq<bv8>, y: seq<bv8>, z: seq<bv8>, m: Options)
    requires CodesOf(x, m) && |y| == 32 && |z| == 32 && forall i :: 0 <= i < 32 ==> z[i] == x[i] & y[i]
    ensures CodesOf(z, map c | c in m && c < 256 && Got(y, c) :: m[c])
  {
    hide ByteBit;
    forall c: nat | c < 256 ensures Got(z, c) <==> Got(x, c) && Got(y, c) { AndBits(x[c / 8], y[c / 8], c % 8); }
  }

  /** The local filter map. */
  method Select(a: AoBuf, filter: array?<bv8>) returns (flt: array<bv8>)
    requires a.Valid() && (filter == null || filter.Length == 32)
    ensures fresh(flt) && CodesOf(flt[..], Selected(a.Value(), filter))
  {
    hide Got;
    flt := new bv8[32](_ => 0);
    ValueCodes(a);
    if filter != null {
      forall i | 0 <= i < 32 { flt[i] := a.bits[i] & filter[i]; }
      AndCodes(a.bits[..], filter[..], flt[..], a.Value());
    } else {
      forall i | 0 <= i < 32 { flt[i] := a.bits[i]; }
      assert flt[..] == a.bits[..];
    }
  }

  /** A zero byte of the bitmap: none of its eight codes is there. */
  lemma ByteEmpty(flt: seq<bv8>, m: Options, code: nat)
    requires CodesOf(flt, m) && code < 256 && code % 8 == 0 && flt[code / 8] == 0
    ensures code + 8 <= 256 && forall c :: code <= c < code + 8 ==> c !in m
  {
    hide ByteBit;
    forall c: nat | code <= c < code + 8 ensures c !in m {
      assert c / 8 == code / 8;
      NoBitSet(c % 8);
      assert !Got(flt, c);
    }
  }

  /** The store holds the data of all options in m. */
  ghost predicate Stores(opt: seq<Opt>, m: Options)
  {
    |opt| == 256 && forall c: nat :: c in m ==> c < 256 && opt[c].Sound() && opt[c].Data() == m[c]
  }

  lemma SelectedStored(a: AoBuf, filter: array?<bv8>)
    requires a.Valid() && (filter == null || filter.Length == 32)
    ensures Stores(a.opt[..], Selected(a.Value(), filter))
  {}

  lemma StoredLen(opt: seq<Opt>, m: Options, code: nat)
    requires Stores(opt, m) && code in m
    ensures |opt| == 256 && code < 256 && opt[code].Sound() && opt[code].Data() == m[code] && |m[code]| == opt[code].len
  {}

  /** dhcp4_ao_buf_calc_size. */
  method CalcSize(a: AoBuf, filter: array?<bv8>) returns (total: nat)
    requires a.Valid() && (filter == null || filter.Length == 32)
    ensures total == SizeFrom(Selected(a.Value(), filter), 0)
  {
    hide Selected, CodesOf, Stores, SizeFrom;
    var flt := Select(a, filter);
    SelectedStored(a, filter);
    total := SizeLoop(a.opt, flt, Selected(a.Value(), filter));
  }

  method SizeLoop(opt: array<Opt>, flt: array<bv8>, ghost m: Options) returns (total: nat)
    requires CodesOf(flt[..], m) && Stores(opt[..], m)
    ensures total == SizeFrom(m, 0)
  {
    hide OptSize, CodesOf, Stores, SizeFrom;
    CodesLength(flt[..], m);
    total := 0;
    var code := 0;
    while code < 256
      invariant 0 <= code <= 256 && total + SizeFrom(m, code) == SizeFrom(m, 0)
    {
      if code % 8 == 0 && flt[code / 8] == 0 {
        ByteEmpty(flt[..], m, code);
        SkipCodes(m, code, 8);
        code := code + 8;
        continue;
      }
      GotIsIn(flt[..], m, code);
      FromStep(m, code);
      if Got(flt[..], code) {
        StoredLen(opt[..], m, code);
        total := total + OptSize(opt[code].len);
      }
      code := code + 1;
    }
    LastStep(m, 0, 0);
  }

  lemma CodesLength(flt: seq<bv8>, m: Options)
    requires CodesOf(flt, m)
    ensures |flt| == 32
  {}

  lemma GotIsIn(flt: seq<bv8>, m: Options, code: nat)
    requires CodesOf(flt, m) && code < 256
    ensures code / 8 < |flt| && (Got(flt, code) <==> code in m)
  {}

  // ----- serialization -----

  lemma DataWireNext(code: nat, data: seq<Byte>, off: nat)
    requires code < 256 && off < |data|
    ensures var n := Min(CHUNK, |data| - off);
      DataWire(code, data[off..]) == ChunkWire(Chunk(code, data[off..off + n])) + DataWire(code, data[off + n..])
  {
    var n := Min(CHUNK, |data| - off);
    assert data[off..][..n] == data[off..off + n] && data[off..][n..] == data[off + n..];
  }

  method PutChunk(code: nat, data: seq<Byte>, buf: array<Byte>, ptr: nat)
    requires code < 256 && |data| < 256 && ptr + 2 + |data| <= buf.Length
    modifies buf
    ensures buf[..ptr + 2 + |data|] == old(buf[..ptr]) + ChunkWire(Chunk(code, data))
    ensures forall k :: ptr + 2 + |data| <= k < buf.Length ==> buf[k] == old(buf[k])
  {
    buf[ptr] := code;
    buf[ptr + 1] := |data|;
    forall k | 0 <= k < |data| { buf[ptr + 2 + k] := data[k]; }
  }

  /** The chunks of one option with data are written. */
  method PutOption(code: nat, data: seq<Byte>, buf: array<Byte>, start: nat) returns (ptr: nat)
    requires code < 256 && start + OptSize(|data|) <= buf.Length
    modifies buf
    ensures ptr == start + OptSize(|data|) && buf[..ptr] == old(buf[..start]) + DataWire(code, data)
    ensures forall k :: ptr <= k < buf.Length ==> buf[k] == old(buf[k])
  {
    hide OptSize, DataWire, ChunkWire;
    ptr := start;
    var off: nat := 0;
    DataWireSize(code, data);
    assert data[0..] == data;
    ghost var pre := buf[..start];
    while off < |data|
      invariant off <= |data| && ptr <= buf.Length && start <= ptr
      invariant buf[..ptr] + DataWire(code, data[off..]) == pre + DataWire(code, data)
      invariant forall k :: ptr <= k < buf.Length ==> buf[k] == old(buf[k])
    {
      var n := Min(CHUNK, |data| - off);
      DataWireNext(code, data, off);
      ghost var done, w, rest := buf[..ptr], ChunkWire(Chunk(code, data[off..off + n])), DataWire(code, data[off + n..]);
      ChunkFits(done, w, rest, pre + DataWire(code, data), Chunk(code, data[off..off + n]), buf.Length);
      PutChunk(code, data[off..off + n], buf, ptr);
      ptr := ptr + 2 + n;
      off := off + n;
    }
    assert data[off..] == [];
    NothingToWrite(code);
    assert buf[..ptr] + [] == buf[..ptr];
  }

  lemma NothingToWrite(code: nat)
    requires code < 256
    ensures DataWire(code, []) == []
  {}

  lemma ChunkFits(done: seq<Byte>, w: seq<Byte>, rest: seq<Byte>, all: seq<Byte>, c: Chunk, room: nat)
    requires done + (w + rest) == all && |all| <= room && c.code < 256 && |c.data| < 256 && w == ChunkWire(c)
    ensures |done| + 2 + |c.data| <= room && done + w + rest == all
  {
    assert done + w + rest == done + (w + rest);
  }

  /** dhcp4_ao_buf_serialize: when an option does not fit, it and the rest are only counted. When the header of an
      option without data does not fit, the source writes it nevertheless; then `inside` is false, and the model
      leaves out the bytes beyond the buffer. */
  method Serialize(a: AoBuf, filter: array?<bv8>, buf: array<Byte>, bufSize: nat)
    returns (status: Status, written: nat, inside: bool)
    requires a.Valid() && (filter == null || filter.Length == 32) && bufSize <= buf.Length
    modifies buf
    ensures written == old(GrownFrom(Selected(a.Value(), filter), 0, 0, bufSize))
    ensures status == if written > bufSize then ENOBUFS else Ok
    ensures inside <==> old(Inside(Selected(a.Value(), filter), bufSize))
    ensures status == Ok <==> old(|WireFrom(Selected(a.Value(), filter), 0)|) <= bufSize
    ensures status == Ok ==> inside && buf[..written] == old(WireFrom(Selected(a.Value(), filter), 0))
    ensures forall k :: bufSize <= k < buf.Length ==> buf[k] == old(buf[k])
  {
    hide OptSize, OptWire, Selected, CodesOf, Stores, GrownFrom, WireFrom;
    var flt := Select(a, filter);
    SelectedStored(a, filter);
    FitsIff(Selected(a.Value(), filter), bufSize);
    status, written, inside := SerializeLoop(a.opt, flt, buf, bufSize, Selected(a.Value(), filter));
  }

  method SerializeLoop(opt: array<Opt>, flt: array<bv8>, buf: array<Byte>, bufSize: nat, ghost m: Options)
    returns (status: Status, written: nat, inside: bool)
    requires buf as object != flt && CodesOf(flt[..], m) && Stores(opt[..], m) && bufSize <= buf.Length
    modifies buf
    ensures written == GrownFrom(m, 0, 0, bufSize)
    ensures status == if written > bufSize then ENOBUFS else Ok
    ensures inside <==> Inside(m, bufSize)
    ensures status == Ok ==> buf[..written] == WireFrom(m, 0)
    ensures forall k :: bufSize <= k < buf.Length ==> buf[k] == old(buf[k])
  {
    hide OptSize, OptWire, CodesOf, Stores, WireFrom, GrownFrom, Placed, HeaderFits, Below;
    ghost var fs, os := flt[..], opt[..];
    CodesLength(fs, m);
    var ptr, code := 0, 0;
    inside := true;
    FirstPlaced(m, bufSize);
    assert buf[..0] == [] && [] + WireFrom(m, 0) == WireFrom(m, 0);
    while code < 256
      invariant 0 <= code <= 256 && 0 <= ptr && flt[..] == fs && opt[..] == os
      invariant GrownFrom(m, code, ptr, bufSize) == GrownFrom(m, 0, 0, bufSize) && Placed(m, code, ptr, bufSize)
      invariant inside <==> forall c: nat :: c < code ==> HeaderFits(m, c, bufSize)
      invariant ptr <= bufSize ==> buf[..ptr] + WireFrom(m, code) == WireFrom(m, 0)
      invariant forall k :: bufSize <= k < buf.Length ==> buf[k] == old(buf[k])
    {
      if code % 8 == 0 && flt[code / 8] == 0 {
        ByteEmpty(fs, m, code);
        SkipCodes(m, code, 8);
        SkipGrown(m, code, ptr, bufSize, 8);
        code := code + 8;
        continue;
      }
      GotIsIn(fs, m, code);
      FromStep(m, code);
      GrownNext(m, code, ptr, bufSize);
      if Got(flt[..], code) {
        StoredLen(os, m, code);
        var fits: bool;
        ptr, fits := SerializeOption(code, opt[code].Data(), buf, ptr, bufSize, WireFrom(m, code + 1), WireFrom(m, 0));
        inside := inside && fits;
      }
      code := code + 1;
    }
    LastStep(m, ptr, bufSize);
    assert ptr <= bufSize ==> buf[..ptr] + [] == buf[..ptr];
    written := ptr;
    status := if ptr > bufSize then ENOBUFS else Ok;
  }

  /** One code of the serializer: where it is afterwards, and whether a header fits. */
  lemma GrownNext(m: Options, code: nat, ptr: nat, cap: nat)
    requires code < 256 && Placed(m, code, ptr, cap)
    ensures var next := if code in m then Grown(ptr, |m[code]|, cap) else ptr;
      GrownFrom(m, code, ptr, cap) == GrownFrom(m, code + 1, next, cap) && Placed(m, code + 1, next, cap)
    ensures HeaderFits(m, code, cap) <==> !(code in m && m[code] == [] && ptr <= cap < ptr + 2)
  {
    hide Grown, Below;
    PlacedNext(m, code, ptr, cap);
  }

  lemma {:induction false} SkipGrown(m: Options, code: nat, ptr: nat, cap: nat, n: nat)
    requires code + n <= 256 && forall c :: code <= c < code + n ==> c !in m
    requires Placed(m, code, ptr, cap)
    ensures GrownFrom(m, code, ptr, cap) == GrownFrom(m, code + n, ptr, cap) && Placed(m, code + n, ptr, cap)
    ensures forall c: nat :: code <= c < code + n ==> HeaderFits(m, c, cap)
    decreases n
  {
    hide Placed, Grown, Below;
    if n > 0 {
      PlacedNext(m, code, ptr, cap);
      SkipGrown(m, code + 1, ptr, cap, n - 1);
    }
  }

  lemma FromStep(m: Options, code: nat)
    requires code < 256
    ensures code in m ==> SizeFrom(m, code) == OptSize(|m[code]|) + SizeFrom(m, code + 1)
    ensures code in m ==> WireFrom(m, code) == OptWire(code, m[code]) + WireFrom(m, code + 1)
    ensures code !in m ==> SizeFrom(m, code) == SizeFrom(m, code + 1) && WireFrom(m, code) == WireFrom(m, code + 1)
  {
    hide OptSize, OptWire;
  }

  lemma LastStep(m: Options, ptr: nat, cap: nat)
    ensures SizeFrom(m, 256) == 0 && WireFrom(m, 256) == [] && GrownFrom(m, 256, ptr, cap) == ptr
  {}

  /** One option is written when it fits, and counted. */
  method SerializeOption(code: nat, data: seq<Byte>, buf: array<Byte>, ptr: nat, bufSize: nat,
                         ghost rest: seq<Byte>, ghost all: seq<Byte>) returns (next: nat, fits: bool)
    requires code < 256 && bufSize <= buf.Length
    requires ptr <= bufSize ==> buf[..ptr] + (OptWire(code, data) + rest) == all
    modifies buf
    ensures next == Grown(ptr, |data|, bufSize)
    ensures fits <==> !(data == [] && ptr <= bufSize < ptr + 2)
    ensures next <= bufSize ==> buf[..next] + rest == all
    ensures forall k :: bufSize <= k < buf.Length ==> buf[k] == old(buf[k])
  {
    hide OptSize, DataWire;
    EmptySize();
    fits := true;
    if ptr + OptSize(|data|) > bufSize { return ptr + OptSize(|data|), true; }
    ghost var done := buf[..ptr];
    if |data| == 0 {
      fits := ptr + 2 <= bufSize;
      if ptr < bufSize { buf[ptr] := code; }
      if fits { buf[ptr + 1] := 0; }
      next := ptr + 2;
      assert fits ==> buf[..next] == done + [code, 0];
    } else {
      next := PutOption(code, data, buf, ptr);
    }
    assert done + OptWire(code, data) + rest == done + (OptWire(code, data) + rest);
  }

  // ----- aggregation -----

  /** The reading has got to `pos` by way of the chunks `done`. */
  ghost predicate Reading(opts: seq<Params>, buf: seq<Byte>, pos: nat, done: seq<Chunk>)
  {
    SaneTable(opts) && pos <= |buf| && Read(opts, buf, 0) == AfterChunks(done, Read(opts, buf, pos))
  }

  lemma ReadingStart(opts: seq<Params>, buf: seq<Byte>)
    requires SaneTable(opts)
    ensures Reading(opts, buf, 0, [])
  {
    var r := Read(opts, buf, 0);
    assert [] + r.chunks == r.chunks;
  }

  lemma ReadingStops(opts: seq<Params>, buf: seq<Byte>, pos: nat, done: seq<Chunk>)
    requires Reading(opts, buf, pos, done)
    ensures pos == |buf| ==> Read(opts, buf, 0) == Scan(done, true)
    ensures pos < |buf| ==>
      var p := ParamsOf(opts, buf[pos]);
      && Sane(p)
      && (p.noLen && p.typ == T_END ==> Read(opts, buf, 0) == Scan(done, true))
      && (!p.noLen && (pos + 2 > |buf| || pos + 2 + buf[pos + 1] > |buf| || !LenOk(p, buf[pos + 1]))
          ==> Read(opts, buf, 0) == Scan(done, false))
  {
    hide LenOk, Sane;
    if pos < |buf| { ParamsSane(opts, buf[pos]); }
    assert done + [] == done;
  }

  lemma ReadingOn(opts: seq<Params>, buf: seq<Byte>, pos: nat, done: seq<Chunk>)
    requires Reading(opts, buf, pos, done) && pos < |buf| && Sane(ParamsOf(opts, buf[pos]))
    ensures ParamsOf(opts, buf[pos]).noLen && ParamsOf(opts, buf[pos]).typ != T_END
      ==> Reading(opts, buf, pos + 1, done)
    ensures !ParamsOf(opts, buf[pos]).noLen && pos + 2 <= |buf| && pos + 2 + buf[pos + 1] <= |buf|
        && LenOk(ParamsOf(opts, buf[pos]), buf[pos + 1])
      ==> Reading(opts, buf, pos + 2 + buf[pos + 1], done + [Chunk(buf[pos], buf[pos + 2..pos + 2 + buf[pos + 1]])])
  {
    hide LenOk, Sane, ParamsOf;
    if !ParamsOf(opts, buf[pos]).noLen && pos + 2 <= |buf| && pos + 2 + buf[pos + 1] <= |buf|
       && LenOk(ParamsOf(opts, buf[pos]), buf[pos + 1])
    {
      var c := Chunk(buf[pos], buf[pos + 2..pos + 2 + buf[pos + 1]]);
      var r := Read(opts, buf, pos + 2 + buf[pos + 1]);
      assert done + ([c] + r.chunks) == done + [c] + r.chunks;
    }
  }

  lemma JoinedOne(m: Options, done: seq<Chunk>, c: Chunk)
    ensures Joined(m, done + [c]) == Put(Joined(m, done), c.code, c.data)
  {
    hide Put;
    JoinedAppend(m, done, [c]);
    assert [c][1..] == [];
  }

  /** dhcp4_ao_buf_aggregate. The length byte is read before it is known to lie in the buffer, which does
      not show in the result. */
  method Aggregate(opts: seq<Params>, buf: seq<Byte>, a: AoBuf) returns (status: Status)
    requires a.Valid() && SaneTable(opts)
    modifies a.opt, a.bits
    ensures a.Valid() && a.Value() == Joined(old(a.Value()), Read(opts, buf, 0).chunks)
    ensures status == if Read(opts, buf, 0).ok then Ok else EBADMSG
  {
    hide Read, Reading, Joined, Put, Sane, LenOk, ParamsOf, SaneTable, SoundStore;
    ghost var m := a.Value();
    ghost var done: seq<Chunk> := [];
    var pos := 0;
    ReadingStart(opts, buf);
    JoinedNone(m);
    while pos < |buf|
      invariant 0 <= pos <= |buf| && a.Valid() && Reading(opts, buf, pos, done) && a.Value() == Joined(m, done)
    {
      ReadingStops(opts, buf, pos, done);
      ReadingOn(opts, buf, pos, done);
      var optCode := buf[pos];
      var beyond: Byte :| true;
      var optLen: Byte := if pos + 1 < |buf| then buf[pos + 1] else beyond;
      var optp := ParamsOf(opts, optCode);
      if optp.noLen {
        if T_END == optp.typ { return Ok; }
        pos := pos + 1;
        continue;
      }
      var optData := pos + 2;
      if optData + optLen > |buf| || !LenOk(optp, optLen) { return EBADMSG; }
      var data := buf[optData..optData + optLen];
      JoinedOne(m, done, Chunk(optCode, data));
      done := done + [Chunk(optCode, data)];
      a.Store(optCode, data);
      pos := optData + optLen;
    }
    ReadingStops(opts, buf, pos, done);
    return Ok;
  }

  // ----- round trip -----

  /** Serializing and aggregating again reproduces the options, also those without data, when the buffer can hold
      all bytes and every chunk passes its length rule. */
  method SerializeAggregate(a: AoBuf, b: AoBuf, opts: seq<Params>, buf: array<Byte>, bufSize: nat) returns (status: Status)
    requires a.Valid() && b.Shape() && a.opt != b.opt && a.bits != b.bits
    requires AllAccepted(opts, a.Value()) && bufSize <= buf.Length
    modifies buf, b.opt, b.bits
    ensures status == if old(|WireFrom(a.Value(), 0)|) > bufSize then ENOBUFS else Ok
    ensures status == Ok ==> b.Valid() && b.Value() == old(a.Value())
  {
    hide Read, Joined, WireFrom, PiecesFrom, SoundStore, OptionsOf, Storable, GrownFrom, Inside;
    ghost var m := a.Value();
    ValueStorable(a);
    RoundTrip(opts, m);
    var written, inside;
    status, written, inside := Serialize(a, null, buf, bufSize);
    if status != Ok { return; }
    var wire := buf[..written];
    b.Clean();
    status := Aggregate(opts, wire, b);
  }

  // ----- the packet -----

  const OVERLOAD: nat := 52
  const HDR_SIZE: nat := 240
  const SNAME: nat := 44
  const FILE: nat := 108
  const COOKIE: nat := 236

  /** dhcp4_hdr_check of a packet that has a header. */
  predicate HdrOk(buf: seq<Byte>)
    requires |buf| >= HDR_SIZE
  {
    && 1 <= buf[0] <= 2 && 0 < buf[1] < 38 && buf[2] < 16
    && buf[COOKIE..HDR_SIZE] == [99, 130, 83, 99]
  }

  /** What a packet says: an error, or its options with option 52 handled. */
  datatype Message = Malformed | Message(options: Options, overload: Byte)

  /** One more section of options, if the overload flags ask for it. */
  function Section(opts: seq<Params>, msg: Message, part: seq<Byte>, wanted: bool): Message
    requires SaneTable(opts)
  {
    if msg.Malformed? || !wanted then msg
    else if !Read(opts, part, 0).ok then Malformed
    else Message(Joined(msg.options, Read(opts, part, 0).chunks), msg.overload)
  }

  function Overload(m: Options): Byte { if OVERLOAD in m && m[OVERLOAD] != [] then m[OVERLOAD][0] else 0 }

  function MainPart(opts: seq<Params>, buf: seq<Byte>): Message
    requires SaneTable(opts) && |buf| >= HDR_SIZE
  {
    var r := Read(opts, buf[HDR_SIZE..], 0);
    if !r.ok then Malformed
    else
      var m := Joined(map[], r.chunks);
      Message(m - {OVERLOAD}, Overload(m))
  }

  /** The options of a packet: its own, then those in `file`, then those in `sname`. */
  function PacketOptions(opts: seq<Params>, buf: seq<Byte>): Message
    requires SaneTable(opts) && |buf| >= HDR_SIZE
  {
    var main := MainPart(opts, buf);
    if main.Malformed? then main
    else
      var withFile := Section(opts, main, buf[FILE..COOKIE], main.overload % 2 == 1);
      Section(opts, withFile, buf[SNAME..FILE], main.overload / 2 % 2 == 1)
  }

  /** dhcp4_pkt_chk_opts_aggregate. Nothing is left in the store after an error in an option. */
  method ChkOptsAggregate(opts: seq<Params>, buf: seq<Byte>, a: AoBuf) returns (status: Status, overload: Byte)
    requires a.Valid() && SaneTable(opts)
    modifies a.opt, a.bits
    ensures a.Valid()
    ensures |buf| < HDR_SIZE ==> status == EINVAL && a.Value() == old(a.Value())
    ensures |buf| >= HDR_SIZE && !(1 <= buf[0] <= 2 && 0 < buf[1] < 38 && buf[2] < 16 && buf[236..240] == [99, 130, 83, 99]) ==>
      status == EBADMSG && a.Value() == old(a.Value())
    ensures |buf| >= HDR_SIZE && 1 <= buf[0] <= 2 && 0 < buf[1] < 38 && buf[2] < 16 && buf[236..240] == [99, 130, 83, 99] ==>
      var r := PacketOptions(opts, buf);
      && status == (if r.Malformed? then EBADMSG else Ok)
      && (if r.Malformed? then a.Value() == map[] else a.Value() == r.options && overload == r.overload)
  {
    hide Read, Joined, SaneTable, SoundStore, OptionsOf;
    overload := 0;
    if |buf| < HDR_SIZE { return EINVAL, 0; }
    if !HdrOk(buf) { return EBADMSG, 0; }
    a.Clean();
    status := Aggregate(opts, buf[HDR_SIZE..], a);
    if status != Ok {
      a.Clean();
      return status, 0;
    }
    var flags := TakeOverload(a);
    if flags % 2 == 1 {
      status := Aggregate(opts, buf[FILE..COOKIE], a);
      if status != Ok {
        a.Clean();
        return status, 0;
      }
    }
    if flags / 2 % 2 == 1 {
      status := Aggregate(opts, buf[SNAME..FILE], a);
      if status != Ok {
        a.Clean();
        return status, 0;
      }
    }
    overload := flags;
  }

  /** Option 52 is taken out of the store. */
  method TakeOverload(a: AoBuf) returns (flags: Byte)
    requires a.Valid()
    modifies a.opt, a.bits
    ensures a.Valid() && a.Value() == old(a.Value()) - {OVERLOAD}
    ensures flags == old(Overload(a.Value()))
  {
    hide SoundStore, OptionsOf;
    var found, data := a.DataGet(OVERLOAD);
    flags := 0;
    if found && |data| != 0 { flags := data[0]; }
    a.OptClean(OVERLOAD);
  }
}
