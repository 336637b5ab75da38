/** DHCPv4 options on the wire (sections 5 to 7 of RFC 3396): splitting, joining, and the length rules of
    include/proto/dhcpv4.h. */
module Dhcp4Wire {
  import opened Common

  /** The options of a message by code. */
  type Options = map<nat, seq<Byte>>

  const CHUNK: nat := 255

  /** The limit of an option's 16-bit length. */
  const LEN_LIMIT: nat := 0x1_0000

  // ----- sizes -----

  /** The size rule of dhcp4_ao_buf_calc_size for one option. */
  function OptSize(len: nat): nat
  {
    len + 2 * (len / 255) + (if len % 255 != 0 then 2 else 0)
  }

  /** The sizes of the options with codes from `code` on. */
  function SizeFrom(m: Options, code: nat): nat
    decreases 256 - code
  {
    if code >= 256 then 0 else (if code in m then OptSize(|m[code]|) else 0) + SizeFrom(m, code + 1)
  }

  // ----- splitting -----

  datatype Chunk = Chunk(code: nat, data: seq<Byte>)

  /** A long option is cut into pieces of 255 bytes and one rest. */
  function DataPieces(code: nat, data: seq<Byte>): seq<Chunk>
    decreases |data|
  {
    if data == [] then []
    else
      var k := Min(CHUNK, |data|);
      [Chunk(code, data[..k])] + DataPieces(code, data[k..])
  }

  function ChunkWire(c: Chunk): seq<Byte>
    requires c.code < 256 && |c.data| < 256
  {
    [c.code, |c.data|] + c.data
  }

  /** The bytes of one option with data. */
  function DataWire(code: nat, data: seq<Byte>): seq<Byte>
    requires code < 256
    decreases |data|
  {
    if data == [] then []
    else
      var k := Min(CHUNK, |data|);
      ChunkWire(Chunk(code, data[..k])) + DataWire(code, data[k..])
  }

  /** An option without data is one empty chunk. */
  function Pieces(code: nat, data: seq<Byte>): seq<Chunk>
  {
    if data == [] then [Chunk(code, [])] else DataPieces(code, data)
  }

  /** The bytes of one option; without data it is a header. */
  function OptWire(code: nat, data: seq<Byte>): seq<Byte>
    requires code < 256
  {
    if data == [] then [code, 0] else DataWire(code, data)
  }

  function WireSize(len: nat): nat { if len == 0 then 2 else OptSize(len) }

  /** The bytes of all options with codes from `code` on. */
  function WireFrom(m: Options, code: nat): seq<Byte>
    decreases 256 - code
  {
    if code >= 256 then [] else (if code in m then OptWire(code, m[code]) else []) + WireFrom(m, code + 1)
  }

  /** The bytes of the options with codes below `code`. */
  function Below(m: Options, code: nat): nat
  {
    if code == 0 then 0 else Below(m, code - 1) + (if code - 1 in m then WireSize(|m[code - 1]|) else 0)
  }

  function PiecesFrom(m: Options, code: nat): seq<Chunk>
    decreases 256 - code
  {
    if code >= 256 then [] else (if code in m then Pieces(code, m[code]) else []) + PiecesFrom(m, code + 1)
  }

  /** The size rule is the size of the data with its headers. */
  lemma {:induction false} DataWireSize(code: nat, data: seq<Byte>)
    requires code < 256
    ensures |DataWire(code, data)| == OptSize(|data|)
    decreases |data|
  {
    if |data| > CHUNK {
      DataWireSize(code, data[CHUNK..]);
      OneChunkMore(|data| - 255);
    } else if data != [] {
      assert data[|data|..] == [];
      SmallSize(|data|);
    }
  }

  lemma OneChunkMore(len: nat)
    ensures OptSize(len + 255) == OptSize(len) + 257
  {
    assert (len + 255) / 255 == len / 255 + 1 && (len + 255) % 255 == len % 255;
  }

  lemma SmallSize(len: nat)
    requires 0 < len <= 255
    ensures OptSize(len) == len + 2
  {}

  /** Of an option without data the size rule counts nothing, and two bytes are written. */
  lemma OptWireSize(code: nat, data: seq<Byte>)
    requires code < 256
    ensures |OptWire(code, data)| == WireSize(|data|)
    ensures |OptWire(code, data)| == OptSize(|data|) <==> data != []
  {
    hide DataWire;
    DataWireSize(code, data);
  }

  /** The bytes of the options below and from a code make up all of them. */
  lemma {:induction false} WireFromSize(m: Options, code: nat)
    requires code <= 256
    ensures Below(m, code) + |WireFrom(m, code)| == |WireFrom(m, 0)|
  {
    hide OptWire, WireSize;
    if code > 0 {
      WireFromSize(m, code - 1);
      if code - 1 in m { OptWireSize(code - 1, m[code - 1]); }
    }
  }

  /** Codes that are not there add nothing. */
  lemma {:induction false} SkipCodes(m: Options, code: nat, n: nat)
    requires code + n <= 256 && forall c :: code <= c < code + n ==> c !in m
    ensures SizeFrom(m, code) == SizeFrom(m, code + n) && WireFrom(m, code) == WireFrom(m, code + n)
    decreases n
  {
    hide OptSize, OptWire;
    if n > 0 { SkipCodes(m, code + 1, n - 1); }
  }

  // ----- joining -----

  /** What is left of data when its length is cut to 16 bits. */
  function Kept(data: seq<Byte>): (r: seq<Byte>)
    ensures |r| < LEN_LIMIT && (|data| < LEN_LIMIT <==> r == data)
  {
    data[..|data| % LEN_LIMIT]
  }

  function DataOf(m: Options, code: nat): seq<Byte> { if code in m then m[code] else [] }

  /** More data for one code. */
  function Put(m: Options, code: nat, data: seq<Byte>): Options
  {
    m[code := Kept(DataOf(m, code) + data)]
  }

  /** Nothing is lost exactly when the length fits 16 bits. */
  lemma PutIff(m: Options, code: nat, data: seq<Byte>)
    ensures Put(m, code, data)[code] == DataOf(m, code) + data <==> |DataOf(m, code)| + |data| < LEN_LIMIT
  {
    hide Kept;
  }

  lemma PutPut(m: Options, code: nat, a: seq<Byte>, b: seq<Byte>)
    requires |DataOf(m, code)| + |a| < LEN_LIMIT
    ensures Put(Put(m, code, a), code, b) == Put(m, code, a + b)
  {
    hide Kept;
    var s := DataOf(m, code);
    assert s + a + b == s + (a + b);
  }

  lemma PutNew(m: Options, code: nat, data: seq<Byte>)
    requires code !in m && |data| < LEN_LIMIT
    ensures Put(m, code, data) == m[code := data]
  {
    assert [] + data == data;
  }

  /** Data of one code is appended in the order of its chunks. */
  function Joined(m: Options, chunks: seq<Chunk>): Options
    decreases |chunks|
  {
    if chunks == [] then m else Joined(Put(m, chunks[0].code, chunks[0].data), chunks[1..])
  }

  lemma JoinedNone(m: Options)
    ensures Joined(m, []) == m
  {}

  lemma {:induction false} JoinedAppend(m: Options, s: seq<Chunk>, t: seq<Chunk>)
    ensures Joined(m, s + t) == Joined(Joined(m, s), t)
    decreases |s|
  {
    hide Put;
    if s == [] {
      assert s + t == t;
    } else {
      JoinedAppend(Put(m, s[0].code, s[0].data), s[1..], t);
      assert (s + t)[1..] == s[1..] + t;
    }
  }

  lemma {:induction false} JoinedData(m: Options, code: nat, data: seq<Byte>)
    requires data != [] && |DataOf(m, code)| + |data| < LEN_LIMIT
    ensures Joined(m, DataPieces(code, data)) == Put(m, code, data)
    decreases |data|
  {
    hide Kept;
    var k := Min(CHUNK, |data|);
    assert DataPieces(code, data)[1..] == DataPieces(code, data[k..]);
    if k < |data| {
      JoinedData(Put(m, code, data[..k]), code, data[k..]);
      PutPut(m, code, data[..k], data[k..]);
      assert data[..k] + data[k..] == data;
    } else {
      assert data[..k] == data && data[k..] == [];
    }
  }

  /** The pieces of an option, joined in order, are its data. */
  lemma JoinedPieces(m: Options, code: nat, data: seq<Byte>)
    requires |DataOf(m, code)| + |data| < LEN_LIMIT
    ensures Joined(m, Pieces(code, data)) == Put(m, code, data)
  {
    hide Put, DataPieces;
    if data == [] { assert Pieces(code, data)[1..] == []; } else { JoinedData(m, code, data); }
  }

  /** What a store can hold. */
  ghost predicate Storable(m: Options) { forall c :: c in m ==> c < 256 && |m[c]| < LEN_LIMIT }

  /** The options with codes from `code` on. */
  function Tail(m: Options, code: nat): Options { map c | c in m && code <= c :: m[c] }

  lemma TailStep(m0: Options, m: Options, code: nat)
    requires forall c :: c in m0 ==> c < code
    ensures code in m ==> m0 + Tail(m, code) == m0[code := m[code]] + Tail(m, code + 1)
    ensures code !in m ==> Tail(m, code) == Tail(m, code + 1)
  {}

  lemma TailEnds(m0: Options, m: Options)
    requires Storable(m)
    ensures m0 + Tail(m, 256) == m0 && map[] + Tail(m, 0) == m
  {}

  /** Joining the pieces of all options gives back the options. */
  lemma {:induction false} JoinedAll(m0: Options, m: Options, code: nat)
    requires Storable(m) && code <= 256 && forall c :: c in m0 ==> c < code
    ensures Joined(m0, PiecesFrom(m, code)) == m0 + Tail(m, code)
    decreases 256 - code
  {
    hide Put, Tail, Pieces, Joined;
    TailStep(m0, m, code);
    if code == 256 {
      JoinedNone(m0);
      TailEnds(m0, m);
    } else if code in m {
      JoinedAppend(m0, Pieces(code, m[code]), PiecesFrom(m, code + 1));
      JoinedPieces(m0, code, m[code]);
      PutNew(m0, code, m[code]);
      JoinedAll(m0[code := m[code]], m, code + 1);
    } else {
      assert [] + PiecesFrom(m, code + 1) == PiecesFrom(m, code + 1);
      JoinedAll(m0, m, code + 1);
    }
  }

  // ----- the length rules -----

  const T_END: nat := 15
  const NO_SIZE: Byte := 255

  /** dhcp4_opt_params_t without its display data. */
  datatype Params = Params(len: Byte, typ: nat, noLen: bool, fixedLen: bool, minLen: bool, isArray: bool)

  /** dhcp4_opt_params_unknown: bytes of any length. */
  const UNKNOWN := Params(0, 13, false, false, true, false)

  /** dhcp4_opt_type2size_fixed. */
  function FixedSize(typ: nat): Byte
  {
    if typ == 0 then 0 else if typ == 2 || typ == 3 then 1 else if typ == 4 || typ == 5 then 2
    else if 6 <= typ <= 8 then 4 else NO_SIZE
  }

  /** dhcp4_opt_type2size_min. */
  function MinSize(typ: nat): Byte
  {
    if typ == 1 then 2 else if 9 <= typ <= 11 || typ == 13 then 1 else NO_SIZE
  }

  function Fixed(p: Params): Byte
  {
    if FixedSize(p.typ) == NO_SIZE && p.fixedLen then p.len else FixedSize(p.typ)
  }

  /** Elements of an array have a size; dhcp4_validate_opt_params leaves that to the tables. */
  predicate Sane(p: Params) { p.isArray ==> Fixed(p) > 0 }

  /** The extra length check. */
  predicate LenOk(p: Params, n: nat)
    requires Sane(p)
  {
    if Fixed(p) != NO_SIZE then (if p.isArray then n >= Fixed(p) && n % Fixed(p) == 0 else n == Fixed(p))
    else
      var least := if p.minLen then p.len else MinSize(p.typ);
      least == NO_SIZE || n >= least
  }

  /** Which lengths pass, for each type: none for NONE, one, two or four bytes for the numbers and the address or, in an
      array, a positive multiple of them, two bytes or more for suboptions and one or more for strings and bytes, unless
      the parameters give an exact length, an element length or another minimum (255 for no limit). */
  lemma LenOkIff(p: Params, n: nat)
    requires Sane(p)
    ensures p.typ == 0 ==> (LenOk(p, n) <==> n == 0)
    ensures p.typ in {2, 3} && !p.isArray ==> (LenOk(p, n) <==> n == 1)
    ensures p.typ in {2, 3} && p.isArray ==> (LenOk(p, n) <==> n >= 1)
    ensures p.typ in {4, 5} && !p.isArray ==> (LenOk(p, n) <==> n == 2)
    ensures p.typ in {4, 5} && p.isArray ==> (LenOk(p, n) <==> n >= 2 && n % 2 == 0)
    ensures p.typ in {6, 7, 8} && !p.isArray ==> (LenOk(p, n) <==> n == 4)
    ensures p.typ in {6, 7, 8} && p.isArray ==> (LenOk(p, n) <==> n >= 4 && n % 4 == 0)
    ensures p.typ in {1, 9, 10, 11, 12, 13} && p.fixedLen && p.len != 255 ==>
      (LenOk(p, n) <==> if p.isArray then n >= p.len && n % p.len == 0 else n == p.len)
    ensures p.typ in {1, 9, 10, 11, 12, 13} && !p.fixedLen && p.minLen ==> (LenOk(p, n) <==> p.len == 255 || n >= p.len)
    ensures p.typ == 1 && !p.fixedLen && !p.minLen ==> (LenOk(p, n) <==> n >= 2)
    ensures p.typ in {9, 10, 11, 13} && !p.fixedLen && !p.minLen ==> (LenOk(p, n) <==> n >= 1)
    ensures p.typ == 12 && !p.fixedLen && !p.minLen ==> LenOk(p, n)
  {}

  ghost predicate SaneTable(opts: seq<Params>) { forall i :: 0 <= i < |opts| ==> Sane(opts[i]) }

  function ParamsOf(opts: seq<Params>, code: nat): Params { if code < |opts| then opts[code] else UNKNOWN }

  lemma ParamsSane(opts: seq<Params>, code: nat)
    requires SaneTable(opts)
    ensures Sane(ParamsOf(opts, code))
  {}

  // ----- reading -----

  /** The chunks read from a buffer, and whether it was read to its end. */
  datatype Scan = Scan(chunks: seq<Chunk>, ok: bool)

  function Before(c: Chunk, r: Scan): Scan { Scan([c] + r.chunks, r.ok) }

  function Read(opts: seq<Params>, buf: seq<Byte>, pos: nat): Scan
    requires SaneTable(opts)
    decreases |buf| - pos
  {
    if pos >= |buf| then Scan([], true)
    else
      var p := ParamsOf(opts, buf[pos]);
      ParamsSane(opts, buf[pos]);
      if p.noLen then (if p.typ == T_END then Scan([], true) else Read(opts, buf, pos + 1))
      else if pos + 2 > |buf| || pos + 2 + buf[pos + 1] > |buf| || !LenOk(p, buf[pos + 1]) then Scan([], false)
      else Before(Chunk(buf[pos], buf[pos + 2..pos + 2 + buf[pos + 1]]), Read(opts, buf, pos + 2 + buf[pos + 1]))
  }

  function AfterChunks(s: seq<Chunk>, r: Scan): Scan { Scan(s + r.chunks, r.ok) }

  /** Every emitted chunk of the data passes its length rule. */
  predicate DataAccepted(opts: seq<Params>, code: nat, data: seq<Byte>)
    requires Sane(ParamsOf(opts, code))
    decreases |data|
  {
    data == [] || (!ParamsOf(opts, code).noLen && LenOk(ParamsOf(opts, code), Min(CHUNK, |data|))
                   && DataAccepted(opts, code, data[Min(CHUNK, |data|)..]))
  }

  /** One chunk that passes its length rule. */
  lemma ReadChunk(opts: seq<Params>, buf: seq<Byte>, pos: nat, c: Chunk)
    requires SaneTable(opts) && c.code < 256 && |c.data| < 256 && pos + 2 + |c.data| <= |buf|
    requires buf[pos..pos + 2 + |c.data|] == ChunkWire(c)
    requires Sane(ParamsOf(opts, c.code)) && !ParamsOf(opts, c.code).noLen && LenOk(ParamsOf(opts, c.code), |c.data|)
    ensures Read(opts, buf, pos) == Before(c, Read(opts, buf, pos + 2 + |c.data|))
  {
    hide LenOk, ParamsOf, Sane;
    var w := buf[pos..pos + 2 + |c.data|];
    assert buf[pos] == w[0] && buf[pos + 1] == w[1];
    assert buf[pos + 2..pos + 2 + |c.data|] == w[2..] == c.data;
  }

  lemma {:induction false} ReadData(opts: seq<Params>, code: nat, data: seq<Byte>, pre: seq<Byte>, post: seq<Byte>)
    requires SaneTable(opts) && code < 256 && Sane(ParamsOf(opts, code)) && DataAccepted(opts, code, data)
    ensures var buf := pre + DataWire(code, data) + post;
      Read(opts, buf, |pre|) == AfterChunks(DataPieces(code, data), Read(opts, buf, |pre| + |DataWire(code, data)|))
    decreases |data|
  {
    hide LenOk, ParamsOf, Sane, Read;
    var buf := pre + DataWire(code, data) + post;
    var r := Read(opts, buf, |pre| + |DataWire(code, data)|);
    if data == [] {
      assert [] + r.chunks == r.chunks;
    } else {
      var k := Min(CHUNK, |data|);
      var c := Chunk(code, data[..k]);
      var pre' := pre + ChunkWire(c);
      assert buf == pre' + DataWire(code, data[k..]) + post;
      ReadData(opts, code, data[k..], pre', post);
      assert buf[|pre|..|pre| + 2 + k] == ChunkWire(c);
      ReadChunk(opts, buf, |pre|, c);
      assert [c] + (DataPieces(code, data[k..]) + r.chunks) == [c] + DataPieces(code, data[k..]) + r.chunks;
    }
  }

  /** The same for any option, also for one without data. */
  predicate Accepted(opts: seq<Params>, code: nat, data: seq<Byte>)
    requires Sane(ParamsOf(opts, code))
  {
    if data == [] then !ParamsOf(opts, code).noLen && LenOk(ParamsOf(opts, code), 0) else DataAccepted(opts, code, data)
  }

  lemma ReadOption(opts: seq<Params>, code: nat, data: seq<Byte>, pre: seq<Byte>, post: seq<Byte>)
    requires SaneTable(opts) && code < 256 && Sane(ParamsOf(opts, code)) && Accepted(opts, code, data)
    ensures var buf := pre + OptWire(code, data) + post;
      Read(opts, buf, |pre|) == AfterChunks(Pieces(code, data), Read(opts, buf, |pre| + |OptWire(code, data)|))
  {
    hide LenOk, ParamsOf, Sane, Read, DataAccepted, DataWire, DataPieces;
    if data == [] {
      var buf := pre + [code, 0] + post;
      assert buf[|pre|..|pre| + 2] == [code, 0] == ChunkWire(Chunk(code, []));
      ReadChunk(opts, buf, |pre|, Chunk(code, []));
    } else {
      ReadData(opts, code, data, pre, post);
    }
  }

  ghost predicate AllAccepted(opts: seq<Params>, m: Options)
  {
    SaneTable(opts) && forall c :: c in m ==> Sane(ParamsOf(opts, c)) && Accepted(opts, c, m[c])
  }

  lemma {:induction false} ReadFrom(opts: seq<Params>, m: Options, code: nat, pre: seq<Byte>, post: seq<Byte>)
    requires AllAccepted(opts, m) && Storable(m) && code <= 256
    ensures var buf := pre + WireFrom(m, code) + post;
      Read(opts, buf, |pre|) == AfterChunks(PiecesFrom(m, code), Read(opts, buf, |pre| + |WireFrom(m, code)|))
    decreases 256 - code
  {
    hide Read, Accepted, OptWire, Pieces;
    var buf := pre + WireFrom(m, code) + post;
    var r := Read(opts, buf, |pre| + |WireFrom(m, code)|);
    if code == 256 {
      assert [] + r.chunks == r.chunks;
    } else if code in m {
      var w, rest := OptWire(code, m[code]), WireFrom(m, code + 1);
      assert buf == pre + w + (rest + post) == (pre + w) + rest + post;
      ReadOption(opts, code, m[code], pre, rest + post);
      ReadFrom(opts, m, code + 1, pre + w, post);
      assert Pieces(code, m[code]) + (PiecesFrom(m, code + 1) + r.chunks) == PiecesFrom(m, code) + r.chunks;
    } else {
      assert [] + WireFrom(m, code + 1) == WireFrom(m, code + 1);
      assert [] + PiecesFrom(m, code + 1) == PiecesFrom(m, code + 1);
      ReadFrom(opts, m, code + 1, pre, post);
    }
  }

  /** Reading and joining what was written for accepted options gives back the options. */
  lemma RoundTrip(opts: seq<Params>, m: Options)
    requires AllAccepted(opts, m) && Storable(m)
    ensures Read(opts, WireFrom(m, 0), 0) == Scan(PiecesFrom(m, 0), true)
    ensures Joined(map[], PiecesFrom(m, 0)) == m
  {
    hide Joined, PiecesFrom, Read, WireFrom, Tail, Accepted, Sane, ParamsOf;
    var w := WireFrom(m, 0);
    ReadFrom(opts, m, 0, [], []);
    assert [] + w + [] == w;
    ReadEnd(opts, w);
    assert PiecesFrom(m, 0) + [] == PiecesFrom(m, 0);
    JoinedAll(map[], m, 0);
    TailEnds(map[], m);
  }

  lemma ReadEnd(opts: seq<Params>, w: seq<Byte>)
    requires SaneTable(opts)
    ensures Read(opts, w, |w|) == Scan([], true)
  {}

  // ----- options without data -----

  /** Where the serializer is after one more option: it counts only once it is beyond its buffer of `cap` bytes,
      and before that it writes the header of an option without data whether or not it fits. */
  function Grown(ptr: nat, len: nat, cap: nat): nat { if len == 0 && ptr <= cap then ptr + 2 else ptr + OptSize(len) }

  /** What the serializer reports, from an option on. */
  function GrownFrom(m: Options, code: nat, ptr: nat, cap: nat): nat
    decreases 256 - code
  {
    if code >= 256 then ptr else GrownFrom(m, code + 1, if code in m then Grown(ptr, |m[code]|, cap) else ptr, cap)
  }

  /** Within its buffer the serializer is where the bytes of the lower codes end. */
  predicate Placed(m: Options, code: nat, ptr: nat, cap: nat)
  {
    if ptr <= cap then ptr == Below(m, code) else Below(m, code) > cap
  }

  lemma PlacedNext(m: Options, code: nat, ptr: nat, cap: nat)
    requires Placed(m, code, ptr, cap)
    ensures Placed(m, code + 1, if code in m then Grown(ptr, |m[code]|, cap) else ptr, cap)
  {
    hide OptSize;
  }

  /** The header of the option without data that has this code begins within the buffer. */
  predicate Reached(m: Options, code: nat, cap: nat) { code in m && m[code] == [] && Below(m, code) <= cap }

  /** What is reported is the size rule's sum exactly when no such header is reached. */
  lemma {:induction false} GrownIff(m: Options, code: nat, ptr: nat, cap: nat)
    requires code <= 256 && Placed(m, code, ptr, cap)
    ensures GrownFrom(m, code, ptr, cap) >= ptr + SizeFrom(m, code)
    ensures GrownFrom(m, code, ptr, cap) == ptr + SizeFrom(m, code) <==>
      forall c: nat :: code <= c < 256 ==> !Reached(m, c, cap)
    decreases 256 - code
  {
    hide OptSize, Below, Placed;
    if code < 256 {
      PlacedNext(m, code, ptr, cap);
      GrownStep(m, code, ptr, cap);
      GrownIff(m, code + 1, if code in m then Grown(ptr, |m[code]|, cap) else ptr, cap);
    }
  }

  lemma GrownStep(m: Options, code: nat, ptr: nat, cap: nat)
    requires Placed(m, code, ptr, cap)
    ensures code in m ==> Grown(ptr, |m[code]|, cap) == ptr + OptSize(|m[code]|) + if Reached(m, code, cap) then 2 else 0
  {
    EmptySize();
  }

  lemma EmptySize()
    ensures OptSize(0) == 0
  {}

  /** The count is the sum of the size rule for every buffer size exactly when no option is without data. */
  lemma CountedIff(m: Options)
    requires Storable(m)
    ensures (forall cap: nat :: GrownFrom(m, 0, 0, cap) == SizeFrom(m, 0)) <==> forall c :: c in m ==> m[c] != []
  {
    hide GrownFrom, SizeFrom, Below;
    forall cap: nat
      ensures GrownFrom(m, 0, 0, cap) == SizeFrom(m, 0) <==> forall c: nat :: c < 256 ==> !Reached(m, c, cap)
    {
      FirstPlaced(m, cap);
      GrownIff(m, 0, 0, cap);
    }
    if c :| c in m && m[c] == [] {
      assert Reached(m, c, Below(m, c));
      assert GrownFrom(m, 0, 0, Below(m, c)) != SizeFrom(m, 0);
    }
  }

  lemma FirstPlaced(m: Options, cap: nat)
    ensures Placed(m, 0, 0, cap)
  {}

  /** The header of the option without data that has this code is not written, or it fits. */
  predicate HeaderFits(m: Options, code: nat, cap: nat)
  {
    Reached(m, code, cap) ==> Below(m, code) + 2 <= cap
  }

  /** No byte is written beyond the buffer. */
  ghost predicate Inside(m: Options, cap: nat) { forall c: nat :: c < 256 ==> HeaderFits(m, c, cap) }

  /** The count is within the buffer exactly when all bytes fit it, and then none is written beyond it. */
  lemma FitsIff(m: Options, cap: nat)
    ensures GrownFrom(m, 0, 0, cap) <= cap <==> |WireFrom(m, 0)| <= cap
    ensures |WireFrom(m, 0)| <= cap ==> GrownFrom(m, 0, 0, cap) == |WireFrom(m, 0)| && Inside(m, cap)
  {
    hide GrownFrom, Below, WireFrom, WireSize, OptSize;
    FirstPlaced(m, cap);
    PlacedLast(m, 0, 0, cap);
    WireFromSize(m, 256);
    NoWire(m);
    if |WireFrom(m, 0)| <= cap {
      forall c: nat | c < 256 ensures HeaderFits(m, c, cap) { BelowNext(m, c); }
    }
  }

  lemma NoWire(m: Options)
    ensures WireFrom(m, 256) == []
  {}

  lemma BelowNext(m: Options, code: nat)
    requires code < 256
    ensures code in m && m[code] == [] ==> Below(m, code) + 2 <= |WireFrom(m, 0)|
  {
    hide WireFrom;
    WireFromSize(m, code + 1);
  }

  lemma {:induction false} PlacedLast(m: Options, code: nat, ptr: nat, cap: nat)
    requires code <= 256 && Placed(m, code, ptr, cap)
    ensures Placed(m, 256, GrownFrom(m, code, ptr, cap), cap)
    decreases 256 - code
  {
    hide Placed, Grown;
    if code < 256 {
      PlacedNext(m, code, ptr, cap);
      PlacedLast(m, code + 1, if code in m then Grown(ptr, |m[code]|, cap) else ptr, cap);
    }
  }

  /** Rapid Commit, option 80, has type NONE: it is read without data, counted as nothing, reported as two bytes
      whatever the buffer, and written beyond one of less than two. */
  lemma RapidCommit(opts: seq<Params>, cap: nat)
    requires SaneTable(opts) && |opts| > 80 && opts[80] == Params(0, 0, false, false, false, false)
    ensures Read(opts, [80, 0], 0) == Scan([Chunk(80, [])], true)
    ensures var m := map[80 := []];
      && Joined(map[], [Chunk(80, [])]) == m && Accepted(opts, 80, [])
      && SizeFrom(m, 0) == 0 && GrownFrom(m, 0, 0, cap) == 2 && (Inside(m, cap) <==> cap >= 2)
  {
    hide GrownFrom, SizeFrom, Below, Grown;
    var m: Options := map[80 := []];
    ReadChunk(opts, [80, 0], 0, Chunk(80, []));
    assert [Chunk(80, [])][1..] == [];
    OnlyOption(m, 80, cap);
    assert Inside(m, cap) ==> HeaderFits(m, 80, cap);
  }

  /** One option without data. */
  lemma OnlyOption(m: Options, code: nat, cap: nat)
    requires code < 256 && m == map[code := []]
    ensures SizeFrom(m, 0) == 0 && GrownFrom(m, 0, 0, cap) == 2 && Below(m, code) == 0
  {
    hide OptSize, WireSize;
    EmptySize();
    SizeAlone(m, code, 0);
    GrownAlone(m, code, 0, 0, cap);
    BelowAlone(m, code, code);
  }

  lemma {:induction false} SizeAlone(m: Options, code: nat, from: nat)
    requires code < 256 && m == map[code := []] && from <= 256
    ensures SizeFrom(m, from) == 0
    decreases 256 - from
  {
    hide OptSize;
    EmptySize();
    if from < 256 { SizeAlone(m, code, from + 1); }
  }

  lemma {:induction false} GrownAlone(m: Options, code: nat, from: nat, ptr: nat, cap: nat)
    requires code < 256 && m == map[code := []] && from <= 256 && ptr == if from <= code then 0 else 2
    ensures GrownFrom(m, from, ptr, cap) == 2
    decreases 256 - from
  {
    hide OptSize;
    if from < 256 { GrownAlone(m, code, from + 1, if from < code then 0 else 2, cap); }
  }

  lemma {:induction false} BelowAlone(m: Options, code: nat, k: nat)
    requires k <= code < 256 && m == map[code := []]
    ensures Below(m, k) == 0
  {
    if k > 0 { BelowAlone(m, code, k - 1); }
  }
}
