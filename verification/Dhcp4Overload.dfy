/** Option overload of DHCPv4 (option 52, section 9.3 of RFC 2132) from the bytes of a packet: where options are looked
    for, and in which order they are joined. */
module Dhcp4Overload {
  import opened Common
  import opened Dhcp4Wire
  import opened Dhcp4Packet

  /** Bytes that the reader passes over: options without a length byte, up to the end of the buffer or to one of type
      END with anything behind it. */
  ghost predicate Filler(opts: seq<Params>, s: seq<Byte>)
  {
    exists k :: FillerTo(opts, s, k)
  }

  predicate FillerTo(opts: seq<Params>, s: seq<Byte>, k: nat)
  {
    && k <= |s|
    && (forall i :: 0 <= i < k ==> ParamsOf(opts, s[i]).noLen && ParamsOf(opts, s[i]).typ != T_END)
    && (k < |s| ==> ParamsOf(opts, s[k]).noLen && ParamsOf(opts, s[k]).typ == T_END)
  }

  lemma {:induction false} FillerRead(opts: seq<Params>, pre: seq<Byte>, s: seq<Byte>, i: nat, k: nat)
    requires SaneTable(opts) && FillerTo(opts, s, k) && i <= k
    ensures Read(opts, pre + s, |pre| + i) == Scan([], true)
    decreases k - i
  {
    hide ParamsOf, LenOk;
    if i < |s| { assert (pre + s)[|pre| + i] == s[i]; }
    if i < k { FillerRead(opts, pre, s, i + 1, k); }
  }

  /** The written form of m, with filler behind it. */
  ghost predicate Holds(opts: seq<Params>, m: Options, part: seq<Byte>)
  {
    AllAccepted(opts, m) && Storable(m) && exists t :: part == WireFrom(m, 0) + t && Filler(opts, t)
  }

  lemma PartRead(opts: seq<Params>, m: Options, part: seq<Byte>)
    requires Holds(opts, m, part)
    ensures Read(opts, part, 0) == Scan(PiecesFrom(m, 0), true)
  {
    hide Read, PiecesFrom, WireFrom, AllAccepted, Storable;
    var t :| part == WireFrom(m, 0) + t && Filler(opts, t);
    var k :| FillerTo(opts, t, k);
    TableOf(opts, m);
    FillerRead(opts, WireFrom(m, 0), t, 0, k);
    ReadFrom(opts, m, 0, [], t);
    assert [] + WireFrom(m, 0) + t == part;
    assert PiecesFrom(m, 0) + [] == PiecesFrom(m, 0);
  }

  lemma TableOf(opts: seq<Params>, m: Options)
    requires AllAccepted(opts, m)
    ensures SaneTable(opts)
  {}

  /** No option in a short field is longer than the field. */
  lemma {:induction false} Short(m: Options, code: nat, c: nat)
    requires Storable(m) && code <= c && c in m
    ensures |m[c]| <= |WireFrom(m, code)|
    decreases c - code
  {
    hide OptWire;
    if code < c {
      Short(m, code + 1, c);
    } else {
      OptWireSize(c, m[c]);
      LeastSize(|m[c]|);
    }
  }

  lemma LeastSize(len: nat)
    ensures WireSize(len) >= len
  {}

  /** Joining the short options of m1 appends each to what is there. */
  lemma {:induction false} JoinedShort(m: Options, m1: Options, code: nat)
    requires Storable(m1) && code <= 256 && forall c :: c in m1 ==> |m1[c]| <= 255
    ensures
      var r := Joined(m, PiecesFrom(m1, code));
      forall c ::
        && (c in r <==> c in m || (c in m1 && code <= c))
        && (c in r ==> r[c] == if c in m1 && code <= c then Kept(DataOf(m, c) + m1[c]) else m[c])
    decreases 256 - code
  {
    hide Joined, Kept, Pieces;
    if code == 256 {
      JoinedNone(m);
    } else if code in m1 {
      JoinedAppend(m, Pieces(code, m1[code]), PiecesFrom(m1, code + 1));
      ShortPiece(m, code, m1[code]);
      JoinedShort(Put(m, code, m1[code]), m1, code + 1);
    } else {
      assert [] + PiecesFrom(m1, code + 1) == PiecesFrom(m1, code + 1);
      JoinedShort(m, m1, code + 1);
    }
  }

  lemma ShortPiece(m: Options, code: nat, data: seq<Byte>)
    requires |data| <= 255
    ensures Joined(m, Pieces(code, data)) == Put(m, code, data)
  {
    hide Put;
    assert data[..|data|] == data && data[|data|..] == [];
    assert DataPieces(code, []) == [];
    assert Pieces(code, data) == [Chunk(code, data)];
    assert [Chunk(code, data)][1..] == [];
  }

  /** One field: looked at or not, and what it holds. */
  ghost predicate Added(m: Options, m1: Options, wanted: bool, r: Options)
  {
    forall c ::
      && (c in r <==> c in m || (wanted && c in m1))
      && (c in r ==> r[c] == if wanted && c in m1 then Kept(DataOf(m, c) + m1[c]) else m[c])
  }

  lemma SectionRead(opts: seq<Params>, msg: Message, m1: Options, part: seq<Byte>, wanted: bool)
    requires SaneTable(opts) && msg.Message? && |part| <= 255 && (wanted ==> Holds(opts, m1, part))
    ensures
      var r := Section(opts, msg, part, wanted);
      r.Message? && r.overload == msg.overload && Added(msg.options, m1, wanted, r.options)
  {
    hide Read, PiecesFrom, WireFrom, AllAccepted, Joined, Kept;
    if wanted {
      PartRead(opts, m1, part);
      forall c | c in m1 ensures |m1[c]| <= 255 { Short(m1, 0, c); }
      JoinedShort(msg.options, m1, 0);
    }
  }

  lemma MainRead(opts: seq<Params>, m: Options, buf: seq<Byte>)
    requires |buf| >= 240 && SaneTable(opts) && Holds(opts, m, buf[240..])
    ensures MainPart(opts, buf) == Message(m - {52}, if 52 in m && m[52] != [] then m[52][0] else 0)
  {
    hide Read, PiecesFrom, WireFrom, Joined, Holds, Accepted;
    PartRead(opts, m, buf[240..]);
    HoldsAccepted(opts, m, buf[240..]);
    RoundTrip(opts, m);
  }

  lemma HoldsAccepted(opts: seq<Params>, m: Options, part: seq<Byte>)
    requires Holds(opts, m, part)
    ensures AllAccepted(opts, m) && Storable(m)
  {}

  /** A packet whose option area holds the options m, and whose `file` (bytes 108 to 236) and `sname` (bytes 44 to 108)
      hold m1 and m2 where option 52 says so: bit 0 of its first byte stands for `file`, bit 1 for `sname`. The packet
      has the options of all three, option 52 of m left out, with data of the same code joined in that order and
      cut to 16-bit lengths. */
  lemma OverloadRead(opts: seq<Params>, buf: seq<Byte>, m: Options, m1: Options, m2: Options, f: Byte)
    requires SaneTable(opts) && |buf| >= 240
    requires f == if 52 in m && m[52] != [] then m[52][0] else 0
    requires Holds(opts, m, buf[240..])
    requires f % 2 == 1 ==> Holds(opts, m1, buf[108..236])
    requires f / 2 % 2 == 1 ==> Holds(opts, m2, buf[44..108])
    ensures
      var r := PacketOptions(opts, buf);
      && r.Message? && r.overload == f
      && forall c: nat ::
           var main := if c in m && c != 52 then m[c] else [];
           var file := if f % 2 == 1 && c in m1 then m1[c] else [];
           var sname := if f / 2 % 2 == 1 && c in m2 then m2[c] else [];
           && (c in r.options <==> (c in m && c != 52) || (f % 2 == 1 && c in m1) || (f / 2 % 2 == 1 && c in m2))
           && (c in r.options ==> r.options[c] == Kept(Kept(main + file) + sname))
  {
    hide Holds, MainPart, Section, SaneTable, Kept, Added;
    MainRead(opts, m, buf);
    HoldsAccepted(opts, m, buf[240..]);
    var main := MainPart(opts, buf);
    SectionRead(opts, main, m1, buf[108..236], f % 2 == 1);
    var withFile := Section(opts, main, buf[108..236], f % 2 == 1);
    SectionRead(opts, withFile, m2, buf[44..108], f / 2 % 2 == 1);
    AddedKept(main.options, m1, f % 2 == 1, withFile.options);
    AddedKept(withFile.options, m2, f / 2 % 2 == 1, PacketOptions(opts, buf).options);
    KeptNothing();
  }

  lemma KeptNothing()
    ensures Kept([] + []) == []
  {}

  lemma AddedKept(m: Options, n: Options, wanted: bool, r: Options)
    requires Added(m, n, wanted, r) && forall c :: c in m ==> |m[c]| < 65536
    ensures forall c :: c in r <==> c in m || (wanted && c in n)
    ensures forall c :: c in r ==> |r[c]| < 65536
    ensures forall c :: c in r ==> r[c] == Kept(DataOf(m, c) + if wanted && c in n then n[c] else [])
  {
    hide Kept;
    forall c | c in r
      ensures |r[c]| < 65536 && r[c] == Kept(DataOf(m, c) + if wanted && c in n then n[c] else [])
    {
      assert DataOf(m, c) + [] == DataOf(m, c);
    }
  }

  /** Options of both; those with the same code are appended. */
  function Merged(m: Options, n: Options): Options
  {
    map c | c in m.Keys + n.Keys :: DataOf(m, c) + DataOf(n, c)
  }

  /** What is held is not longer than the field. */
  lemma HeldShort(opts: seq<Params>, m: Options, part: seq<Byte>)
    requires Holds(opts, m, part)
    ensures forall c :: c in m ==> |m[c]| <= |part|
  {
    hide WireFrom, AllAccepted, Filler;
    forall c | c in m ensures |m[c]| <= |part| { Short(m, 0, c); }
  }

  /** The four values of option 52 in a packet of any size a datagram can have. */
  lemma FourOverloads(opts: seq<Params>, buf: seq<Byte>, m: Options, m1: Options, m2: Options, f: Byte)
    requires SaneTable(opts) && 240 <= |buf| < 65536 && f < 4 && 52 !in m && 52 !in m1 && 52 !in m2
    requires Holds(opts, m[52 := [f]], buf[240..])
    requires f in {1, 3} ==> Holds(opts, m1, buf[108..236])
    requires f in {2, 3} ==> Holds(opts, m2, buf[44..108])
    ensures
      var r := PacketOptions(opts, buf);
      && r.Message? && r.overload == f && 52 !in r.options
      && r.options == (if f == 0 then m else if f == 1 then Merged(m, m1) else if f == 2 then Merged(m, m2)
                       else Merged(Merged(m, m1), m2))
  {
    hide Holds, MainPart, Section, SaneTable, Merged, Added;
    var mm := m[52 := [f]];
    MainRead(opts, mm, buf);
    var main := MainPart(opts, buf);
    assert mm - {52} == m;
    HeldShort(opts, mm, buf[240..]);
    assert forall c :: c in m ==> m[c] == mm[c];
    var withFile := Section(opts, main, buf[108..236], f % 2 == 1);
    SectionRead(opts, main, m1, buf[108..236], f % 2 == 1);
    if f % 2 == 1 { HeldShort(opts, m1, buf[108..236]); }
    AddedIs(m, m1, f % 2 == 1, withFile.options, |buf| - 240, 128);
    SectionRead(opts, withFile, m2, buf[44..108], f / 2 % 2 == 1);
    if f / 2 % 2 == 1 { HeldShort(opts, m2, buf[44..108]); }
    AddedIs(withFile.options, m2, f / 2 % 2 == 1, PacketOptions(opts, buf).options, |buf| - 112, 64);
  }

  lemma AddedIs(m: Options, n: Options, wanted: bool, r: Options, a: nat, b: nat)
    requires Added(m, n, wanted, r) && a + b < 65536
    requires forall c :: c in m ==> |m[c]| <= a
    requires wanted ==> forall c :: c in n ==> |n[c]| <= b
    ensures r == if wanted then Merged(m, n) else m
    ensures forall c :: c in r ==> |r[c]| <= a + b
    ensures 52 in r ==> 52 in m || (wanted && 52 in n)
  {
    hide Kept;
    if wanted {
      var e := Merged(m, n);
      forall c: nat ensures c in r <==> c in e {}
      forall c: nat | c in r ensures r[c] == e[c] && |r[c]| <= a + b { assert c !in n ==> m[c] + [] == m[c]; }
      assert r == e;
    }
  }

  /** Exactly when a packet with a right header is refused: its option area, or a field that is asked for, cannot be
      read to its end. */
  lemma RefusedIff(opts: seq<Params>, buf: seq<Byte>)
    requires SaneTable(opts) && |buf| >= 240
    ensures
      var main := Read(opts, buf[240..], 0);
      var m := Joined(map[], main.chunks);
      var f := if 52 in m && m[52] != [] then m[52][0] else 0;
      PacketOptions(opts, buf).Malformed? <==>
        || !main.ok
        || (f % 2 == 1 && !Read(opts, buf[108..236], 0).ok)
        || (f / 2 % 2 == 1 && !Read(opts, buf[44..108], 0).ok)
  {
    hide Read, Joined, SaneTable;
  }
}
