/** Building, signing and verifying RADIUS packets in place: radius_pkt_init, radius_pkt_attr_add,
    radius_pkt_sign and radius_pkt_verify of include/proto/radius.h. */
module Radius {
  import opened Common
  import opened RadiusPassword
  import opened RadiusWire
  import opened RadiusPackets
  import opened RadiusProofs

  /** The buffer holds a packet of the length in its header. */
  ghost predicate Packed(buf: array<Byte>)
    reads buf
  {
    buf.Length >= HDR_SIZE && HDR_SIZE <= LenOf(buf[..]) <= buf.Length
  }

  ghost function Pkt(buf: array<Byte>): (r: seq<Byte>)
    requires Packed(buf)
    reads buf
    ensures |r| == LenOf(buf[..]) >= HDR_SIZE
  {
    buf[..LenOf(buf[..])]
  }

  /** A buffer that starts with a packet. */
  lemma PktIs(buf: array<Byte>, pkt: seq<Byte>)
    requires Framed(pkt) && |pkt| <= buf.Length && buf[..|pkt|] == pkt
    ensures Packed(buf) && Pkt(buf) == pkt
  {
    assert buf[2] == pkt[2] && buf[3] == pkt[3];
  }

  lemma PktFramed(buf: array<Byte>)
    requires Packed(buf)
    ensures Framed(Pkt(buf)) && |Pkt(buf)| <= buf.Length && |Pkt(buf)| < 65536
  {
    assert Pkt(buf)[2] == buf[2] && Pkt(buf)[3] == buf[3];
  }

  /** A step that keeps the length. */
  lemma SpliceFramed(pkt: seq<Byte>, at: nat, data: seq<Byte>)
    requires Framed(pkt) && 4 <= at && at + |data| <= |pkt|
    ensures Framed(Splice(pkt, at, data))
  {}

  lemma AppendedFramed(pkt: seq<Byte>, typ: Byte, data: seq<Byte>)
    requires |pkt| >= HDR_SIZE && |data| <= 253 && |pkt| + 2 + |data| < 65536
    ensures Framed(Appended(pkt, typ, data))
  {}

  // ----- init -----

  /** radius_pkt_init. */
  method PktInit(buf: array<Byte>, bufSize: nat, code: Byte, id: Byte, start: Start) returns (status: Status)
    requires bufSize <= buf.Length && (start.Auth? ==> |start.auth| == HASH_SIZE)
    modifies buf
    ensures status == if HDR_SIZE > bufSize then EOVERFLOW else if InitAuth(code, start).Err? then EINVAL else Ok
    ensures status == Ok ==> Packed(buf) && Ready(Packet(code, id, InitAuth(code, start).data, []))
    ensures status == Ok ==> Pkt(buf) == Packet(code, id, InitAuth(code, start).data, []).Wire()
  {
    if HDR_SIZE > bufSize { return EOVERFLOW; }
    if Zeroed(code) || (code == ACCOUNTING_RESPONSE && start.NoAuth?) {
      forall k | 0 <= k < HASH_SIZE { buf[4 + k] := 0; }
    } else if Known(code) {
      if start.NoAuth? { return EINVAL; }
      forall k | 0 <= k < HASH_SIZE { buf[4 + k] := start.auth[k]; }
    } else {
      return EINVAL;
    }
    buf[0], buf[1], buf[2], buf[3] := code, id, 0, HDR_SIZE;
    ghost var p := Packet(code, id, InitAuth(code, start).data, []);
    assert p.Head() == [code, id, 0, HDR_SIZE];
    assert buf[..HDR_SIZE] == p.Head() + p.auth + [] == p.Wire();
    WireParts(p);
    PktIs(buf, p.Wire());
    return Ok;
  }

  /** radius_pkt_reply_init. */
  method ReplyInit(buf: array<Byte>, bufSize: nat, code: Byte, reqId: Byte, req: Req) returns (status: Status)
    requires bufSize <= buf.Length && req.Valid()
    modifies buf
    ensures status ==
      if req.NoReq? then EINVAL else if HDR_SIZE > bufSize then EOVERFLOW else if Known(code) then Ok else EINVAL
    ensures status == Ok ==> req.Req? && InitAuth(code, Auth(req.auth)).Sum?
    ensures status == Ok ==>
      var p := Packet(code, reqId, InitAuth(code, Auth(req.auth)).data, []);
      Packed(buf) && Ready(p) && Pkt(buf) == p.Wire() && Matches(p, req)
  {
    if req.NoReq? { return EINVAL; }
    status := PktInit(buf, bufSize, code, reqId, Auth(req.auth));
  }

  // ----- attributes -----

  /** radius_pkt_attr_find_raw, from the attribute at `off` or, for zero, from the first one. At the last byte of
      the packet and behind it the length byte that is looked at lies outside; `outside` is that unknown byte. */
  method AttrFind(buf: array<Byte>, off: nat, typ: Byte) returns (r: Search)
    requires Packed(buf)
    ensures off == 0 ==> r == Find(Pkt(buf), HDR_SIZE, typ)
    ensures 0 < off < HDR_SIZE || off > |Pkt(buf)| ==> r == BadOffset
    ensures HDR_SIZE <= off && off + 2 <= |Pkt(buf)| ==>
      r == if off + Pkt(buf)[off + 1] > |Pkt(buf)| then BadOffset else Find(Pkt(buf), off, typ)
    ensures off + 2 > |Pkt(buf)| ==> !r.Found?
  {
    var end := LenOf(buf[..]);
    ghost var pkt := Pkt(buf);
    PktFramed(buf);
    var pos: nat := HDR_SIZE;
    if off != 0 {
      if off < HDR_SIZE || off > end { return BadOffset; }
      var outside: Byte := *;
      var len := if off + 2 <= end then buf[off + 1] else outside;
      if off + len > end { return BadOffset; }
      pos := off;
    }
    ghost var start := pos;
    while pos != end
      invariant HDR_SIZE <= start <= pos <= end && Find(pkt, start, typ) == Find(pkt, pos, typ)
    {
      if end - pos < 2 { return BadAttr; }
      if end - pos < buf[pos + 1] { return BadAttr; }
      if buf[pos] == 0 || buf[pos + 1] < 2 { return BadAttr; }
      if buf[pos] == typ { return Found(pos); }
      pos := pos + buf[pos + 1];
    }
    return NoAttr;
  }

  /** radius_pkt_attr_alloc_raw and the copy of the data. */
  method AttrAddRaw(buf: array<Byte>, bufSize: nat, typ: Byte, data: seq<Byte>) returns (status: Status)
    requires Packed(buf) && bufSize <= buf.Length && bufSize < 65536 && |data| < 256
    modifies buf
    ensures Packed(buf) && Result(status, Pkt(buf)) == old(AttrAppended(Pkt(buf), bufSize, typ, data))
  {
    if |data| > 253 { return EINVAL; }
    var pktSize := LenOf(buf[..]);
    var newSize := pktSize + 2 + |data|;
    if newSize > bufSize { return EOVERFLOW; }
    ghost var pkt := Pkt(buf);
    buf[pktSize], buf[pktSize + 1] := typ, |data| + 2;
    buf[2], buf[3] := newSize / 256, newSize % 256;
    forall k | 0 <= k < |data| { buf[pktSize + 2 + k] := data[k]; }
    AppendedFramed(pkt, typ, data);
    assert buf[..newSize] == Appended(pkt, typ, data);
    PktIs(buf, Appended(pkt, typ, data));
    return Ok;
  }

  /** radius_pkt_attr_add. */
  method AttrAdd(buf: array<Byte>, bufSize: nat, typ: Byte, data: seq<Byte>, prm: Param) returns (status: Status)
    requires Packed(buf) && bufSize <= buf.Length && bufSize < 65536 && |data| < 256
    modifies buf
    ensures Packed(buf) && Result(status, Pkt(buf)) == old(AttrAdded(Pkt(buf), bufSize, typ, data, prm))
    ensures typ == USER_PASSWORD ==> status != Ok
  {
    hide Find, LenOk, Appended;
    if typ == 0 { return EINVAL; }
    if typ == USER_PASSWORD {
      if PASSWORD_MAX < |data| { return EINVAL; }
      var r := AttrFind(buf, 0, typ);
      if !r.NoAttr? { return if r.Found? then EEXIST else EBADMSG; }
      r := AttrFind(buf, 0, CHAP_PASSWORD);
      if !r.NoAttr? { return if r.Found? then EEXIST else EBADMSG; }
      var size: nat;
      AlignedIs(|data|);
      status, size := SizeOfPassword(data);
      return status;
    }
    if typ == MSG_AUTHENTIC {
      status := MsgAuthAdd(buf, bufSize);
      return;
    }
    if !LenOk(prm, typ, |data|) { return EINVAL; }
    status := AttrAddRaw(buf, bufSize, typ, data);
  }

  /** The size query of radius_pkt_attr_add: the encoder is given no room. */
  method SizeOfPassword(data: seq<Byte>) returns (status: Status, size: nat)
    requires |data| <= PASSWORD_MAX
    ensures status == EOVERFLOW && size == Aligned(|data|)
  {
    AlignedIs(|data|);
    var nothing := new Byte[0];
    status, size := PasswordEncode(Witness(), [], data, [], nothing, 0, 0);
  }

  /** The Message-Authenticator of radius_pkt_attr_add. */
  method MsgAuthAdd(buf: array<Byte>, bufSize: nat) returns (status: Status)
    requires Packed(buf) && bufSize <= buf.Length && bufSize < 65536
    modifies buf
    ensures Packed(buf) && Result(status, Pkt(buf)) == old(MsgAuthAdded(Pkt(buf), bufSize))
  {
    hide Find, Appended;
    var r := AttrFind(buf, 0, MSG_AUTHENTIC);
    if !r.NoAttr? { return if r.Found? then EEXIST else EBADMSG; }
    status := AttrAddRaw(buf, bufSize, MSG_AUTHENTIC, Zeros(HASH_SIZE));
  }

  // ----- signing -----

  /** Bytes of the packet are replaced. */
  method Write(buf: array<Byte>, at: nat, data: seq<Byte>)
    requires Packed(buf) && 4 <= at && at + |data| <= |Pkt(buf)|
    modifies buf
    ensures Packed(buf) && Pkt(buf) == old(Splice(Pkt(buf), at, data))
  {
    ghost var pkt := Pkt(buf);
    PktFramed(buf);
    SpliceFramed(pkt, at, data);
    forall k | 0 <= k < |data| { buf[at + k] := data[k]; }
    assert buf[..|pkt|] == Splice(pkt, at, data);
    PktIs(buf, Splice(pkt, at, data));
  }

  /** radius_pkt_attr_msg_authenticator_calc: the pieces fed to the keyed hash. */
  method MsgAuthCalc(h: Hash, buf: array<Byte>, off: nat, key: seq<Byte>, inside: bool, req: Req) returns (r: Sum)
    requires Packed(buf) && AttrAt(Pkt(buf), off)
    ensures r == MsgAuth(h, Pkt(buf), off, key, inside, req)
  {
    var end := LenOf(buf[..]);
    if 2 + HASH_SIZE != buf[off + 1] { return Err(EBADMSG); }
    var ctx := buf[..4];
    var part := AuthenticatorPart(buf, inside, req);
    if part.Err? { return part; }
    ctx := ctx + part.data;
    ctx := ctx + buf[HDR_SIZE..off + 2];
    ctx := ctx + Zeros(HASH_SIZE);
    ctx := ctx + buf[off + 2 + HASH_SIZE..end];
    PktSlices(buf, off);
    return Sum(Hmac(h, key, ctx));
  }

  lemma PktSlices(buf: array<Byte>, off: nat)
    requires Packed(buf) && HDR_SIZE <= off && off + 2 + HASH_SIZE <= |Pkt(buf)|
    ensures var pkt := Pkt(buf);
      && pkt[..4] == buf[..4] && pkt[HDR_SIZE..off + 2] == buf[HDR_SIZE..off + 2]
      && pkt[off + 2 + HASH_SIZE..] == buf[off + 2 + HASH_SIZE..|pkt|]
  {}

  method AuthenticatorPart(buf: array<Byte>, inside: bool, req: Req) returns (r: Sum)
    requires Packed(buf)
    ensures r == MsgAuthPart(Pkt(buf), inside, req)
  {
    assert Pkt(buf)[0] == buf[0] && Pkt(buf)[4..HDR_SIZE] == buf[4..HDR_SIZE];
    var code := buf[0];
    if inside || Random(code) { return Sum(buf[4..HDR_SIZE]); }
    if code == ACCOUNTING_RESPONSE && req.Req? && req.code == STATUS_SERVER { return Sum(req.auth); }
    if code == ACCOUNTING_RESPONSE || Zeroed(code) { return Sum(Zeros(HASH_SIZE)); }
    if Reply(code) {
      if req.NoReq? { return Err(EINVAL); }
      return Sum(req.auth);
    }
    return Err(EBADMSG);
  }

  /** radius_pkt_authenticator_calc. */
  method AuthenticatorCalc(h: Hash, buf: array<Byte>, key: seq<Byte>, inside: bool, req: Req) returns (r: Sum)
    requires Packed(buf)
    ensures r == AuthCalc(h, Pkt(buf), key, inside, req)
  {
    ghost var pkt := Pkt(buf);
    var end := LenOf(buf[..]);
    assert pkt[0] == buf[0] && pkt[4..HDR_SIZE] == buf[4..HDR_SIZE];
    assert pkt[..4] == buf[..4] && pkt[HDR_SIZE..] == buf[HDR_SIZE..end];
    var code := buf[0];
    if Random(code) { return Sum(buf[4..HDR_SIZE]); }
    if inside { return Sum(Md5(h, buf[..end] + key)); }
    if Zeroed(code) { return Sum(Md5(h, buf[..4] + Zeros(HASH_SIZE) + buf[HDR_SIZE..end] + key)); }
    if Reply(code) || code == ACCOUNTING_RESPONSE {
      if req.NoReq? { return Err(EINVAL); }
      return Sum(Md5(h, buf[..4] + req.auth + buf[HDR_SIZE..end] + key));
    }
    return Err(EINVAL);
  }

  /** The first step of radius_pkt_sign. */
  method SignPassword(h: Hash, buf: array<Byte>, key: seq<Byte>) returns (status: Status)
    requires Sized(h) && Packed(buf)
    modifies buf
    ensures Packed(buf) && Result(status, Pkt(buf)) == old(PasswordHidden(h, Pkt(buf), key))
  {
    hide Find, Hidden, Sized, Splice, Xor, BlockOf, Aligned, Padded, Md5, PasswordHidden;
    ghost var pkt := Pkt(buf);
    PasswordHiddenIs(h, pkt, key);
    var at := AttrFind(buf, 0, USER_PASSWORD);
    if !at.Found? { return Ok; }
    PktFramed(buf);
    var off, len := at.off, buf[at.off + 1] as int - 2;
    var password := buf[off + 2..off + 2 + len];
    assert password == AttrData(pkt, off) && buf[4..HDR_SIZE] == Authenticator(pkt);
    AlignedIs(len);
    var size: nat;
    status, size := PasswordEncode(h, buf[4..HDR_SIZE], password, key, buf, off + 2, len);
    if status == Ok {
      WholeBlocks(password);
      Replaced(buf[..], pkt, off + 2, Hidden(h, Authenticator(pkt), password, key));
      PktIs(buf, Splice(pkt, off + 2, Hidden(h, Authenticator(pkt), password, key)));
    }
  }

  /** The answers of the step. */
  lemma PasswordHiddenIs(h: Hash, pkt: seq<Byte>, key: seq<Byte>)
    requires Sized(h) && |pkt| >= HDR_SIZE
    ensures
      var at, r := Find(pkt, HDR_SIZE, USER_PASSWORD), PasswordHidden(h, pkt, key);
      && (!at.Found? ==> r == Result(Ok, pkt))
      && (at.Found? ==>
            var d := AttrData(pkt, at.off);
            && (|d| > PASSWORD_MAX ==> r == Result(EINVAL, pkt))
            && (|d| <= PASSWORD_MAX && Aligned(|d|) > |d| ==> r == Result(EOVERFLOW, pkt))
            && (|d| <= PASSWORD_MAX && Aligned(|d|) <= |d| ==>
                  |d| % HASH_SIZE == 0 && r == Result(Ok, Splice(pkt, at.off + 2, Hidden(h, Authenticator(pkt), d, key)))))
  {
    hide Find, Hidden, Sized, Splice, Aligned;
    var at := Find(pkt, HDR_SIZE, USER_PASSWORD);
    if at.Found? { AlignedIs(|AttrData(pkt, at.off)|); }
  }

  lemma PasswordRevealedIs(h: Hash, pkt: seq<Byte>, key: seq<Byte>)
    requires Sized(h) && |pkt| >= HDR_SIZE
    ensures
      var at, r := Find(pkt, HDR_SIZE, USER_PASSWORD), PasswordRevealed(h, pkt, key);
      && (!at.Found? ==> r == Result(Ok, pkt))
      && (at.Found? ==>
            var d := AttrData(pkt, at.off);
            && (0 < |d| <= PASSWORD_MAX && |d| % HASH_SIZE == 0 ==>
                  r == Result(Ok, Splice(pkt, at.off + 2, Revealed(h, Authenticator(pkt), d, key))))
            && (!(0 < |d| <= PASSWORD_MAX && |d| % HASH_SIZE == 0) ==> r == Result(EINVAL, pkt)))
  {
    hide Find, Revealed, Sized, Splice;
  }

  lemma WholeBlocks(password: seq<Byte>)
    requires Aligned(|password|) <= |password|
    ensures Padded(password) == password && |password| % HASH_SIZE == 0
  {
    AlignedIs(|password|);
  }

  /** Only the bytes of `data` differ from the packet. */
  lemma Replaced(s: seq<Byte>, pkt: seq<Byte>, at: nat, data: seq<Byte>)
    requires Framed(pkt) && |pkt| <= |s| && 4 <= at && at + |data| <= |pkt| && s[at..at + |data|] == data
    requires forall k :: 0 <= k < |pkt| && (k < at || at + |data| <= k) ==> s[k] == pkt[k]
    ensures s[..|pkt|] == Splice(pkt, at, data) && Framed(Splice(pkt, at, data))
  {}

  /** radius_pkt_attr_msg_authenticator_update of the attribute at off. */
  method MsgAuthUpdate(h: Hash, buf: array<Byte>, off: nat, key: seq<Byte>) returns (status: Status)
    requires Sized(h) && Packed(buf) && AttrAt(Pkt(buf), off)
    modifies buf
    ensures Packed(buf) && Result(status, Pkt(buf)) == old(MsgAuthUpdated(h, Pkt(buf), off, key))
  {
    hide Sized, Splice, Hmac;
    var sum := MsgAuthCalc(h, buf, off, key, true, NoReq);
    if sum.Err? { return sum.status; }
    MsgAuthSize(h, Pkt(buf), off, key, true, NoReq);
    Write(buf, off + 2, sum.data);
    status := Ok;
  }

  /** The Message-Authenticator step of radius_pkt_sign. */
  method SignMsgAuthenticator(h: Hash, buf: array<Byte>, bufSize: nat, key: seq<Byte>, add: bool) returns (status: Status)
    requires Sized(h) && Packed(buf) && bufSize <= buf.Length && bufSize < 65536
    modifies buf
    ensures Packed(buf) && Result(status, Pkt(buf)) == old(MsgAuthSigned(h, Pkt(buf), bufSize, key, add))
  {
    hide Sized, Find, MsgAuthUpdated;
    if add {
      var off := LenOf(buf[..]);
      AppendedAttr(Pkt(buf), MSG_AUTHENTIC, Zeros(HASH_SIZE));
      status := MsgAuthAdd(buf, bufSize);
      if status != Ok { return; }
      status := MsgAuthUpdate(h, buf, off, key);
    } else {
      var at := AttrFind(buf, 0, MSG_AUTHENTIC);
      if at.BadAttr? { return EBADMSG; }
      if at.NoAttr? { return Ok; }
      status := MsgAuthUpdate(h, buf, at.off, key);
    }
  }

  lemma MsgAuthSize(h: Hash, pkt: seq<Byte>, off: nat, key: seq<Byte>, inside: bool, req: Req)
    requires Sized(h) && AttrAt(pkt, off) && MsgAuth(h, pkt, off, key, inside, req).Sum?
    ensures |MsgAuth(h, pkt, off, key, inside, req).data| == HASH_SIZE && pkt[off + 1] == 2 + HASH_SIZE
  {}

  lemma AppendedAttr(pkt: seq<Byte>, typ: Byte, data: seq<Byte>)
    requires |pkt| >= HDR_SIZE && |data| <= 253
    ensures |pkt| + 2 + |data| < 65536 ==> AttrAt(Appended(pkt, typ, data), |pkt|)
  {}

  /** radius_pkt_authenticator_update. */
  method AuthenticatorUpdate(h: Hash, buf: array<Byte>, key: seq<Byte>) returns (status: Status)
    requires Sized(h) && Packed(buf)
    modifies buf
    ensures Packed(buf) && Result(status, Pkt(buf)) == old(AuthUpdated(h, Pkt(buf), key))
  {
    hide Sized, Splice, Md5;
    assert Pkt(buf)[0] == buf[0];
    if Random(buf[0]) { return Ok; }
    HashSize(h, key, Pkt(buf) + key);
    var sum := AuthenticatorCalc(h, buf, key, true, NoReq);
    Write(buf, 4, sum.data);
    status := Ok;
  }

  /** radius_pkt_sign. */
  method Sign(h: Hash, buf: array<Byte>, bufSize: nat, key: seq<Byte>, add: bool) returns (status: Status)
    requires Sized(h) && Packed(buf) && bufSize <= buf.Length && bufSize < 65536
    modifies buf
    ensures Packed(buf) && Result(status, Pkt(buf)) == old(Signed(h, Pkt(buf), bufSize, key, add))
  {
    hide Sized, PasswordHidden, MsgAuthSigned, AuthUpdated;
    status := SignPassword(h, buf, key);
    if status != Ok { return; }
    status := SignMsgAuthenticator(h, buf, bufSize, key, add);
    if status != Ok { return; }
    status := AuthenticatorUpdate(h, buf, key);
  }

  // ----- verifying -----

  /** radius_pkt_attr_msg_authenticator_chk, when there is something to check. */
  method MsgAuthCheck(h: Hash, buf: array<Byte>, key: seq<Byte>, req: Req) returns (status: Status)
    requires Packed(buf)
    ensures status == MsgAuthChecked(h, Pkt(buf), key, req)
  {
    hide Find, MsgAuth;
    var at := AttrFind(buf, 0, MSG_AUTHENTIC);
    if !at.Found? { return Ok; }
    var sum := MsgAuthCalc(h, buf, at.off, key, false, req);
    if sum.Err? { return sum.status; }
    var end := at.off + buf[at.off + 1];
    assert buf[at.off + 2..end] == AttrData(Pkt(buf), at.off);
    return if sum.data != buf[at.off + 2..end] then EBADMSG else Ok;
  }

  /** radius_pkt_authenticator_chk. */
  method AuthenticatorCheck(h: Hash, buf: array<Byte>, key: seq<Byte>, req: Req) returns (status: Status)
    requires Packed(buf)
    ensures status == AuthChecked(h, Pkt(buf), key, req)
  {
    hide AuthCalc;
    assert Pkt(buf)[0] == buf[0] && Authenticator(Pkt(buf)) == buf[4..HDR_SIZE];
    if Random(buf[0]) { return Ok; }
    var sum := AuthenticatorCalc(h, buf, key, false, req);
    if sum.Err? { return EINVAL; }
    return if sum.data != buf[4..HDR_SIZE] then EBADMSG else Ok;
  }

  /** The last step of radius_pkt_verify. */
  method RevealPassword(h: Hash, buf: array<Byte>, key: seq<Byte>) returns (status: Status)
    requires Sized(h) && Packed(buf)
    modifies buf
    ensures Packed(buf) && Result(status, Pkt(buf)) == old(PasswordRevealed(h, Pkt(buf), key))
  {
    hide Find, Revealed, Sized, Splice, Xor, BlockOf, StrLen, Md5, PasswordRevealed;
    ghost var pkt := Pkt(buf);
    PasswordRevealedIs(h, pkt, key);
    var at := AttrFind(buf, 0, USER_PASSWORD);
    if !at.Found? { return Ok; }
    PktFramed(buf);
    var off, len := at.off, buf[at.off + 1] as int - 2;
    assert buf[off + 2..off + 2 + len] == AttrData(pkt, off) && buf[4..HDR_SIZE] == Authenticator(pkt);
    var size: nat;
    status, size := PasswordDecode(h, buf[4..HDR_SIZE], buf[off + 2..off + 2 + len], key, buf, off + 2, len);
    if status == Ok {
      Replaced(buf[..], pkt, off + 2, Revealed(h, Authenticator(pkt), AttrData(pkt, off), key));
      PktIs(buf, Splice(pkt, off + 2, Revealed(h, Authenticator(pkt), AttrData(pkt, off), key)));
    }
  }

  /** radius_pkt_verify. */
  method Verify(h: Hash, buf: array<Byte>, key: seq<Byte>, req: Req) returns (status: Status)
    requires Sized(h) && Packed(buf)
    modifies buf
    ensures Packed(buf) && Result(status, Pkt(buf)) == old(Verified(h, Pkt(buf), key, req))
  {
    hide Sized, MsgAuthChecked, AuthChecked, PasswordRevealed;
    status := MsgAuthCheck(h, buf, key, req);
    if status != Ok { return; }
    status := AuthenticatorCheck(h, buf, key, req);
    if status != Ok { return; }
    status := RevealPassword(h, buf, key);
  }

  // ----- whole runs -----

  /** Attributes added one after the other, until one is refused. */
  function Built(pkt: seq<Byte>, bufSize: nat, adds: seq<Attr>, params: Byte -> Param): Result
    requires |pkt| >= HDR_SIZE && bufSize < 65536 && forall i :: 0 <= i < |adds| ==> |adds[i].data| < 256
    decreases |adds|
  {
    if adds == [] then Result(Ok, pkt)
    else
      var r := AttrAdded(pkt, bufSize, adds[0].typ, adds[0].data, params(adds[0].typ));
      if r.status != Ok then r else Built(r.pkt, bufSize, adds[1..], params)
  }

  /** What radius_pkt_attr_add makes of an attribute: a Message-Authenticator is left empty. */
  function AsAdded(a: Attr): Attr { if a.typ == MSG_AUTHENTIC then Attr(MSG_AUTHENTIC, Zeros(HASH_SIZE)) else a }

  function AllAdded(adds: seq<Attr>): seq<Attr>
  {
    if adds == [] then [] else [AsAdded(adds[0])] + AllAdded(adds[1..])
  }

  /** The packet with these attributes behind its own. */
  function With(p: Packet, adds: seq<Attr>): Packet { p.(attrs := p.attrs + AllAdded(adds)) }

  lemma WithNext(p: Packet, adds: seq<Attr>)
    requires adds != []
    ensures With(With(p, adds[..1]), adds[1..]) == With(p, adds)
    ensures With(p, adds[..1]) == p.(attrs := p.attrs + [AsAdded(adds[0])])
  {
    assert AllAdded(adds[..1]) == [AsAdded(adds[0])];
    assert p.attrs + ([AsAdded(adds[0])] + AllAdded(adds[1..])) == p.attrs + [AsAdded(adds[0])] + AllAdded(adds[1..]);
  }

  lemma WithNone(p: Packet)
    ensures With(p, []) == p
  {
    assert p.attrs + [] == p.attrs;
  }

  /** An added attribute stands at the end and leaves the packet ready to be signed. */
  lemma AddedReady(p: Packet, bufSize: nat, a: Attr, prm: Param)
    requires Ready(p) && bufSize < 65536 && |a.data| < 256
    ensures |p.Wire()| >= HDR_SIZE
    ensures var r, q := AttrAdded(p.Wire(), bufSize, a.typ, a.data, prm), p.(attrs := p.attrs + [AsAdded(a)]);
      r.status == Ok ==> Ready(q) && r.pkt == q.Wire()
  {
    hide Find, Index, AttrsWire, LenOk, Appended, Packet.Wire;
    WireParts(p);
    if AttrAdded(p.Wire(), bufSize, a.typ, a.data, prm).status == Ok {
      var b := AsAdded(a);
      WithAttr(p, b);
      IndexAppend(p.attrs, b, MSG_AUTHENTIC);
      IndexAppend(p.attrs, b, USER_PASSWORD);
    }
  }

  /** Every packet that radius_pkt_init and radius_pkt_attr_add build holds the added attributes in their order,
      and can be signed. */
  lemma {:induction false} BuiltReady(p: Packet, bufSize: nat, adds: seq<Attr>, params: Byte -> Param)
    requires Ready(p) && bufSize < 65536 && forall i :: 0 <= i < |adds| ==> |adds[i].data| < 256
    ensures |p.Wire()| >= HDR_SIZE
    ensures var r := Built(p.Wire(), bufSize, adds, params);
      r.status == Ok ==> Ready(With(p, adds)) && r.pkt == With(p, adds).Wire()
    decreases |adds|
  {
    hide AttrAdded, Ready, Packet.Wire, With;
    WireLong(p);
    if adds == [] {
      WithNone(p);
    } else {
      WithNext(p, adds);
      AddedReady(p, bufSize, adds[0], params(adds[0].typ));
      if AttrAdded(p.Wire(), bufSize, adds[0].typ, adds[0].data, params(adds[0].typ)).status == Ok {
        BuiltReady(With(p, adds[..1]), bufSize, adds[1..], params);
      }
    }
  }

  lemma WireLong(p: Packet)
    requires Ready(p)
    ensures p.Valid() && |p.Wire()| >= HDR_SIZE
  {
    WireParts(p);
  }

  /** A packet built from an initialized one and signed is accepted by whoever has the request and the key,
      except for an Accounting-Response with a Message-Authenticator. */
  lemma BuiltAccepted(h: Hash, p: Packet, bufSize: nat, adds: seq<Attr>, params: Byte -> Param, key: seq<Byte>,
                      add: bool, req: Req)
    requires Sized(h) && Ready(p) && Matches(p, req) && bufSize < 65536
    requires forall i :: 0 <= i < |adds| ==> |adds[i].data| < 256
    requires !Disagrees(With(p, adds), add, req)
    ensures |p.Wire()| >= HDR_SIZE
    ensures var b := Built(p.Wire(), bufSize, adds, params);
      b.status == Ok && |b.pkt| >= HDR_SIZE ==>
        var s := Signed(h, b.pkt, bufSize, key, add);
        s.status == Ok ==> |s.pkt| >= HDR_SIZE && Verified(h, s.pkt, key, req).status == Ok
  {
    hide Built, Signed, Verified, Index, Packet.Wire, Sized, Disagrees, AllAdded;
    WireLong(p);
    BuiltReady(p, bufSize, adds, params);
    if Built(p.Wire(), bufSize, adds, params).status == Ok { VerifyAccepts(h, With(p, adds), bufSize, key, add, req); }
  }
}
