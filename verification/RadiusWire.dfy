/** The bytes of a RADIUS packet: attributes, and what include/proto/radius.h signs and checks (section 3 of
    RFC 2865, section 5.14 of RFC 2869). */
module RadiusWire {
  import opened Common
  import opened RadiusPassword

  const HDR_SIZE: nat := 20

  // Packet codes.
  const ACCESS_REQUEST: Byte := 1
  const ACCESS_ACCEPT: Byte := 2
  const ACCESS_REJECT: Byte := 3
  const ACCOUNTING_REQUEST: Byte := 4
  const ACCOUNTING_RESPONSE: Byte := 5
  const ACCESS_CHALLENGE: Byte := 11
  const STATUS_SERVER: Byte := 12
  const STATUS_CLIENT: Byte := 13
  const DISCONNECT_REQUEST: Byte := 40
  const DISCONNECT_ACK: Byte := 41
  const DISCONNECT_NAK: Byte := 42
  const COA_REQUEST: Byte := 43
  const COA_ACK: Byte := 44
  const COA_NAK: Byte := 45

  // Attribute types.
  const USER_PASSWORD: Byte := 2
  const CHAP_PASSWORD: Byte := 3
  const MSG_AUTHENTIC: Byte := 80

  /** Packets whose authenticator is random. */
  predicate Random(code: Byte) { code == ACCESS_REQUEST || code == STATUS_SERVER || code == STATUS_CLIENT }

  /** Packets whose authenticator is calculated over zeros. */
  predicate Zeroed(code: Byte) { code == ACCOUNTING_REQUEST || code == DISCONNECT_REQUEST || code == COA_REQUEST }

  /** Replies other than Accounting-Response. */
  predicate Reply(code: Byte)
  {
    || code == ACCESS_ACCEPT || code == ACCESS_REJECT || code == ACCESS_CHALLENGE
    || code == DISCONNECT_ACK || code == DISCONNECT_NAK || code == COA_ACK || code == COA_NAK
  }

  predicate Known(code: Byte) { Random(code) || Zeroed(code) || Reply(code) || code == ACCOUNTING_RESPONSE }

  // ----- layout -----

  function LenOf(pkt: seq<Byte>): nat
    requires |pkt| >= 4
  {
    256 * (pkt[2] as int) + pkt[3]
  }

  /** A packet of the length its header states. */
  predicate Framed(pkt: seq<Byte>) { |pkt| >= HDR_SIZE && LenOf(pkt) == |pkt| }

  function Authenticator(pkt: seq<Byte>): (r: seq<Byte>)
    requires |pkt| >= HDR_SIZE
    ensures |r| == HASH_SIZE
  {
    pkt[4..HDR_SIZE]
  }

  function Splice(pkt: seq<Byte>, at: nat, data: seq<Byte>): (r: seq<Byte>)
    requires at + |data| <= |pkt|
    ensures |r| == |pkt|
  {
    pkt[..at] + data + pkt[at + |data|..]
  }

  function LenBytes(n: nat): seq<Byte>
    requires n < 65536
  {
    [n / 256, n % 256]
  }

  /** The packet with one attribute more. */
  function Appended(pkt: seq<Byte>, typ: Byte, data: seq<Byte>): (r: seq<Byte>)
    requires |pkt| >= HDR_SIZE && |data| <= 253 && |pkt| + 2 + |data| < 65536
    ensures |r| == |pkt| + 2 + |data|
  {
    pkt[..2] + LenBytes(|pkt| + 2 + |data|) + pkt[4..] + [typ, |data| + 2] + data
  }

  // ----- attributes -----

  datatype Search = Found(off: nat) | NoAttr | BadAttr | BadOffset

  /** An attribute lies at off. */
  predicate AttrAt(pkt: seq<Byte>, off: nat)
  {
    HDR_SIZE <= off && off + 2 <= |pkt| && pkt[off + 1] >= 2 && off + pkt[off + 1] <= |pkt|
  }

  /** radius_pkt_attr_find_raw from a position on. */
  function Find(pkt: seq<Byte>, pos: nat, typ: Byte): (r: Search)
    requires HDR_SIZE <= pos <= |pkt|
    ensures r.Found? ==> AttrAt(pkt, r.off) && pkt[r.off] == typ
    ensures !r.BadOffset?
    decreases |pkt| - pos
  {
    if pos == |pkt| then NoAttr
    else if |pkt| - pos < 2 || |pkt| - pos < pkt[pos + 1] || pkt[pos] == 0 || pkt[pos + 1] < 2 then BadAttr
    else if pkt[pos] == typ then Found(pos)
    else Find(pkt, pos + pkt[pos + 1], typ)
  }

  function AttrData(pkt: seq<Byte>, off: nat): seq<Byte>
    requires AttrAt(pkt, off)
  {
    pkt[off + 2..off + pkt[off + 1]]
  }

  // ----- checksums -----

  /** What the callers know of the request; no request is the null pointer. */
  datatype Req = NoReq | Req(code: Byte, auth: seq<Byte>) {
    predicate Valid() { Req? ==> |auth| == HASH_SIZE }
  }

  datatype Sum = Sum(data: seq<Byte>) | Err(status: Status)

  /** The bytes that stand for the authenticator in a Message-Authenticator. */
  function MsgAuthPart(pkt: seq<Byte>, inside: bool, req: Req): Sum
    requires |pkt| >= HDR_SIZE
  {
    var code := pkt[0];
    if inside || Random(code) then Sum(Authenticator(pkt))
    else if code == ACCOUNTING_RESPONSE && req.Req? && req.code == STATUS_SERVER then Sum(req.auth)
    else if code == ACCOUNTING_RESPONSE || Zeroed(code) then Sum(Zeros(HASH_SIZE))
    else if Reply(code) then (if req.NoReq? then Err(EINVAL) else Sum(req.auth))
    else Err(EBADMSG)
  }

  /** radius_pkt_attr_msg_authenticator_calc for the attribute at off. */
  function MsgAuth(h: Hash, pkt: seq<Byte>, off: nat, key: seq<Byte>, inside: bool, req: Req): Sum
    requires AttrAt(pkt, off)
  {
    if pkt[off + 1] != 2 + HASH_SIZE then Err(EBADMSG)
    else
      var part := MsgAuthPart(pkt, inside, req);
      if part.Err? then part
      else Sum(Hmac(h, key, pkt[..4] + part.data + pkt[HDR_SIZE..off + 2] + Zeros(HASH_SIZE) + pkt[off + 2 + HASH_SIZE..]))
  }

  /** radius_pkt_authenticator_calc. */
  function AuthCalc(h: Hash, pkt: seq<Byte>, key: seq<Byte>, inside: bool, req: Req): Sum
    requires |pkt| >= HDR_SIZE
  {
    var code := pkt[0];
    if Random(code) then Sum(Authenticator(pkt))
    else if inside then Sum(Md5(h, pkt + key))
    else if Zeroed(code) then Sum(Md5(h, pkt[..4] + Zeros(HASH_SIZE) + pkt[HDR_SIZE..] + key))
    else if Reply(code) || code == ACCOUNTING_RESPONSE then
      (if req.NoReq? then Err(EINVAL) else Sum(Md5(h, pkt[..4] + req.auth + pkt[HDR_SIZE..] + key)))
    else Err(EINVAL)
  }

  /** A step on a packet: its status and the packet after it. */
  datatype Result = Result(status: Status, pkt: seq<Byte>)

  // ----- building -----

  /** rad_attr_param_t without its name. */
  datatype Param = Param(lenMin: Byte, lenMax: Byte, dataType: Byte)

  /** radius_attr_len_chk for the parameters of a type. */
  predicate LenOk(prm: Param, typ: Byte, len: nat)
  {
    && typ != 0 && len != 0
    && (match prm.dataType
        case 0 => true
        case 1 | 2 | 254 | 255 => (prm.lenMin == 0 || prm.lenMin == 255 || len >= prm.lenMin) && (prm.lenMax == 0 || len <= prm.lenMax)
        case 3 | 8 | 10 => len == 4
        case 9 => len == 8
        case 4 => len == 16
        case 5 => 2 <= len <= 18
        case 250 => len >= 5
        case 251 => len >= 2
        case 252 => len >= 3
        case _ => false)
  }

  /** radius_pkt_attr_add_raw: a new attribute at the end. */
  function AttrAppended(pkt: seq<Byte>, bufSize: nat, typ: Byte, data: seq<Byte>): Result
    requires |pkt| >= HDR_SIZE && bufSize < 65536 && |data| < 256
  {
    if |data| > 253 then Result(EINVAL, pkt)
    else if |pkt| + 2 + |data| > bufSize then Result(EOVERFLOW, pkt)
    else Result(Ok, Appended(pkt, typ, data))
  }

  /** radius_pkt_attr_add. For a password it asks the encoder for the size with no room for the result, takes
      the encoder's overflow answer for a failure, and never adds the attribute. */
  function AttrAdded(pkt: seq<Byte>, bufSize: nat, typ: Byte, data: seq<Byte>, prm: Param): Result
    requires |pkt| >= HDR_SIZE && bufSize < 65536 && |data| < 256
  {
    if typ == 0 then Result(EINVAL, pkt)
    else if typ == USER_PASSWORD then
      if |data| > PASSWORD_MAX then Result(EINVAL, pkt)
      else if Find(pkt, HDR_SIZE, USER_PASSWORD).Found? || Find(pkt, HDR_SIZE, USER_PASSWORD).BadAttr? then
        Result(if Find(pkt, HDR_SIZE, USER_PASSWORD).Found? then EEXIST else EBADMSG, pkt)
      else if Find(pkt, HDR_SIZE, CHAP_PASSWORD).Found? then Result(EEXIST, pkt)
      else if Find(pkt, HDR_SIZE, CHAP_PASSWORD).BadAttr? then Result(EBADMSG, pkt)
      else Result(EOVERFLOW, pkt)
    else if typ == MSG_AUTHENTIC then MsgAuthAdded(pkt, bufSize)
    else if !LenOk(prm, typ, |data|) then Result(EINVAL, pkt)
    else AttrAppended(pkt, bufSize, typ, data)
  }

  /** The authenticator that radius_pkt_init writes; none is the null pointer. */
  datatype Start = NoAuth | Auth(auth: seq<Byte>)

  function InitAuth(code: Byte, start: Start): Sum
  {
    if Zeroed(code) || (code == ACCOUNTING_RESPONSE && start.NoAuth?) then Sum(Zeros(HASH_SIZE))
    else if !Known(code) || start.NoAuth? then Err(EINVAL)
    else Sum(start.auth)
  }

  // ----- signing -----

  /** The User-Password is hidden in place; only whole blocks fit back. */
  function PasswordHidden(h: Hash, pkt: seq<Byte>, key: seq<Byte>): (r: Result)
    requires Sized(h) && |pkt| >= HDR_SIZE
    ensures |r.pkt| == |pkt|
  {
    var at := Find(pkt, HDR_SIZE, USER_PASSWORD);
    if !at.Found? then Result(Ok, pkt)
    else
      var d := AttrData(pkt, at.off);
      if |d| > PASSWORD_MAX then Result(EINVAL, pkt)
      else if Aligned(|d|) > |d| then Result(EOVERFLOW, pkt)
      else
        AlignedIs(|d|);
        Result(Ok, Splice(pkt, at.off + 2, Hidden(h, Authenticator(pkt), d, key)))
  }

  /** radius_pkt_attr_add of an empty Message-Authenticator. */
  function MsgAuthAdded(pkt: seq<Byte>, bufSize: nat): Result
    requires |pkt| >= HDR_SIZE && bufSize < 65536
  {
    var at := Find(pkt, HDR_SIZE, MSG_AUTHENTIC);
    if at.Found? then Result(EEXIST, pkt)
    else if at.BadAttr? then Result(EBADMSG, pkt)
    else if |pkt| + 2 + HASH_SIZE > bufSize then Result(EOVERFLOW, pkt)
    else Result(Ok, Appended(pkt, MSG_AUTHENTIC, Zeros(HASH_SIZE)))
  }

  function MsgAuthUpdated(h: Hash, pkt: seq<Byte>, off: nat, key: seq<Byte>): (r: Result)
    requires Sized(h) && AttrAt(pkt, off)
    ensures |r.pkt| == |pkt|
  {
    var sum := MsgAuth(h, pkt, off, key, true, NoReq);
    if sum.Err? then Result(sum.status, pkt)
    else
      HashSize(h, key, pkt[..4] + Authenticator(pkt) + pkt[HDR_SIZE..off + 2] + Zeros(HASH_SIZE) + pkt[off + 2 + HASH_SIZE..]);
      Result(Ok, Splice(pkt, off + 2, sum.data))
  }

  /** The Message-Authenticator is added or looked for, and updated. */
  function MsgAuthSigned(h: Hash, pkt: seq<Byte>, bufSize: nat, key: seq<Byte>, add: bool): Result
    requires Sized(h) && |pkt| >= HDR_SIZE && bufSize < 65536
  {
    if add then
      var r := MsgAuthAdded(pkt, bufSize);
      if r.status != Ok then r else MsgAuthUpdated(h, r.pkt, |pkt|, key)
    else
      var at := Find(pkt, HDR_SIZE, MSG_AUTHENTIC);
      if at.BadAttr? then Result(EBADMSG, pkt)
      else if at.NoAttr? then Result(Ok, pkt)
      else MsgAuthUpdated(h, pkt, at.off, key)
  }

  function AuthUpdated(h: Hash, pkt: seq<Byte>, key: seq<Byte>): Result
    requires Sized(h) && |pkt| >= HDR_SIZE
  {
    if Random(pkt[0]) then Result(Ok, pkt)
    else
      HashSize(h, key, pkt + key);
      Result(Ok, Splice(pkt, 4, Md5(h, pkt + key)))
  }

  /** radius_pkt_sign. */
  function Signed(h: Hash, pkt: seq<Byte>, bufSize: nat, key: seq<Byte>, add: bool): Result
    requires Sized(h) && |pkt| >= HDR_SIZE && bufSize < 65536
  {
    var r1 := PasswordHidden(h, pkt, key);
    if r1.status != Ok then r1
    else
      var r2 := MsgAuthSigned(h, r1.pkt, bufSize, key, add);
      if r2.status != Ok then r2 else AuthUpdated(h, r2.pkt, key)
  }

  // ----- verifying -----

  /** The check of the Message-Authenticator, if there is one. */
  function MsgAuthChecked(h: Hash, pkt: seq<Byte>, key: seq<Byte>, req: Req): Status
    requires |pkt| >= HDR_SIZE
  {
    var at := Find(pkt, HDR_SIZE, MSG_AUTHENTIC);
    if !at.Found? then Ok
    else
      var sum := MsgAuth(h, pkt, at.off, key, false, req);
      if sum.Err? then sum.status else if sum.data != AttrData(pkt, at.off) then EBADMSG else Ok
  }

  function AuthChecked(h: Hash, pkt: seq<Byte>, key: seq<Byte>, req: Req): Status
    requires |pkt| >= HDR_SIZE
  {
    if Random(pkt[0]) then Ok
    else
      var sum := AuthCalc(h, pkt, key, false, req);
      if sum.Err? then EINVAL else if sum.data != Authenticator(pkt) then EBADMSG else Ok
  }

  function PasswordRevealed(h: Hash, pkt: seq<Byte>, key: seq<Byte>): (r: Result)
    requires Sized(h) && |pkt| >= HDR_SIZE
    ensures |r.pkt| == |pkt|
  {
    var at := Find(pkt, HDR_SIZE, USER_PASSWORD);
    if !at.Found? then Result(Ok, pkt)
    else
      var d := AttrData(pkt, at.off);
      if 0 < |d| <= PASSWORD_MAX && |d| % HASH_SIZE == 0
      then Result(Ok, Splice(pkt, at.off + 2, Revealed(h, Authenticator(pkt), d, key)))
      else Result(EINVAL, pkt)
  }

  /** radius_pkt_verify. */
  function Verified(h: Hash, pkt: seq<Byte>, key: seq<Byte>, req: Req): Result
    requires Sized(h) && |pkt| >= HDR_SIZE
  {
    if MsgAuthChecked(h, pkt, key, req) != Ok then Result(MsgAuthChecked(h, pkt, key, req), pkt)
    else if AuthChecked(h, pkt, key, req) != Ok then Result(AuthChecked(h, pkt, key, req), pkt)
    else PasswordRevealed(h, pkt, key)
  }
}
