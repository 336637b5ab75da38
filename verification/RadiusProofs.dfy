/** Signed RADIUS packets are accepted: for which packets, and what verification leaves behind. */
module RadiusProofs {
  import opened Common
  import opened RadiusPassword
  import opened RadiusWire
  import opened RadiusPackets

  /** A packet that can be signed: known code, whole password blocks, and room for the digest in its first
      Message-Authenticator. */
  predicate Ready(p: Packet)
  {
    && p.Valid() && Known(p.code)
    && (var i := Index(p.attrs, USER_PASSWORD);
        i < |p.attrs| ==> 0 < |p.attrs[i].data| <= PASSWORD_MAX && |p.attrs[i].data| % HASH_SIZE == 0)
    && (var i := Index(p.attrs, MSG_AUTHENTIC);
        i < |p.attrs| ==> |p.attrs[i].data| == HASH_SIZE)
  }

  /** The authenticator that radius_pkt_init and radius_pkt_reply_init give the packet. */
  predicate Matches(p: Packet, req: Req)
  {
    && req.Valid()
    && (Zeroed(p.code) ==> p.auth == Zeros(HASH_SIZE))
    && (Reply(p.code) || p.code == ACCOUNTING_RESPONSE ==> req.Req? && p.auth == req.auth)
  }

  function HasMsgAuth(p: Packet): bool { Index(p.attrs, MSG_AUTHENTIC) < |p.attrs| }

  // ----- signing, step by step -----

  function HidePassword(h: Hash, p: Packet, key: seq<Byte>): Packet
    requires Sized(h) && Ready(p)
  {
    var i := Index(p.attrs, USER_PASSWORD);
    if i < |p.attrs| then p.WithData(i, Hidden(h, p.auth, p.attrs[i].data, key)) else p
  }

  lemma PasswordStep(h: Hash, p: Packet, key: seq<Byte>)
    requires Sized(h) && Ready(p)
    ensures var q := HidePassword(h, p, key);
      && Ready(q) && q.auth == p.auth && q.code == p.code && q.id == p.id && |q.Wire()| == |p.Wire()| >= HDR_SIZE
      && HasMsgAuth(q) == HasMsgAuth(p) && Index(q.attrs, USER_PASSWORD) == Index(p.attrs, USER_PASSWORD)
      && PasswordHidden(h, p.Wire(), key) == Result(Ok, q.Wire())
  {
    hide Find, Index, AttrsWire, Hidden, Sized, Packet.Wire, Splice;
    FindWire(p, USER_PASSWORD);
    WireParts(p);
    var i := Index(p.attrs, USER_PASSWORD);
    if i < |p.attrs| {
      AttrOnWire(p, i);
      AlignedIs(|p.attrs[i].data|);
      var d := Hidden(h, p.auth, p.attrs[i].data, key);
      WithDataValid(p, i, d);
      SameIndex(p, i, d, USER_PASSWORD);
      SameIndex(p, i, d, MSG_AUTHENTIC);
    }
  }

  lemma SameIndex(p: Packet, i: nat, data: seq<Byte>, typ: Byte)
    requires i < |p.attrs|
    ensures Index(p.WithData(i, data).attrs, typ) == Index(p.attrs, typ)
  {
    IndexTypes(p.WithData(i, data).attrs, p.attrs, typ);
  }

  /** What the Message-Authenticator is calculated over: the packet with `part` for its authenticator and
      zeros in attribute i. */
  function MacInput(p: Packet, i: nat, part: seq<Byte>): seq<Byte>
    requires p.Valid() && i < |p.attrs|
  {
    AttrsWireAt(p.attrs, i);
    p.Head() + part + (AttrsWire(p.attrs[..i]) + [p.attrs[i].typ, |p.attrs[i].data| + 2]) + Zeros(HASH_SIZE)
      + AttrsWire(p.attrs[i + 1..])
  }

  /** It does not depend on the digest or the authenticator in the packet. */
  lemma MacInputSame(p: Packet, q: Packet, i: nat, part: seq<Byte>)
    requires p.Valid() && q.Valid() && i < |p.attrs| == |q.attrs| && p.code == q.code && p.id == q.id
    requires p.attrs[..i] == q.attrs[..i] && p.attrs[i + 1..] == q.attrs[i + 1..]
    requires p.attrs[i].typ == q.attrs[i].typ && |p.attrs[i].data| == |q.attrs[i].data|
    ensures MacInput(p, i, part) == MacInput(q, i, part)
  {
    hide AttrsWire;
    AttrsWireAt(p.attrs, i);
    AttrsWireAt(q.attrs, i);
  }

  lemma MacOnWire(h: Hash, p: Packet, i: nat, key: seq<Byte>, inside: bool, req: Req)
    requires Sized(h) && p.Valid() && i < |p.attrs| && |p.attrs[i].data| == HASH_SIZE
    requires MsgAuthPart(p.Wire(), inside, req).Sum?
    ensures AttrAt(p.Wire(), Off(p, i))
    ensures MsgAuth(h, p.Wire(), Off(p, i), key, inside, req)
      == Sum(Hmac(h, key, MacInput(p, i, MsgAuthPart(p.Wire(), inside, req).data)))
  {
    hide AttrsWire, Packet.Wire, MsgAuthPart;
    AttrOnWire(p, i);
    WireParts(p);
  }

  function SignMsgAuth(h: Hash, p: Packet, key: seq<Byte>): Packet
    requires Sized(h) && Ready(p) && HasMsgAuth(p)
  {
    var i := Index(p.attrs, MSG_AUTHENTIC);
    p.WithData(i, Hmac(h, key, MacInput(p, i, p.auth)))
  }

  lemma MsgAuthStep(h: Hash, p: Packet, key: seq<Byte>)
    requires Sized(h) && Ready(p) && HasMsgAuth(p)
    ensures var i, q := Index(p.attrs, MSG_AUTHENTIC), SignMsgAuth(h, p, key);
      && Ready(q) && q.auth == p.auth && q.code == p.code && q.id == p.id && HasMsgAuth(q)
      && Index(q.attrs, USER_PASSWORD) == Index(p.attrs, USER_PASSWORD) && Index(q.attrs, MSG_AUTHENTIC) == i
      && q.attrs[i].data == Hmac(h, key, MacInput(q, i, p.auth))
      && AttrAt(p.Wire(), Off(p, i)) && MsgAuthUpdated(h, p.Wire(), Off(p, i), key) == Result(Ok, q.Wire())
  {
    hide Index, AttrsWire, Sized, Packet.Wire, Splice, MacInput, Hmac;
    var i, q := Index(p.attrs, MSG_AUTHENTIC), SignMsgAuth(h, p, key);
    WireParts(p);
    MacOnWire(h, p, i, key, true, NoReq);
    var d := Hmac(h, key, MacInput(p, i, p.auth));
    HashSize(h, key, MacInput(p, i, p.auth));
    WithDataValid(p, i, d);
    SameIndex(p, i, d, USER_PASSWORD);
    SameIndex(p, i, d, MSG_AUTHENTIC);
    MacInputSame(p, q, i, p.auth);
  }

  function SignAuth(h: Hash, p: Packet, key: seq<Byte>): Packet
    requires Sized(h) && p.Valid()
  {
    if Random(p.code) then p else p.(auth := Md5(h, p.Wire() + key))
  }

  lemma AuthStep(h: Hash, p: Packet, key: seq<Byte>)
    requires Sized(h) && p.Valid()
    ensures |p.Wire()| >= HDR_SIZE
    ensures var q := SignAuth(h, p, key); q.Valid() && AuthUpdated(h, p.Wire(), key) == Result(Ok, q.Wire())
  {
    hide AttrsWire, Sized, Packet.Wire, Splice;
    WireParts(p);
    HashSize(h, key, p.Wire() + key);
    WithAuth(p, Md5(h, p.Wire() + key));
  }

  /** The packet with its password hidden and its Message-Authenticator in place, before the last step. */
  function Prepared(h: Hash, p: Packet, key: seq<Byte>, add: bool): Packet
    requires Sized(h) && Ready(p) && (add ==> CanAdd(p))
  {
    PasswordStep(h, p, key);
    var q := HidePassword(h, p, key);
    if add then
      AddReady(q);
      SignMsgAuth(h, q.(attrs := q.attrs + [Attr(MSG_AUTHENTIC, Zeros(HASH_SIZE))]), key)
    else if HasMsgAuth(q) then SignMsgAuth(h, q, key)
    else q
  }

  /** A Message-Authenticator can be added. */
  predicate CanAdd(p: Packet)
    requires p.Valid()
  {
    !HasMsgAuth(p) && HDR_SIZE + |AttrsWire(p.attrs)| + 2 + HASH_SIZE < 65536
  }

  lemma AddReady(p: Packet)
    requires Ready(p) && CanAdd(p)
    ensures var q := p.(attrs := p.attrs + [Attr(MSG_AUTHENTIC, Zeros(HASH_SIZE))]);
      && Ready(q) && HasMsgAuth(q) && Index(q.attrs, MSG_AUTHENTIC) == |p.attrs| && Off(q, |p.attrs|) == |p.Wire()|
      && (Index(p.attrs, USER_PASSWORD) < |p.attrs| ==> Index(q.attrs, USER_PASSWORD) == Index(p.attrs, USER_PASSWORD))
      && (Index(p.attrs, USER_PASSWORD) == |p.attrs| ==> Index(q.attrs, USER_PASSWORD) == |q.attrs|)
      && Appended(p.Wire(), MSG_AUTHENTIC, Zeros(HASH_SIZE)) == q.Wire()
  {
    hide Index, AttrsWire, Packet.Wire;
    var a := Attr(MSG_AUTHENTIC, Zeros(HASH_SIZE));
    WireParts(p);
    WithAttr(p, a);
    IndexAppend(p.attrs, a, MSG_AUTHENTIC);
    IndexAppend(p.attrs, a, USER_PASSWORD);
    assert (p.attrs + [a])[..|p.attrs|] == p.attrs;
  }

  /** radius_pkt_sign succeeds exactly when the Message-Authenticator it is asked to add can be added, and
      does these steps. */
  lemma SignedIs(h: Hash, p: Packet, bufSize: nat, key: seq<Byte>, add: bool)
    requires Sized(h) && Ready(p) && bufSize < 65536
    ensures |p.Wire()| >= HDR_SIZE
    ensures var r := Signed(h, p.Wire(), bufSize, key, add);
      && (r.status == Ok <==> (add ==> !HasMsgAuth(p) && |p.Wire()| + 2 + HASH_SIZE <= bufSize))
      && (r.status == Ok ==>
            && (add ==> CanAdd(p)) && Ready(Prepared(h, p, key, add))
            && r.pkt == SignAuth(h, Prepared(h, p, key, add), key).Wire())
  {
    hide Index, AttrsWire, Sized, Packet.Wire, HidePassword, SignMsgAuth, SignAuth, PasswordHidden, MsgAuthUpdated,
      AuthUpdated, Find, Appended;
    PasswordStep(h, p, key);
    var q := HidePassword(h, p, key);
    WireParts(p);
    WireParts(q);
    FindWire(q, MSG_AUTHENTIC);
    if add {
      if !HasMsgAuth(q) && |q.Wire()| + 2 + HASH_SIZE <= bufSize {
        AddReady(q);
        var a := q.(attrs := q.attrs + [Attr(MSG_AUTHENTIC, Zeros(HASH_SIZE))]);
        MsgAuthStep(h, a, key);
        AuthStep(h, SignMsgAuth(h, a, key), key);
      }
    } else if HasMsgAuth(q) {
      MsgAuthStep(h, q, key);
      AuthStep(h, SignMsgAuth(h, q, key), key);
    } else {
      AuthStep(h, q, key);
    }
  }

  // ----- verifying -----

  /** What is known of the attributes before the last signing step. */
  lemma PreparedFacts(h: Hash, p: Packet, key: seq<Byte>, add: bool)
    requires Sized(h) && Ready(p) && (add ==> CanAdd(p))
    ensures var q := Prepared(h, p, key, add);
      && Ready(q) && q.auth == p.auth && q.code == p.code && q.id == p.id && HasMsgAuth(q) == (add || HasMsgAuth(p))
      && (HasMsgAuth(q) ==>
            var i := Index(q.attrs, MSG_AUTHENTIC);
            q.attrs[i].data == Hmac(h, key, MacInput(q, i, p.auth)))
      && (Index(p.attrs, USER_PASSWORD) < |p.attrs| <==> Index(q.attrs, USER_PASSWORD) < |q.attrs|)
      && (Index(p.attrs, USER_PASSWORD) < |p.attrs| ==>
            var j := Index(p.attrs, USER_PASSWORD);
            && Index(q.attrs, USER_PASSWORD) == j && |p.attrs[j].data| % HASH_SIZE == 0
            && q.attrs[j].data == Hidden(h, p.auth, p.attrs[j].data, key))
  {
    hide Index, AttrsWire, Sized, Packet.Wire, Hidden, Hmac, MacInput;
    PasswordStep(h, p, key);
    var q := HidePassword(h, p, key);
    WireParts(p);
    WireParts(q);
    if add {
      AddReady(q);
      MsgAuthStep(h, q.(attrs := q.attrs + [Attr(MSG_AUTHENTIC, Zeros(HASH_SIZE))]), key);
    } else if HasMsgAuth(q) {
      MsgAuthStep(h, q, key);
    }
  }

  /** The verifier stands something else for the authenticator than the signer did. */
  predicate Disagrees(p: Packet, add: bool, req: Req)
  {
    && p.code == ACCOUNTING_RESPONSE && (add || HasMsgAuth(p))
    && !(req.Req? && req.code == STATUS_SERVER) && p.auth != Zeros(HASH_SIZE)
  }

  lemma PartAgrees(p: Packet, s: Packet, add: bool, req: Req)
    requires p.Valid() && s.Valid() && Known(p.code) && Matches(p, req) && s.code == p.code && (Random(p.code) ==> s.auth == p.auth)
    ensures |s.Wire()| >= HDR_SIZE && MsgAuthPart(s.Wire(), false, req).Sum?
    ensures !Disagrees(p, add, req) && (add || HasMsgAuth(p)) ==> MsgAuthPart(s.Wire(), false, req).data == p.auth
    ensures Disagrees(p, add, req) ==> MsgAuthPart(s.Wire(), false, req).data == Zeros(HASH_SIZE)
  {
    hide Index, AttrsWire, Packet.Wire;
    WireParts(s);
  }

  /** The Message-Authenticator check of the signed packet compares two digests over the same bytes but
      for the authenticator. */
  lemma MsgAuthCompared(h: Hash, p: Packet, key: seq<Byte>, add: bool, req: Req)
    requires Sized(h) && Ready(p) && (add ==> CanAdd(p)) && Matches(p, req)
    ensures Prepared(h, p, key, add).Valid()
    ensures var q := Prepared(h, p, key, add);
      var s := SignAuth(h, q, key);
      && s.Valid() && |s.Wire()| >= HDR_SIZE && MsgAuthPart(s.Wire(), false, req).Sum?
      && (!HasMsgAuth(q) ==> MsgAuthChecked(h, s.Wire(), key, req) == Ok)
      && (HasMsgAuth(q) ==>
            var i := Index(q.attrs, MSG_AUTHENTIC);
            MsgAuthChecked(h, s.Wire(), key, req) ==
              if Hmac(h, key, MacInput(q, i, MsgAuthPart(s.Wire(), false, req).data)) != Hmac(h, key, MacInput(q, i, p.auth))
              then EBADMSG else Ok)
  {
    hide Index, AttrsWire, Sized, Packet.Wire, Hidden, Hmac, Find, Prepared, MsgAuthPart;
    PreparedFacts(h, p, key, add);
    var q := Prepared(h, p, key, add);
    AuthStep(h, q, key);
    var s := SignAuth(h, q, key);
    PartAgrees(p, s, add, req);
    FindWire(s, MSG_AUTHENTIC);
    if HasMsgAuth(q) {
      var i := Index(q.attrs, MSG_AUTHENTIC);
      AttrOnWire(s, i);
      MacOnWire(h, s, i, key, false, req);
      MacInputSame(q, s, i, MsgAuthPart(s.Wire(), false, req).data);
    }
  }

  lemma AuthAccepted(h: Hash, p: Packet, q: Packet, key: seq<Byte>, req: Req)
    requires Sized(h) && p.Valid() && q.Valid() && Known(p.code) && Matches(p, req) && q.code == p.code && q.auth == p.auth
    ensures SignAuth(h, q, key).Valid() && |SignAuth(h, q, key).Wire()| >= HDR_SIZE
    ensures AuthChecked(h, SignAuth(h, q, key).Wire(), key, req) == Ok
  {
    hide Index, AttrsWire, Sized, Packet.Wire;
    AuthStep(h, q, key);
    WireParts(q);
    WireParts(SignAuth(h, q, key));
    assert q.Wire() + key == q.Head() + p.auth + AttrsWire(q.attrs) + key;
  }

  /** What is left of the password after verification. */
  lemma PasswordLeft(h: Hash, p: Packet, key: seq<Byte>, add: bool)
    requires Sized(h) && Ready(p) && (add ==> CanAdd(p))
    ensures Prepared(h, p, key, add).Valid()
    ensures var q := Prepared(h, p, key, add);
      var s, j := SignAuth(h, q, key), Index(p.attrs, USER_PASSWORD);
      && s.Valid() && |s.Wire()| >= HDR_SIZE && PasswordRevealed(h, s.Wire(), key).status == Ok
      && (j == |p.attrs| ==> PasswordRevealed(h, s.Wire(), key).pkt == s.Wire())
      && (j < |p.attrs| ==> j < |q.attrs|)
      && (j < |p.attrs| && Random(p.code) ==>
            q.WithData(j, p.attrs[j].data).Valid()
            && PasswordRevealed(h, s.Wire(), key).pkt == q.WithData(j, p.attrs[j].data).Wire())
  {
    hide Index, AttrsWire, Sized, Packet.Wire, Hidden, Revealed, Hmac, Find, Prepared, Splice, MacInput;
    PreparedFacts(h, p, key, add);
    var q := Prepared(h, p, key, add);
    AuthStep(h, q, key);
    var s, j := SignAuth(h, q, key), Index(p.attrs, USER_PASSWORD);
    WireParts(s);
    FindWire(s, USER_PASSWORD);
    if j < |p.attrs| {
      AttrOnWire(s, j);
      RevealHidden(h, p.auth, p.attrs[j].data, key);
      WithDataValid(s, j, Revealed(h, s.auth, s.attrs[j].data, key));
    }
  }

  /** Signed with the given settings, the packet passes verification. */
  ghost predicate Accepted(h: Hash, p: Packet, bufSize: nat, key: seq<Byte>, add: bool, req: Req)
    requires Sized(h) && Ready(p) && bufSize < 65536
  {
    WireParts(p);
    SignedIs(h, p, bufSize, key, add);
    var s := Signed(h, p.Wire(), bufSize, key, add);
    s.status == Ok ==> |s.pkt| >= HDR_SIZE && Verified(h, s.pkt, key, req).status == Ok
  }

  /** radius_pkt_verify accepts what radius_pkt_sign has signed, with the matching request and key and any
      hash, unless an Accounting-Response carries a Message-Authenticator. */
  lemma VerifyAccepts(h: Hash, p: Packet, bufSize: nat, key: seq<Byte>, add: bool, req: Req)
    requires Sized(h) && Ready(p) && Matches(p, req) && bufSize < 65536 && !Disagrees(p, add, req)
    ensures Accepted(h, p, bufSize, key, add, req)
  {
    hide Index, AttrsWire, Sized, Packet.Wire, MsgAuthChecked, AuthChecked, PasswordRevealed, Prepared, SignAuth, Signed;
    SignedIs(h, p, bufSize, key, add);
    if Signed(h, p.Wire(), bufSize, key, add).status == Ok {
      var q := Prepared(h, p, key, add);
      PreparedFacts(h, p, key, add);
      MsgAuthCompared(h, p, key, add, req);
      AuthAccepted(h, p, q, key, req);
      PasswordLeft(h, p, key, add);
      AuthKept(h, q, key);
      PartAgrees(p, SignAuth(h, q, key), add, req);
    }
  }

  lemma AuthKept(h: Hash, q: Packet, key: seq<Byte>)
    requires Sized(h) && q.Valid()
    ensures SignAuth(h, q, key).Valid() && SignAuth(h, q, key).code == q.code
    ensures Random(q.code) ==> SignAuth(h, q, key).auth == q.auth
  {
    AuthStep(h, q, key);
  }

  /** The User-Password of a packet with a random authenticator is back in place after verification, and
      everything else is as it was signed. */
  lemma PasswordRestored(h: Hash, p: Packet, bufSize: nat, key: seq<Byte>, add: bool, req: Req)
    requires Sized(h) && Ready(p) && Matches(p, req) && bufSize < 65536 && Random(p.code)
    requires Index(p.attrs, USER_PASSWORD) < |p.attrs|
    ensures |p.Wire()| >= HDR_SIZE
    ensures var s, j := Signed(h, p.Wire(), bufSize, key, add), Index(p.attrs, USER_PASSWORD);
      s.status == Ok ==>
        && (add ==> CanAdd(p)) && |s.pkt| >= HDR_SIZE && j < |Prepared(h, p, key, add).attrs|
        && var r := Prepared(h, p, key, add).WithData(j, p.attrs[j].data);
        r.Valid() && Verified(h, s.pkt, key, req) == Result(Ok, r.Wire())
  {
    hide Index, AttrsWire, Sized, Packet.Wire, MsgAuthChecked, AuthChecked, PasswordRevealed, Prepared, Signed;
    VerifyAccepts(h, p, bufSize, key, add, req);
    SignedIs(h, p, bufSize, key, add);
    if Signed(h, p.Wire(), bufSize, key, add).status == Ok { PasswordLeft(h, p, key, add); }
  }

  // ----- the exception -----

  /** A hash that shows the difference: its keyed form returns the place of the authenticator. */
  function Witness(): (h: Hash)
    ensures Sized(h)
  {
    Hash(s => Zeros(HASH_SIZE), (k, s) => if |s| >= HDR_SIZE then s[4..HDR_SIZE] else Zeros(HASH_SIZE))
  }

  lemma WitnessSees(p: Packet, i: nat, part: seq<Byte>, key: seq<Byte>)
    requires p.Valid() && i < |p.attrs| && |part| == HASH_SIZE
    ensures Hmac(Witness(), key, MacInput(p, i, part)) == part
  {
    hide AttrsWire;
    AttrsWireAt(p.attrs, i);
    var m := MacInput(p, i, part);
    assert m[4..HDR_SIZE] == part;
  }

  /** With that hash an Accounting-Response with a Message-Authenticator is refused. */
  lemma ResponseRefused(p: Packet, bufSize: nat, key: seq<Byte>, add: bool, req: Req)
    requires Ready(p) && Matches(p, req) && bufSize < 65536 && Disagrees(p, add, req) && |p.Wire()| >= HDR_SIZE
    requires Signed(Witness(), p.Wire(), bufSize, key, add).status == Ok
    ensures !Accepted(Witness(), p, bufSize, key, add, req)
  {
    hide Index, AttrsWire, Sized, Packet.Wire, MsgAuthChecked, AuthChecked, PasswordRevealed, Prepared, Signed, Witness,
      Hmac, SignAuth, MsgAuthPart, MacInput;
    var h := Witness();
    SignedIs(h, p, bufSize, key, add);
    var q := Prepared(h, p, key, add);
    PreparedFacts(h, p, key, add);
    MsgAuthCompared(h, p, key, add, req);
    AuthKept(h, q, key);
    PartAgrees(p, SignAuth(h, q, key), add, req);
    var i := Index(q.attrs, MSG_AUTHENTIC);
    WitnessSees(q, i, p.auth, key);
    WitnessSees(q, i, Zeros(HASH_SIZE), key);
  }

  /** Exactly when verification succeeds whatever the hash: for a packet that can be signed, unless it is an
      Accounting-Response with a Message-Authenticator whose request was no Status-Server and had a nonzero
      authenticator. */
  lemma AcceptedByAll(p: Packet, bufSize: nat, key: seq<Byte>, add: bool, req: Req)
    requires Ready(p) && Matches(p, req) && bufSize < 65536 && |p.Wire()| >= HDR_SIZE
    requires add ==> !HasMsgAuth(p) && |p.Wire()| + 2 + HASH_SIZE <= bufSize
    ensures (forall h: Hash :: Sized(h) ==> Accepted(h, p, bufSize, key, add, req)) <==> !Disagrees(p, add, req)
  {
    hide Accepted, Disagrees, Signed, Sized, Packet.Wire, Index;
    if Disagrees(p, add, req) {
      SignedIs(Witness(), p, bufSize, key, add);
      ResponseRefused(p, bufSize, key, add, req);
    } else {
      forall h: Hash | Sized(h) ensures Accepted(h, p, bufSize, key, add, req) {
        VerifyAccepts(h, p, bufSize, key, add, req);
      }
    }
  }
}
