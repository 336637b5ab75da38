/** What include/proto/radius.h accepts and writes, byte by byte. The numbers are those of section 3 of RFC 2865 and
    of RFC 5176: packet codes, and the attribute types 2 (User-Password) and 80 (Message-Authenticator). */
module RadiusChecks {
  import opened Common
  import opened RadiusPassword
  import opened RadiusWire
  import opened RadiusPackets
  import opened RadiusProofs

  // ----- verifying -----

  /** What the Message-Authenticator must be: 18 bytes, the keyed hash over the packet with zeros in its own place and,
      for its authenticator, that of the packet, that of the request, or zeros. */
  lemma MsgAuthIff(h: Hash, pkt: seq<Byte>, key: seq<Byte>, req: Req)
    requires Sized(h) && |pkt| >= 20
    ensures
      var code, m, zeros: seq<Byte> := pkt[0], Find(pkt, 20, 80), seq(16, _ => 0);
      var random, zeroed, reply := code in {1, 12, 13}, code in {4, 40, 43}, code in {2, 3, 11, 41, 42, 44, 45};
      var checked := MsgAuthChecked(h, pkt, key, req);
      && (checked == Ok <==>
            m.Found? ==>
              && pkt[m.off + 1] == 18 && (random || zeroed || code == 5 || (reply && req.Req?))
              && var part := if random then pkt[4..20]
                             else if reply || (code == 5 && req.Req? && req.code == 12) then req.auth else zeros;
                 pkt[m.off + 2..m.off + 18]
                   == h.hmac(key, pkt[..4] + part + pkt[20..m.off + 2] + zeros + pkt[m.off + 18..]))
      && (checked == EINVAL <==> m.Found? && pkt[m.off + 1] == 18 && reply && req.NoReq?)
      && (checked != Ok && checked != EINVAL ==> checked == EBADMSG)
  {
    hide Find, MsgAuthPart, MsgAuth, AttrData;
    var m := Find(pkt, 20, 80);
    PartIs(pkt, req);
    if m.Found? { MsgAuthIs(h, pkt, m.off, key, req); }
  }

  lemma MsgAuthIs(h: Hash, pkt: seq<Byte>, off: nat, key: seq<Byte>, req: Req)
    requires AttrAt(pkt, off)
    ensures var part, sum := MsgAuthPart(pkt, false, req), MsgAuth(h, pkt, off, key, false, req);
      && (pkt[off + 1] != 18 ==> sum == Err(EBADMSG))
      && (pkt[off + 1] == 18 && part.Err? ==> sum == part)
      && (pkt[off + 1] == 18 ==> AttrData(pkt, off) == pkt[off + 2..off + 18])
      && (pkt[off + 1] == 18 && part.Sum? ==>
            sum == Sum(h.hmac(key, pkt[..4] + part.data + pkt[20..off + 2] + Zeros(16) + pkt[off + 18..])))
  {
    hide MsgAuthPart;
  }

  /** What stands for the authenticator, if anything does. */
  lemma PartIs(pkt: seq<Byte>, req: Req)
    requires |pkt| >= 20
    ensures
      var code, zeros: seq<Byte> := pkt[0], seq(16, _ => 0);
      var random, zeroed, reply := code in {1, 12, 13}, code in {4, 40, 43}, code in {2, 3, 11, 41, 42, 44, 45};
      var part := MsgAuthPart(pkt, false, req);
      && Zeros(16) == zeros
      && (part.Sum? <==> random || zeroed || code == 5 || (reply && req.Req?))
      && (part.Sum? ==>
            part.data == if random then pkt[4..20]
                         else if reply || (code == 5 && req.Req? && req.code == 12) then req.auth else zeros)
      && (part.Err? ==> part.status == if reply then EINVAL else EBADMSG)
  {
    assert Zeros(16) == seq(16, _ => 0);
  }

  /** What the authenticator must be: anything for the codes with a random one, otherwise the hash over the packet
      with zeros or the request's authenticator in its place, and the key. */
  lemma AuthIff(h: Hash, pkt: seq<Byte>, key: seq<Byte>, req: Req)
    requires Sized(h) && |pkt| >= 20
    ensures
      var code, zeros: seq<Byte> := pkt[0], seq(16, _ => 0);
      var random, zeroed, reply := code in {1, 12, 13}, code in {4, 40, 43}, code in {2, 3, 11, 41, 42, 44, 45};
      var checked := AuthChecked(h, pkt, key, req);
      && (checked == Ok <==>
            || random
            || (zeroed && pkt[4..20] == h.md5(pkt[..4] + zeros + pkt[20..] + key))
            || ((reply || code == 5) && req.Req? && pkt[4..20] == h.md5(pkt[..4] + req.auth + pkt[20..] + key)))
      && (checked == EINVAL <==> !random && !zeroed && !((reply || code == 5) && req.Req?))
      && (checked != Ok && checked != EINVAL ==> checked == EBADMSG)
  {
    assert Zeros(16) == seq(16, _ => 0);
  }

  /** Exactly when radius_pkt_verify accepts a packet. */
  lemma VerifyIff(h: Hash, pkt: seq<Byte>, key: seq<Byte>, req: Req)
    requires Sized(h) && |pkt| >= 20
    ensures
      var code, m, u, zeros: seq<Byte> := pkt[0], Find(pkt, 20, 80), Find(pkt, 20, 2), seq(16, _ => 0);
      var random, zeroed, reply := code in {1, 12, 13}, code in {4, 40, 43}, code in {2, 3, 11, 41, 42, 44, 45};
      Verified(h, pkt, key, req).status == Ok <==>
        && (m.Found? ==>
              && pkt[m.off + 1] == 18 && (random || zeroed || code == 5 || (reply && req.Req?))
              && var part := if random then pkt[4..20]
                             else if reply || (code == 5 && req.Req? && req.code == 12) then req.auth else zeros;
                 pkt[m.off + 2..m.off + 18]
                   == h.hmac(key, pkt[..4] + part + pkt[20..m.off + 2] + zeros + pkt[m.off + 18..]))
        && (|| random
            || (zeroed && pkt[4..20] == h.md5(pkt[..4] + zeros + pkt[20..] + key))
            || ((reply || code == 5) && req.Req? && pkt[4..20] == h.md5(pkt[..4] + req.auth + pkt[20..] + key)))
        && (u.Found? ==> pkt[u.off + 1] - 2 in {16, 32, 48, 64, 80, 96, 112, 128})
  {
    hide Find, MsgAuthChecked, AuthChecked, Revealed, Splice;
    MsgAuthIff(h, pkt, key, req);
    AuthIff(h, pkt, key, req);
    var u := Find(pkt, 20, 2);
    if u.Found? { WholeBlocksIff(|AttrData(pkt, u.off)|); }
  }

  lemma WholeBlocksIff(n: nat)
    ensures 0 < n <= PASSWORD_MAX && n % HASH_SIZE == 0 <==> n in {16, 32, 48, 64, 80, 96, 112, 128}
  {}

  /** What is answered otherwise, and what is left of the packet: nothing but the data of an accepted User-Password
      changes, byte by byte to its xor with the hash over the key and the authenticator or the encoded block before. */
  lemma VerifyLeaves(h: Hash, pkt: seq<Byte>, key: seq<Byte>, req: Req)
    requires Sized(h) && |pkt| >= 20
    ensures
      var (r, u) := (Verified(h, pkt, key, req), Find(pkt, 20, 2));
      && r.status in {Ok, EINVAL, EBADMSG} && (r.status != Ok || !u.Found? ==> r.pkt == pkt)
      && (r.status == Ok && u.Found? ==>
            var lo, end := u.off + 2, u.off + pkt[u.off + 1];
            && |r.pkt| == |pkt| && r.pkt[..lo] == pkt[..lo] && r.pkt[end..] == pkt[end..]
            && forall k :: 0 <= k < end - lo ==>
                 var at := BlockOf(k);
                 var digest := h.md5(key + if at == 0 then pkt[4..20] else pkt[lo..end][at - 16..at]);
                 |digest| == 16 && r.pkt[lo..end][k] == Xor(pkt[lo..end][k], digest[k - at]))
  {
    hide Find, MsgAuthChecked, AuthChecked, Revealed, Xor, BlockOf;
    MsgAuthIff(h, pkt, key, req);
    AuthIff(h, pkt, key, req);
    var r, u := Verified(h, pkt, key, req), Find(pkt, 20, 2);
    if r.status == Ok && u.Found? {
      var d := AttrData(pkt, u.off);
      RevealedBytes(h, pkt[4..20], d, key);
      SpliceParts(pkt, u.off + 2, Revealed(h, pkt[4..20], d, key));
    }
  }

  lemma SpliceParts(pkt: seq<Byte>, at: nat, data: seq<Byte>)
    requires at + |data| <= |pkt|
    ensures var r := Splice(pkt, at, data);
      r[..at] == pkt[..at] && r[at..at + |data|] == data && r[at + |data|..] == pkt[at + |data|..]
  {}

  // ----- signing -----

  /** The attributes that are signed: a Message-Authenticator may be added. */
  function Asked(p: Packet, add: bool): seq<Attr>
  {
    p.attrs + if add then [Attr(80, seq(16, _ => 0))] else []
  }

  lemma AskedIs(h: Hash, p: Packet, key: seq<Byte>, add: bool)
    requires Sized(h) && Ready(p) && (add ==> CanAdd(p))
    ensures
      var q, all := Prepared(h, p, key, add), Asked(p, add);
      && |q.attrs| == |all|
      && forall i :: 0 <= i < |all| ==>
           && q.attrs[i].typ == all[i].typ
           && (i != Index(all, 80) && i != Index(p.attrs, 2) ==> q.attrs[i] == all[i])
  {
    hide Index, AttrsWire, Sized, Packet.Wire, Hidden, Hmac, MacInput;
    PasswordStep(h, p, key);
    var q := HidePassword(h, p, key);
    WireParts(p);
    WireParts(q);
    if add {
      AddReady(q);
      AddReady(p);
      assert Zeros(16) == seq(16, _ => 0);
    }
  }

  /** What radius_pkt_sign writes: the User-Password hidden with the packet's authenticator, the Message-Authenticator
      over the packet as it is sent but for the authenticator and zeros in its own place, and last the authenticator
      over everything else and the key. All other attributes are as before. */
  lemma SignedBytes(h: Hash, p: Packet, bufSize: nat, key: seq<Byte>, add: bool)
    requires Sized(h) && Ready(p) && bufSize < 65536
    ensures |p.Wire()| >= 20
    ensures
      var r := Signed(h, p.Wire(), bufSize, key, add);
      r.status == Ok ==>
        && (add ==> CanAdd(p)) && Prepared(h, p, key, add).Valid()
        && var q, s, all := SignAuth(h, Prepared(h, p, key, add), key), r.pkt, Asked(p, add);
           var zeros: seq<Byte> := seq(16, _ => 0);
           var m, j := Find(s, 20, 80), Index(p.attrs, 2);
           && q.Valid() && s == q.Wire() && q.code == p.code && q.id == p.id
           && q.auth == (if p.code in {1, 12, 13} then p.auth else h.md5(s[..4] + p.auth + s[20..] + key))
           && (m.Found? <==> add || HasMsgAuth(p))
           && (m.Found? ==>
                 && s[m.off + 1] == 18
                 && s[m.off + 2..m.off + 18] == h.hmac(key, s[..4] + p.auth + s[20..m.off + 2] + zeros + s[m.off + 18..]))
           && |q.attrs| == |all|
           && (forall i :: 0 <= i < |all| ==>
                 && q.attrs[i].typ == all[i].typ
                 && (i != Index(all, 80) && i != j ==> q.attrs[i] == all[i]))
  {
    hide Index, AttrsWire, Sized, Packet.Wire, Hidden, Hmac, MacInput, Find, Prepared, Signed, SignAuth, Asked, Xor, BlockOf;
    WireParts(p);
    SignedIs(h, p, bufSize, key, add);
    if Signed(h, p.Wire(), bufSize, key, add).status == Ok {
      var q := Prepared(h, p, key, add);
      PreparedFacts(h, p, key, add);
      AskedIs(h, p, key, add);
      AuthBytes(h, q, key);
      MacBytes(h, p, q, key);
    }
  }

  /** The hidden User-Password: each byte is xored with the hash over the key and the authenticator or the hidden block
      before. */
  lemma SignedPassword(h: Hash, p: Packet, key: seq<Byte>, add: bool)
    requires Sized(h) && Ready(p) && (add ==> CanAdd(p)) && Index(p.attrs, 2) < |p.attrs|
    ensures
      var q, j := Prepared(h, p, key, add), Index(p.attrs, 2);
      && q.Valid() && j < |q.attrs| && |q.attrs[j].data| == |p.attrs[j].data| && SignAuth(h, q, key).attrs == q.attrs
      && var c := q.attrs[j].data;
         forall k :: 0 <= k < |c| ==>
           var at := BlockOf(k);
           var digest := h.md5(key + if at == 0 then p.auth else c[at - 16..at]);
           |digest| == 16 && c[k] == Xor(p.attrs[j].data[k], digest[k - at])
  {
    hide Index, AttrsWire, Sized, Packet.Wire, Hidden, Hmac, MacInput, Find, Prepared, Xor, BlockOf;
    PreparedFacts(h, p, key, add);
    HiddenBytes(h, p.auth, p.attrs[Index(p.attrs, 2)].data, key);
  }

  lemma AuthBytes(h: Hash, q: Packet, key: seq<Byte>)
    requires Sized(h) && q.Valid()
    ensures
      var t := SignAuth(h, q, key);
      && t.Valid() && t.code == q.code && t.id == q.id && t.attrs == q.attrs && |t.Wire()| >= 20
      && t.auth == if q.code in {1, 12, 13} then q.auth else h.md5(t.Wire()[..4] + q.auth + t.Wire()[20..] + key)
  {
    hide AttrsWire, Packet.Wire, Sized;
    AuthStep(h, q, key);
    WireParts(q);
    WireParts(SignAuth(h, q, key));
  }

  lemma MacBytes(h: Hash, p: Packet, q: Packet, key: seq<Byte>)
    requires Sized(h) && q.Valid() && Ready(q)
    requires var i := Index(q.attrs, 80); i < |q.attrs| ==> q.attrs[i].data == Hmac(h, key, MacInput(q, i, p.auth))
    ensures SignAuth(h, q, key).Valid() && |SignAuth(h, q, key).Wire()| >= 20
    ensures
      var s, zeros: seq<Byte> := SignAuth(h, q, key).Wire(), seq(16, _ => 0);
      var m := Find(s, 20, 80);
      && (m.Found? <==> HasMsgAuth(q))
      && (m.Found? ==>
            && s[m.off + 1] == 18
            && s[m.off + 2..m.off + 18] == h.hmac(key, s[..4] + p.auth + s[20..m.off + 2] + zeros + s[m.off + 18..]))
  {
    hide Index, AttrsWire, Packet.Wire, Sized, Find;
    AuthBytes(h, q, key);
    var t, i := SignAuth(h, q, key), Index(q.attrs, 80);
    WireParts(t);
    FindWire(t, 80);
    if i < |q.attrs| {
      AttrOnWire(t, i);
      MacInputSame(q, t, i, p.auth);
      assert Zeros(16) == seq(16, _ => 0);
    }
  }

  // ----- building -----

  /** The authenticator of a new packet: the given one is kept for requests with a random one, for replies and for an
      Accounting-Response, zeros stand for the others and for an Accounting-Response that is given none. */
  lemma InitAuthIs(code: Byte, start: Start)
    ensures
      var random, zeroed, reply := code in {1, 12, 13}, code in {4, 40, 43}, code in {2, 3, 11, 41, 42, 44, 45};
      var r := InitAuth(code, start);
      && (start.Auth? && (random || reply || code == 5) ==> r == Sum(start.auth))
      && (zeroed || (start.NoAuth? && code == 5) ==> r == Sum(seq(16, _ => 0)))
      && (r.Err? <==> (!zeroed && !random && !reply && code != 5) || (start.NoAuth? && (random || reply)))
  {}

  /** Which lengths an attribute of each data type may have. */
  lemma LenOkIff(prm: Param, typ: Byte, len: nat)
    requires typ != 0
    ensures !LenOk(prm, typ, 0) && !LenOk(prm, 0, len)
    ensures prm.dataType == 0 ==> (LenOk(prm, typ, len) <==> len > 0)
    ensures prm.dataType in {1, 2, 254, 255} ==>
      (LenOk(prm, typ, len) <==>
         Max(if prm.lenMin == 255 then 0 else prm.lenMin, 1) <= len <= if prm.lenMax == 0 then len else prm.lenMax)
    ensures prm.dataType in {3, 8, 10} ==> (LenOk(prm, typ, len) <==> len == 4)
    ensures prm.dataType == 9 ==> (LenOk(prm, typ, len) <==> len == 8)
    ensures prm.dataType == 4 ==> (LenOk(prm, typ, len) <==> len == 16)
    ensures prm.dataType == 5 ==> (LenOk(prm, typ, len) <==> 2 <= len <= 18)
    ensures prm.dataType == 250 ==> (LenOk(prm, typ, len) <==> 5 <= len)
    ensures prm.dataType == 251 ==> (LenOk(prm, typ, len) <==> 2 <= len)
    ensures prm.dataType == 252 ==> (LenOk(prm, typ, len) <==> 3 <= len)
    ensures prm.dataType !in {0, 1, 2, 3, 4, 5, 8, 9, 10, 250, 251, 252, 254, 255} ==> !LenOk(prm, typ, len)
  {}

  /** Exactly which attributes can be added: none of type zero, no User-Password, a Message-Authenticator only if the
      list is well-formed and has none, any other one if its length is right, each if it fits attribute and buffer.
      Otherwise nothing changes. */
  lemma AttrAddedIff(pkt: seq<Byte>, bufSize: nat, typ: Byte, data: seq<Byte>, prm: Param)
    requires |pkt| >= 20 && bufSize < 65536 && |data| < 256
    ensures
      var r := AttrAdded(pkt, bufSize, typ, data, prm);
      && (r.status == Ok <==>
            if typ == 80 then Find(pkt, 20, 80) == NoAttr && |pkt| + 18 <= bufSize
            else typ != 0 && typ != 2 && LenOk(prm, typ, |data|) && |data| <= 253 && |pkt| + 2 + |data| <= bufSize)
      && (r.status != Ok ==> r.pkt == pkt)
      && (r.status == Ok && typ == 80 ==>
            var n, zeros: seq<Byte> := |pkt| + 18, seq(16, _ => 0);
            r.pkt == pkt[..2] + [n / 256, n % 256] + pkt[4..] + [80, 18] + zeros)
      && (r.status == Ok && typ != 80 ==>
            var n := |pkt| + 2 + |data|;
            r.pkt == pkt[..2] + [n / 256, n % 256] + pkt[4..] + [typ, |data| + 2] + data)
  {
    hide LenOk, Find, Appended, MsgAuthAdded, AttrAppended;
    if typ == 80 {
      MsgAuthAddedIs(pkt, bufSize);
    } else if typ != 0 && typ != 2 {
      AttrAppendedIs(pkt, bufSize, typ, data);
    }
  }

  lemma AttrAppendedIs(pkt: seq<Byte>, bufSize: nat, typ: Byte, data: seq<Byte>)
    requires |pkt| >= 20 && bufSize < 65536 && |data| < 256
    ensures
      var r, n := AttrAppended(pkt, bufSize, typ, data), |pkt| + 2 + |data|;
      && (r.status == Ok <==> |data| <= 253 && n <= bufSize)
      && (r.status != Ok ==> r.pkt == pkt)
      && (r.status == Ok ==> r.pkt == pkt[..2] + [n / 256, n % 256] + pkt[4..] + [typ, |data| + 2] + data)
  {
    hide Appended;
    if |data| <= 253 && |pkt| + 2 + |data| <= bufSize { AppendedIs(pkt, typ, data); }
  }

  lemma MsgAuthAddedIs(pkt: seq<Byte>, bufSize: nat)
    requires |pkt| >= 20 && bufSize < 65536
    ensures
      var r, zeros: seq<Byte>, n := MsgAuthAdded(pkt, bufSize), seq(16, _ => 0), |pkt| + 18;
      && (r.status == Ok <==> Find(pkt, 20, 80) == NoAttr && n <= bufSize)
      && (r.status != Ok ==> r.pkt == pkt)
      && (r.status == Ok ==> r.pkt == pkt[..2] + [n / 256, n % 256] + pkt[4..] + [80, 18] + zeros)
  {
    hide Appended, Find;
    assert Zeros(16) == seq(16, _ => 0);
    if |pkt| + 18 <= bufSize { AppendedIs(pkt, 80, Zeros(16)); }
  }

  lemma AppendedIs(pkt: seq<Byte>, typ: Byte, data: seq<Byte>)
    requires |pkt| >= 20 && |data| <= 253 && |pkt| + 2 + |data| < 65536
    ensures var n := |pkt| + 2 + |data|;
      Appended(pkt, typ, data) == pkt[..2] + [n / 256, n % 256] + pkt[4..] + [typ, |data| + 2] + data
  {}
}
