/** RADIUS packets as lists of attributes, and what signing, verifying and building mean for them. */
module RadiusPackets {
  import opened Common
  import opened RadiusPassword
  import opened RadiusWire

  datatype Attr = Attr(typ: Byte, data: seq<Byte>) {
    predicate Valid() { typ != 0 && |data| <= 253 }
  }

  datatype Packet = Packet(code: Byte, id: Byte, auth: seq<Byte>, attrs: seq<Attr>) {
    predicate Valid() { |auth| == HASH_SIZE && AllValid(attrs) && HDR_SIZE + |AttrsWire(attrs)| < 65536 }

    function Head(): seq<Byte>
      requires Valid()
    {
      [code, id] + LenBytes(HDR_SIZE + |AttrsWire(attrs)|)
    }

    function Wire(): seq<Byte>
      requires Valid()
    {
      Head() + auth + AttrsWire(attrs)
    }

    /** The packet with other data in attribute i. */
    function WithData(i: nat, data: seq<Byte>): Packet
      requires i < |attrs|
    {
      this.(attrs := attrs[i := attrs[i].(data := data)])
    }
  }

  predicate AllValid(attrs: seq<Attr>) { forall i :: 0 <= i < |attrs| ==> attrs[i].Valid() }

  function AttrWire(a: Attr): seq<Byte>
    requires a.Valid()
  {
    [a.typ, |a.data| + 2] + a.data
  }

  function AttrsWire(attrs: seq<Attr>): seq<Byte>
    requires AllValid(attrs)
  {
    if attrs == [] then [] else AttrWire(attrs[0]) + AttrsWire(attrs[1..])
  }

  /** The first attribute of a type, or the number of attributes. */
  function Index(attrs: seq<Attr>, typ: Byte): (i: nat)
    ensures i <= |attrs| && (i < |attrs| ==> attrs[i].typ == typ)
    ensures forall j :: 0 <= j < i ==> attrs[j].typ != typ
  {
    if attrs == [] || attrs[0].typ == typ then 0 else 1 + Index(attrs[1..], typ)
  }

  /** Types decide the index, not data. */
  lemma {:induction false} IndexTypes(s: seq<Attr>, t: seq<Attr>, typ: Byte)
    requires |s| == |t| && forall i :: 0 <= i < |s| ==> s[i].typ == t[i].typ
    ensures Index(s, typ) == Index(t, typ)
  {
    if s != [] { IndexTypes(s[1..], t[1..], typ); }
  }

  lemma {:induction false} IndexAppend(attrs: seq<Attr>, a: Attr, typ: Byte)
    ensures Index(attrs + [a], typ) ==
      if Index(attrs, typ) < |attrs| then Index(attrs, typ) else if a.typ == typ then |attrs| else |attrs| + 1
  {
    if attrs != [] {
      IndexAppend(attrs[1..], a, typ);
      assert (attrs + [a])[1..] == attrs[1..] + [a];
    }
  }

  // ----- lists on the wire -----

  lemma {:induction false} AttrsWireAppend(s: seq<Attr>, t: seq<Attr>)
    requires AllValid(s) && AllValid(t)
    ensures AllValid(s + t) && AttrsWire(s + t) == AttrsWire(s) + AttrsWire(t)
  {
    hide AttrWire;
    if s == [] {
      assert s + t == t;
    } else {
      AttrsWireAppend(s[1..], t);
      assert (s + t)[1..] == s[1..] + t;
    }
  }

  /** The bytes around attribute i. */
  lemma AttrsWireAt(attrs: seq<Attr>, i: nat)
    requires AllValid(attrs) && i < |attrs|
    ensures AllValid(attrs[..i]) && AllValid(attrs[i + 1..])
    ensures AttrsWire(attrs) == AttrsWire(attrs[..i]) + AttrWire(attrs[i]) + AttrsWire(attrs[i + 1..])
  {
    hide AttrWire;
    assert attrs == attrs[..i] + attrs[i..];
    AttrsWireAppend(attrs[..i], attrs[i..]);
    assert attrs[i..][1..] == attrs[i + 1..];
    var a, b, c := AttrsWire(attrs[..i]), AttrWire(attrs[i]), AttrsWire(attrs[i + 1..]);
    assert a + (b + c) == a + b + c;
  }

  /** One step of the search over a well-formed attribute. */
  lemma FindNext(pre: seq<Byte>, a: Attr, post: seq<Byte>, typ: Byte)
    requires |pre| >= HDR_SIZE && a.Valid()
    ensures Find(pre + AttrWire(a) + post, |pre|, typ) ==
      if a.typ == typ then Found(|pre|) else Find(pre + AttrWire(a) + post, |pre + AttrWire(a)|, typ)
  {
    var pkt := pre + AttrWire(a) + post;
    assert pkt[|pre|] == a.typ && pkt[|pre| + 1] == |a.data| + 2;
  }

  /** What is no attribute. */
  predicate Broken(rest: seq<Byte>) { |rest| < 2 || rest[0] == 0 || rest[1] < 2 || rest[1] > |rest| }

  lemma FindLast(pre: seq<Byte>, rest: seq<Byte>, typ: Byte)
    requires |pre| >= HDR_SIZE && (rest != [] ==> Broken(rest))
    ensures Find(pre + rest, |pre|, typ) == if rest == [] then NoAttr else BadAttr
  {
    var pkt := pre + rest;
    if |rest| >= 2 { assert pkt[|pre|] == rest[0] && pkt[|pre| + 1] == rest[1]; }
  }

  /** A list of attributes and what follows it: the first attribute of the type is found whatever follows, otherwise
      what is no attribute breaks the search, and the end of the packet ends it. */
  lemma {:induction false} FindStops(pre: seq<Byte>, attrs: seq<Attr>, rest: seq<Byte>, typ: Byte)
    requires |pre| >= HDR_SIZE && AllValid(attrs) && (rest != [] ==> Broken(rest))
    ensures
      var i, found := Index(attrs, typ), Find(pre + AttrsWire(attrs) + rest, |pre|, typ);
      found == if i < |attrs| then Found(|pre| + |AttrsWire(attrs[..i])|) else if rest == [] then NoAttr else BadAttr
    decreases |attrs|
  {
    hide AttrWire, Find, Broken, Index, AttrsWire;
    if attrs == [] {
      NoAttrs(pre, rest, typ);
      FindLast(pre, rest, typ);
    } else {
      var a, tail := attrs[0], AttrsWire(attrs[1..]);
      var pre' := pre + AttrWire(a);
      FirstAttr(attrs, typ);
      assert pre + (AttrWire(a) + tail) + rest == pre' + (tail + rest) == pre' + tail + rest;
      FindNext(pre, a, tail + rest, typ);
      if a.typ != typ { FindStops(pre', attrs[1..], rest, typ); }
    }
  }

  lemma NoAttrs(pre: seq<Byte>, rest: seq<Byte>, typ: Byte)
    ensures pre + AttrsWire([]) + rest == pre + rest && Index([], typ) == 0
  {}

  /** The list is its first attribute and the others. */
  lemma FirstAttr(attrs: seq<Attr>, typ: Byte)
    requires AllValid(attrs) && attrs != []
    ensures AttrsWire(attrs) == AttrWire(attrs[0]) + AttrsWire(attrs[1..])
    ensures attrs[0].typ == typ ==> Index(attrs, typ) == 0 && AttrsWire(attrs[..0]) == []
    ensures attrs[0].typ != typ ==>
      var j := Index(attrs[1..], typ);
      Index(attrs, typ) == j + 1 && AttrsWire(attrs[..j + 1]) == AttrWire(attrs[0]) + AttrsWire(attrs[1..][..j])
  {
    hide AttrWire;
    if attrs[0].typ != typ {
      var j := Index(attrs[1..], typ);
      assert attrs[..j + 1][1..] == attrs[1..][..j];
    }
  }

  /** The search on the wire finds the first attribute of the type. */
  lemma FindAttrs(pre: seq<Byte>, attrs: seq<Attr>, typ: Byte)
    requires |pre| >= HDR_SIZE && AllValid(attrs)
    ensures var i := Index(attrs, typ);
      Find(pre + AttrsWire(attrs), |pre|, typ) ==
        if i < |attrs| then Found(|pre| + |AttrsWire(attrs[..i])|) else NoAttr
  {
    hide AttrsWire, Find, Index;
    FindStops(pre, attrs, [], typ);
    assert pre + AttrsWire(attrs) + [] == pre + AttrsWire(attrs);
  }

  /** Where attribute i begins. */
  function Off(p: Packet, i: nat): nat
    requires p.Valid() && i <= |p.attrs|
  {
    HDR_SIZE + |AttrsWire(p.attrs[..i])|
  }

  lemma WireParts(p: Packet)
    requires p.Valid()
    ensures |p.Wire()| == HDR_SIZE + |AttrsWire(p.attrs)| && p.Wire()[..4] == p.Head() && Framed(p.Wire())
    ensures Authenticator(p.Wire()) == p.auth && p.Wire()[HDR_SIZE..] == AttrsWire(p.attrs) && p.Wire()[0] == p.code
    ensures p.Wire() == p.Head() + p.auth + AttrsWire(p.attrs)
  {
    hide AttrsWire;
    assert p.Wire()[2] == p.Head()[2] && p.Wire()[3] == p.Head()[3];
  }

  lemma FindWire(p: Packet, typ: Byte)
    requires p.Valid()
    ensures |p.Wire()| >= HDR_SIZE
    ensures var i := Index(p.attrs, typ);
      Find(p.Wire(), HDR_SIZE, typ) == if i < |p.attrs| then Found(Off(p, i)) else NoAttr
  {
    hide AttrsWire, Find, Index;
    FindAttrs(p.Head() + p.auth, p.attrs, typ);
  }

  /** Attribute i on the wire. */
  lemma AttrOnWire(p: Packet, i: nat)
    requires p.Valid() && i < |p.attrs|
    ensures var off := Off(p, i);
      && AttrAt(p.Wire(), off) && p.Wire()[off + 1] == |p.attrs[i].data| + 2 && AttrData(p.Wire(), off) == p.attrs[i].data
      && p.Wire()[HDR_SIZE..off + 2] == AttrsWire(p.attrs[..i]) + [p.attrs[i].typ, |p.attrs[i].data| + 2]
      && p.Wire()[off + 2 + |p.attrs[i].data|..] == AttrsWire(p.attrs[i + 1..])
      && p.Wire() == p.Head() + p.auth + AttrsWire(p.attrs[..i]) + AttrWire(p.attrs[i]) + AttrsWire(p.attrs[i + 1..])
  {
    hide AttrsWire;
    AttrsWireAt(p.attrs, i);
    var a, d := AttrsWire(p.attrs[..i]), p.attrs[i].data;
    var pre, post := p.Head() + p.auth + a, AttrsWire(p.attrs[i + 1..]);
    assert p.Wire() == pre + [p.attrs[i].typ, |d| + 2] + d + post;
  }

  lemma SpliceMid(pre: seq<Byte>, d: seq<Byte>, e: seq<Byte>, post: seq<Byte>)
    requires |d| == |e|
    ensures Splice(pre + d + post, |pre|, e) == pre + e + post
  {}

  lemma WithDataValid(p: Packet, i: nat, data: seq<Byte>)
    requires p.Valid() && i < |p.attrs| && |data| == |p.attrs[i].data|
    ensures p.WithData(i, data).Valid() && p.WithData(i, data).Head() == p.Head() && Off(p.WithData(i, data), i) == Off(p, i)
    ensures Off(p, i) + 2 + |data| <= |p.Wire()|
    ensures Splice(p.Wire(), Off(p, i) + 2, data) == p.WithData(i, data).Wire()
  {
    hide AttrsWire;
    var q := p.WithData(i, data);
    AttrsWireAt(p.attrs, i);
    assert AllValid(q.attrs);
    AttrsWireAt(q.attrs, i);
    assert q.attrs[..i] == p.attrs[..i] && q.attrs[i + 1..] == p.attrs[i + 1..];
    WireAround(p, i);
    WireAround(q, i);
    SpliceMid(Around(p, i), p.attrs[i].data, data, AttrsWire(p.attrs[i + 1..]));
  }

  /** The bytes before the data of attribute i. */
  function Around(p: Packet, i: nat): seq<Byte>
    requires p.Valid() && i < |p.attrs|
  {
    p.Head() + p.auth + AttrsWire(p.attrs[..i]) + [p.attrs[i].typ, |p.attrs[i].data| + 2]
  }

  lemma WireAround(p: Packet, i: nat)
    requires p.Valid() && i < |p.attrs|
    ensures AllValid(p.attrs[i + 1..])
    ensures |Around(p, i)| == Off(p, i) + 2 && p.Wire() == Around(p, i) + p.attrs[i].data + AttrsWire(p.attrs[i + 1..])
  {
    hide AttrsWire;
    AttrOnWire(p, i);
  }

  lemma WithAuth(p: Packet, auth: seq<Byte>)
    requires p.Valid() && |auth| == HASH_SIZE
    ensures p.(auth := auth).Valid() && Splice(p.Wire(), 4, auth) == p.(auth := auth).Wire()
  {
    hide AttrsWire;
    SpliceMid(p.Head(), p.auth, auth, AttrsWire(p.attrs));
  }

  lemma WithAttr(p: Packet, a: Attr)
    requires p.Valid() && a.Valid() && |p.Wire()| + 2 + |a.data| < 65536
    ensures p.(attrs := p.attrs + [a]).Valid()
    ensures Appended(p.Wire(), a.typ, a.data) == p.(attrs := p.attrs + [a]).Wire()
  {
    hide AttrsWire, LenBytes, Packet.Wire;
    AttrsWireAppend(p.attrs, [a]);
    AttrsWireOne(a);
    HeadParts(p);
    WireIs(p.(attrs := p.attrs + [a]));
    Regrouped([p.code, p.id] + LenBytes(|p.Wire()| + 2 + |a.data|), p.auth, AttrsWire(p.attrs), [a.typ, |a.data| + 2], a.data);
  }

  lemma Regrouped(x: seq<Byte>, y: seq<Byte>, z: seq<Byte>, u: seq<Byte>, v: seq<Byte>)
    ensures x + (y + z) + u + v == x + y + (z + (u + v))
  {}

  lemma HeadParts(p: Packet)
    requires p.Valid()
    ensures |p.Wire()| == HDR_SIZE + |AttrsWire(p.attrs)|
    ensures p.Wire()[..2] == [p.code, p.id] && p.Wire()[4..] == p.auth + AttrsWire(p.attrs)
  {
    hide AttrsWire;
  }

  lemma WireIs(p: Packet)
    requires p.Valid()
    ensures p.Wire() == [p.code, p.id] + LenBytes(HDR_SIZE + |AttrsWire(p.attrs)|) + p.auth + AttrsWire(p.attrs)
  {
    hide AttrsWire;
  }

  lemma AttrsWireOne(a: Attr)
    requires a.Valid()
    ensures AttrsWire([a]) == [a.typ, |a.data| + 2] + a.data
  {}
}
