/** The domain name coding of include/proto/dhcpv6.h (section 3.1 of RFC 1035). */
module DnsName {
  import opened Common

  const DOT: Byte := 46

  /** DHCP6_DNS_SEQ_LABEL_DATA_MASK; a label byte with one of the two higher bits is above it. */
  const LABEL_MAX: nat := 63

  // ----- names and labels -----

  /** The labels of a name, between its dots. */
  function Split(name: seq<Byte>): (r: seq<seq<Byte>>)
    ensures r != []
  {
    if name == [] then [[]]
    else if name[0] == DOT then [[]] + Split(name[1..])
    else
      var rest := Split(name[1..]);
      [[name[0]] + rest[0]] + rest[1..]
  }

  predicate NoDot(s: seq<Byte>) { forall i :: 0 <= i < |s| ==> s[i] != DOT }

  /** The first label ends at the first dot. */
  lemma {:induction false} SplitLabel(lbl: seq<Byte>, rest: seq<Byte>)
    requires NoDot(lbl)
    ensures Split(lbl + [DOT] + rest) == [lbl] + Split(rest)
    ensures Split(lbl) == [lbl]
  {
    if lbl == [] {
      assert lbl + [DOT] + rest == [DOT] + rest;
      assert ([DOT] + rest)[1..] == rest;
    } else {
      SplitLabel(lbl[1..], rest);
      var s := lbl + [DOT] + rest;
      assert s[1..] == lbl[1..] + [DOT] + rest;
      assert [lbl[0]] + lbl[1..] == lbl;
    }
  }

  /** Every label followed by a dot. */
  function Dotted(labels: seq<seq<Byte>>): seq<Byte>
  {
    if labels == [] then [] else labels[0] + [DOT] + Dotted(labels[1..])
  }

  lemma {:induction false} DottedAppend(s: seq<seq<Byte>>, t: seq<seq<Byte>>)
    ensures Dotted(s + t) == Dotted(s) + Dotted(t)
  {
    hide Dotted;
    DottedNone();
    if s == [] {
      assert s + t == t && [] + Dotted(t) == Dotted(t);
    } else {
      DottedAppend(s[1..], t);
      DottedNext(s[0], s[1..]);
      DottedNext(s[0], s[1..] + t);
      assert s == [s[0]] + s[1..] && s + t == [s[0]] + (s[1..] + t);
      assert s[0] + [DOT] + (Dotted(s[1..]) + Dotted(t)) == s[0] + [DOT] + Dotted(s[1..]) + Dotted(t);
    }
  }

  lemma DottedNone()
    ensures Dotted([]) == []
  {}

  lemma DottedOne(l: seq<Byte>)
    ensures Dotted([l]) == l + [DOT]
  {
    assert [l][1..] == [];
  }

  /** The labels with dots between them. */
  function Join(labels: seq<seq<Byte>>): seq<Byte>
  {
    if labels == [] then [] else Dotted(labels)[..|Dotted(labels)| - 1]
  }

  lemma SplitNext(name: seq<Byte>)
    ensures Split([]) == [[]]
    ensures name != [] ==>
      var rest := Split(name[1..]);
      Split(name) == if name[0] == DOT then [[]] + rest else [[name[0]] + rest[0]] + rest[1..]
  {}

  lemma DottedNext(l: seq<Byte>, tail: seq<seq<Byte>>)
    ensures Dotted([l] + tail) == l + [DOT] + Dotted(tail)
  {
    assert ([l] + tail)[1..] == tail;
  }

  lemma {:induction false} DottedSplit(name: seq<Byte>)
    ensures Dotted(Split(name)) == name + [DOT]
  {
    hide Split, Dotted;
    SplitNext(name);
    if name == [] {
      DottedOne([]);
    } else {
      DottedSplit(name[1..]);
      var rest := Split(name[1..]);
      if name[0] == DOT {
        DottedNext([], rest);
        assert [] + [DOT] + Dotted(rest) == [DOT] + Dotted(rest);
      } else {
        DottedNext([name[0]] + rest[0], rest[1..]);
        DottedNext(rest[0], rest[1..]);
        assert [rest[0]] + rest[1..] == rest;
        assert [name[0]] + rest[0] + [DOT] + Dotted(rest[1..]) == [name[0]] + (rest[0] + [DOT] + Dotted(rest[1..]));
      }
      assert name + [DOT] == [name[0]] + (name[1..] + [DOT]);
    }
  }

  /** Splitting a name loses nothing. */
  lemma JoinSplit(name: seq<Byte>)
    ensures Join(Split(name)) == name
  {
    DottedSplit(name);
  }

  /** What the encoder accepts of a label. */
  predicate Fits(lbl: seq<Byte>) { 0 < |lbl| <= LABEL_MAX }

  predicate AllFit(labels: seq<seq<Byte>>) { forall i :: 0 <= i < |labels| ==> Fits(labels[i]) }

  // ----- the wire format -----

  /** Every label after its length. */
  function Wire(labels: seq<seq<Byte>>): seq<Byte>
    requires AllFit(labels)
  {
    if labels == [] then [] else [|labels[0]|] + labels[0] + Wire(labels[1..])
  }

  lemma {:induction false} WireAppend(s: seq<seq<Byte>>, l: seq<Byte>)
    requires AllFit(s) && Fits(l)
    ensures AllFit(s + [l]) && Wire(s + [l]) == Wire(s) + [|l|] + l
  {
    if s == [] {
      assert s + [l] == [l] && [l][1..] == [];
    } else {
      WireAppend(s[1..], l);
      assert (s + [l])[1..] == s[1..] + [l];
    }
  }

  lemma {:induction false} WireSize(labels: seq<seq<Byte>>)
    requires AllFit(labels)
    ensures |Wire(labels)| == |Dotted(labels)|
  {
    if labels != [] { WireSize(labels[1..]); }
  }

  /** Reading labels from a position: all of them and the position after them, or the labels before one
      that is malformed. */
  datatype Parsed = Good(labels: seq<seq<Byte>>, next: nat) | Bad(labels: seq<seq<Byte>>)

  function Parse(buf: seq<Byte>, pos: nat): (r: Parsed)
    requires pos <= |buf|
    ensures r.Good? ==> pos <= r.next <= |buf|
    decreases |buf| - pos
  {
    if pos == |buf| then Good([], pos)
    else if buf[pos] == 0 then Good([], pos + 1)
    else if buf[pos] > LABEL_MAX || pos + 1 + buf[pos] > |buf| then Bad([])
    else After([buf[pos + 1..pos + 1 + buf[pos]]], Parse(buf, pos + 1 + buf[pos]))
  }

  function After(labels: seq<seq<Byte>>, r: Parsed): Parsed
  {
    if r.Good? then Good(labels + r.labels, r.next) else Bad(labels + r.labels)
  }

  lemma AfterAfter(s: seq<seq<Byte>>, l: seq<Byte>, r: Parsed)
    ensures After(s, After([l], r)) == After(s + [l], r)
  {
    assert s + ([l] + r.labels) == s + [l] + r.labels;
  }

  /** The reading from `start` has got to `pos` by way of the labels `done`. */
  ghost predicate Reading(buf: seq<Byte>, start: nat, pos: nat, done: seq<seq<Byte>>)
  {
    start <= pos <= |buf| && Parse(buf, start) == After(done, Parse(buf, pos))
  }

  lemma ReadingStart(buf: seq<Byte>, start: nat)
    requires start <= |buf|
    ensures Reading(buf, start, start, []) && |Dotted([])| == 0 && Dotted([]) == []
    ensures start == |buf| ==> Parse(buf, start) == Good([], start)
  {
    var r := Parse(buf, start);
    assert [] + r.labels == r.labels;
  }

  lemma ReadingStops(buf: seq<Byte>, start: nat, pos: nat, done: seq<seq<Byte>>)
    requires Reading(buf, start, pos, done)
    ensures pos == |buf| ==> Parse(buf, start) == Good(done, pos)
    ensures pos < |buf| && buf[pos] == 0 ==> Parse(buf, start) == Good(done, pos + 1)
    ensures pos < |buf| && (buf[pos] > LABEL_MAX || pos + 1 + buf[pos] > |buf|) ==> Parse(buf, start) == Bad(done)
  {
    assert done + [] == done;
  }

  lemma ReadingOn(buf: seq<Byte>, start: nat, pos: nat, done: seq<seq<Byte>>)
    requires Reading(buf, start, pos, done)
    requires pos < |buf| && 0 < buf[pos] <= LABEL_MAX && pos + 1 + buf[pos] <= |buf|
    ensures var l := buf[pos + 1..pos + 1 + buf[pos]];
      && Reading(buf, start, pos + 1 + buf[pos], done + [l])
      && Dotted(done + [l]) == Dotted(done) + l + [DOT]
      && (pos + 1 + buf[pos] == |buf| ==> Parse(buf, start) == Good(done + [l], |buf|))
      && |Dotted(Parse(buf, start).labels)| >= |Dotted(done)| + |l| + 1
  {
    hide Dotted;
    var l := buf[pos + 1..pos + 1 + buf[pos]];
    var r := Parse(buf, pos + 1 + buf[pos]);
    AfterAfter(done, l, r);
    DottedAppend(done, [l]);
    DottedOne(l);
    DottedAppend(done + [l], r.labels);
    ReadingStops(buf, start, pos + 1 + buf[pos], done + [l]);
    assert Dotted(done) + (l + [DOT]) == Dotted(done) + l + [DOT];
  }

  lemma JoinSize(labels: seq<seq<Byte>>)
    ensures |Join(labels)| == if Dotted(labels) == [] then 0 else |Dotted(labels)| - 1
    ensures Dotted(labels) == [] <==> labels == []
  {}

  /** Labels on the wire are read back, wherever they stand, up to what ends them: the end of the buffer, a zero, or a
      byte that is no length, either above 63 or beyond the end. */
  lemma {:induction false} ParseStops(pre: seq<Byte>, labels: seq<seq<Byte>>, rest: seq<Byte>)
    requires AllFit(labels) && (rest == [] || rest[0] == 0 || rest[0] > 63 || rest[0] >= |rest|)
    ensures
      var end := |pre| + |Wire(labels)|;
      Parse(pre + Wire(labels) + rest, |pre|) ==
        if rest == [] then Good(labels, end) else if rest[0] == 0 then Good(labels, end + 1) else Bad(labels)
    decreases |labels|
  {
    hide Parse, Wire;
    WireNext(labels);
    if labels == [] {
      assert pre + [] + rest == pre + rest;
      ParseEnds(pre, rest);
    } else {
      var l, tail := labels[0], Wire(labels[1..]);
      var pre' := pre + [|l|] + l;
      assert pre + ([|l|] + l + tail) + rest == pre' + (tail + rest) == pre' + tail + rest;
      ParseLabel(pre, l, tail + rest);
      ParseStops(pre', labels[1..], rest);
      assert [l] + labels[1..] == labels;
    }
  }

  lemma WireNext(labels: seq<seq<Byte>>)
    requires AllFit(labels)
    ensures Wire([]) == []
    ensures labels != [] ==> Fits(labels[0]) && Wire(labels) == [|labels[0]|] + labels[0] + Wire(labels[1..])
  {}

  lemma ParseEnds(pre: seq<Byte>, rest: seq<Byte>)
    requires rest == [] || rest[0] == 0 || rest[0] > 63 || rest[0] >= |rest|
    ensures Parse(pre + rest, |pre|) ==
      if rest == [] then Good([], |pre|) else if rest[0] == 0 then Good([], |pre| + 1) else Bad([])
  {
    if rest != [] { assert (pre + rest)[|pre|] == rest[0]; }
  }

  lemma ParseLabel(pre: seq<Byte>, l: seq<Byte>, post: seq<Byte>)
    requires Fits(l)
    ensures var pre' := pre + [|l|] + l;
      Parse(pre' + post, |pre|) == After([l], Parse(pre' + post, |pre'|))
  {
    var buf := pre + [|l|] + l + post;
    assert buf[|pre|] == |l| && buf[|pre| + 1..|pre| + 1 + |l|] == l;
  }

  lemma ParseWire(pre: seq<Byte>, labels: seq<seq<Byte>>, post: seq<Byte>)
    requires AllFit(labels)
    ensures var buf := pre + Wire(labels) + [0] + post;
      Parse(buf, |pre|) == Good(labels, |pre| + |Wire(labels)| + 1)
  {
    hide Wire, Parse;
    ParseStops(pre, labels, [0] + post);
    assert pre + Wire(labels) + ([0] + post) == pre + Wire(labels) + [0] + post;
  }

  /** The name "www.ru" in bytes. */
  lemma OnTheWire()
    ensures var labels: seq<seq<Byte>> := [[119, 119, 119], [114, 117]];
      && Split([119, 119, 119, 46, 114, 117]) == labels && AllFit(labels)
      && Wire(labels) + [0] == [3, 119, 119, 119, 2, 114, 117, 0]
  {
    hide Split, Fits;
    SplitLabel([119, 119, 119], [114, 117]);
    SplitLabel([114, 117], []);
    assert [119, 119, 119] + [DOT] + [114, 117] == [119, 119, 119, 46, 114, 117];
    FitIs([119, 119, 119]);
    FitIs([114, 117]);
    WireAppend([], [119, 119, 119]);
    WireAppend([[119, 119, 119]], [114, 117]);
  }

  lemma FitIs(lbl: seq<Byte>)
    ensures Fits(lbl) <==> 1 <= |lbl| <= 63
  {}

  /** Decoding the wire form of an accepted name gives back the name, whatever follows it. */
  lemma RoundTrip(name: seq<Byte>, post: seq<Byte>)
    requires AllFit(Split(name))
    ensures Parse(Wire(Split(name)) + [0] + post, 0) == Good(Split(name), |name| + 2)
    ensures Join(Split(name)) == name
  {
    var labels := Split(name);
    ParseWire([], labels, post);
    assert [] + Wire(labels) + [0] + post == Wire(labels) + [0] + post;
    WireSize(labels);
    DottedSplit(name);
    JoinSplit(name);
  }

  // ----- the coder -----

  /** dhcp6_dns_encode. */
  method Encode(name: seq<Byte>, buf: array<Byte>, bufSize: nat) returns (status: Status, sizeRet: nat)
    requires bufSize <= buf.Length
    modifies buf
    ensures sizeRet == if name == [] then 1 else |name| + 2
    ensures status == if sizeRet > bufSize then ENOBUFS
                      else if name == [] || AllFit(Split(name)) then Ok else EINVAL
    ensures status == ENOBUFS ==> buf[..] == old(buf[..])
    ensures status == Ok && name == [] ==> buf[..1] == [0]
    ensures status == Ok && name != [] ==> buf[..sizeRet] == Wire(Split(name)) + [0]
    ensures buf[Min(sizeRet, buf.Length)..] == old(buf[Min(sizeRet, buf.Length)..])
  {
    sizeRet := if |name| == 0 then 1 else |name| + 2;
    if sizeRet > bufSize { return ENOBUFS, sizeRet; }
    if |name| == 0 {
      buf[0] := 0;
      return Ok, sizeRet;
    }
    ghost var top := buf[sizeRet..];
    forall k | 0 <= k < |name| { buf[1 + k] := name[k]; }
    buf[|name| + 1] := 0;
    assert buf[..sizeRet][1..] == name + [0] && buf[sizeRet..] == top;
    status := PutLengths(name, buf, sizeRet);
  }

  /** The first bytes b of the buffer after the labels `done`, which end before name position at. */
  ghost predicate Written(name: seq<Byte>, b: seq<Byte>, at: nat, done: seq<seq<Byte>>)
  {
    && |b| == |name| + 2 && at <= |name| + 1 && AllFit(done)
    && b[..at] == Wire(done) && b[at + 1..] == (name + [0])[at..] && b[|b| - 1] == 0
  }

  /** Name positions from `at` to i - 1 hold no dot, and the labels before them are done. */
  ghost predicate Scanned(name: seq<Byte>, at: nat, i: nat, done: seq<seq<Byte>>)
  {
    if i == |name| + 2 then at == |name| + 1 && Split(name) == done
    else at < i && at <= |name| && i <= |name| + 1 && Split(name) == done + Split(name[at..]) && NoDot(name[at..i - 1])
  }

  lemma ScanStart(name: seq<Byte>, b: seq<Byte>)
    requires name != [] && |b| == |name| + 2 && b[1..] == name + [0]
    ensures Written(name, b, 0, []) && Scanned(name, 0, 1, [])
  {
    assert name[0..] == name && (name + [0])[0..] == name + [0] && [] + Split(name) == Split(name);
    assert b[|b| - 1] == b[1..][|name|];
  }

  lemma ScanNext(name: seq<Byte>, b: seq<Byte>, at: nat, i: nat, done: seq<seq<Byte>>)
    requires Written(name, b, at, done) && Scanned(name, at, i, done) && i <= |name| && b[i] != DOT
    ensures Scanned(name, at, i + 1, done)
  {
    assert b[i] == b[at + 1..][i - at - 1] == name[i - 1];
    assert name[at..i] == name[at..i - 1] + [name[i - 1]];
  }

  /** A label that ends at i: it is the next one of the name. */
  lemma ScanLabel(name: seq<Byte>, b: seq<Byte>, at: nat, i: nat, done: seq<seq<Byte>>)
    requires Written(name, b, at, done) && Scanned(name, at, i, done) && i <= |name| + 1
    requires i <= |name| ==> b[i] == DOT
    ensures var lbl := name[at..i - 1];
      && |done| < |Split(name)| && Split(name)[|done|] == lbl
      && (Fits(lbl) ==> Scanned(name, i, i + 1, done + [lbl]) && Written(name, b[at := |lbl|], i, done + [lbl]))
  {
    hide Split, Wire;
    var lbl, n := name[at..i - 1], name + [0];
    if i <= |name| { assert b[i] == b[at + 1..][i - at - 1] == n[i - 1]; }
    LabelEnds(name, at, i);
    if i <= |name| {
      assert done + ([lbl] + Split(name[i..])) == done + [lbl] + Split(name[i..]);
    }
    if Fits(lbl) {
      WireAppend(done, lbl);
      var b' := b[at := |lbl|];
      assert b[at + 1..i] == b[at + 1..][..i - at - 1] == n[at..][..i - at - 1] == lbl;
      assert b'[..i] == b[..at] + [|lbl|] + b[at + 1..i];
      assert b'[i + 1..] == b[at + 1..][i - at..] == n[at..][i - at..] == n[i..];
    }
  }

  lemma ScanDone(name: seq<Byte>, b: seq<Byte>, at: nat, done: seq<seq<Byte>>)
    requires Written(name, b, at, done) && Scanned(name, at, |name| + 2, done)
    ensures AllFit(Split(name)) && b == Wire(Split(name)) + [0]
  {
    assert b == b[..at] + [b[at]] + b[at + 1..];
  }

  /** The loop of dhcp6_dns_encode: dots become lengths. */
  method PutLengths(name: seq<Byte>, buf: array<Byte>, sizeRet: nat) returns (status: Status)
    requires name != [] && sizeRet == |name| + 2 <= buf.Length
    requires buf[..sizeRet][1..] == name + [0]
    modifies buf
    ensures status == if AllFit(Split(name)) then Ok else EINVAL
    ensures status == Ok ==> buf[..sizeRet] == Wire(Split(name)) + [0]
    ensures buf[sizeRet..] == old(buf[sizeRet..])
  {
    hide Split, Wire, Written, Scanned;
    var lblIdx: nat := 0;
    ghost var done: seq<seq<Byte>> := [];
    ScanStart(name, buf[..sizeRet]);
    for i := 1 to sizeRet
      invariant lblIdx < i && Written(name, buf[..sizeRet], lblIdx, done) && Scanned(name, lblIdx, i, done)
      invariant buf[sizeRet..] == old(buf[sizeRet..])
    {
      if DOT != buf[i] && i < sizeRet - 1 {
        ScanNext(name, buf[..sizeRet], lblIdx, i, done);
        continue;
      }
      var len := (i - 1) - lblIdx;
      ScanLabel(name, buf[..sizeRet], lblIdx, i, done);
      if 0 == len || LABEL_MAX < len { return EINVAL; }
      ghost var b := buf[..sizeRet];
      buf[lblIdx] := len;
      assert buf[..sizeRet] == b[lblIdx := buf[lblIdx]];
      done := done + [name[lblIdx..i - 1]];
      lblIdx := i;
    }
    ScanDone(name, buf[..sizeRet], lblIdx, done);
    return Ok;
  }

  /** A label ends at a dot or at the end of the name. */
  lemma LabelEnds(name: seq<Byte>, from: nat, i: nat)
    requires from < i <= |name| + 1 && from <= |name| && NoDot(name[from..i - 1])
    requires i <= |name| ==> name[i - 1] == DOT
    ensures Split(name[from..]) ==
      if i <= |name| then [name[from..i - 1]] + Split(name[i..]) else [name[from..i - 1]]
  {
    var lbl := name[from..i - 1];
    if i <= |name| {
      assert name[from..] == lbl + [DOT] + name[i..];
      SplitLabel(lbl, name[i..]);
    } else {
      assert name[from..] == lbl;
      SplitLabel(lbl, []);
    }
  }

  /** dhcp6_dns_decode_calc_size; without an offset argument reading starts at 0. */
  method DecodeCalcSize(buf: seq<Byte>, hasOff: bool, off: nat) returns (status: Status, next: nat, nameLen: nat)
    ensures buf == [] || (hasOff && off >= |buf|) ==> status == EINVAL
    ensures buf != [] && (hasOff ==> off < |buf|) ==> SizeFound(Parse(buf, if hasOff then off else 0), status, next, nameLen)
  {
    if |buf| == 0 { return EINVAL, off, 0; }
    if hasOff && off >= |buf| { return EINVAL, off, 0; }
    status, next, nameLen := CalcLoop(buf, if hasOff then off else 0);
  }

  /** The answer of dhcp6_dns_decode_calc_size. */
  predicate SizeFound(p: Parsed, status: Status, next: nat, nameLen: nat)
  {
    status == (if p.Good? then Ok else EBADMSG) && (p.Good? ==> next == p.next && nameLen == |Join(p.labels)|)
  }

  method CalcLoop(buf: seq<Byte>, start: nat) returns (status: Status, next: nat, nameLen: nat)
    requires start <= |buf|
    ensures SizeFound(Parse(buf, start), status, next, nameLen)
  {
    hide Parse, Dotted, Join, Reading;
    var rpos: nat, size: nat := start, 0;
    ghost var done: seq<seq<Byte>> := [];
    ReadingStart(buf, start);
    while rpos < |buf|
      invariant rpos <= |buf| && Reading(buf, start, rpos, done) && size == |Dotted(done)|
      invariant rpos == |buf| ==> Parse(buf, start) == Good(done, rpos)
    {
      ReadingStops(buf, start, rpos, done);
      var lbl := buf[rpos];
      rpos := rpos + 1;
      if 0 == lbl { break; }
      if lbl > LABEL_MAX { return EBADMSG, start, 0; }
      rpos := rpos + lbl;
      if rpos > |buf| { return EBADMSG, start, 0; }
      ReadingOn(buf, start, rpos - lbl - 1, done);
      size := size + lbl + 1;
      done := done + [buf[rpos - lbl..rpos]];
    }
    JoinSize(done);
    return Ok, rpos, if 0 != size then size - 1 else size;
  }

  /** dhcp6_dns_decode, beyond its argument checks: it needs one byte more than the length that
      dhcp6_dns_decode_calc_size reports, and then reports the same length and next offset. */
  method Decode(buf: seq<Byte>, hasOff: bool, off: nat, name: array<Byte>, nameBufSize: nat)
    returns (status: Status, next: nat, nameLen: nat)
    requires nameBufSize <= name.Length
    modifies name
    ensures buf == [] || nameBufSize == 0 || (hasOff && off >= |buf|) ==> status == EINVAL
    ensures buf != [] && nameBufSize > 0 && (hasOff ==> off < |buf|) ==>
      NameFound(Parse(buf, if hasOff then off else 0), nameBufSize, status, next, nameLen, name[..])
    ensures forall k :: nameBufSize <= k < name.Length ==> name[k] == old(name[k])
  {
    if |buf| == 0 || nameBufSize == 0 { return EINVAL, off, 0; }
    if hasOff && off >= |buf| { return EINVAL, off, 0; }
    status, next, nameLen := DecodeLoop(buf, if hasOff then off else 0, name, nameBufSize);
  }

  /** The answer of dhcp6_dns_decode. */
  predicate NameFound(p: Parsed, room: nat, status: Status, next: nat, nameLen: nat, name: seq<Byte>)
  {
    && status == (if |Join(p.labels)| >= room then ENOBUFS else if p.Good? then Ok else EBADMSG)
    && (status == Ok ==>
      next == p.next && nameLen == |Join(p.labels)| < |name| && name[..nameLen] == Join(p.labels) && name[nameLen] == 0)
  }

  method DecodeLoop(buf: seq<Byte>, start: nat, name: array<Byte>, nameBufSize: nat)
    returns (status: Status, next: nat, nameLen: nat)
    requires start <= |buf| && 0 < nameBufSize <= name.Length
    modifies name
    ensures NameFound(Parse(buf, start), nameBufSize, status, next, nameLen, name[..])
    ensures forall k :: nameBufSize <= k < name.Length ==> name[k] == old(name[k])
  {
    hide Parse, Dotted, Join, Reading;
    var rpos: nat, wpos: nat := start, 0;
    ghost var done: seq<seq<Byte>> := [];
    ReadingStart(buf, start);
    while rpos < |buf|
      invariant rpos <= |buf| && Reading(buf, start, rpos, done)
      invariant wpos <= nameBufSize && name[..wpos] == Dotted(done)
      invariant rpos == |buf| ==> Parse(buf, start) == Good(done, rpos)
      invariant forall k :: nameBufSize <= k < name.Length ==> name[k] == old(name[k])
    {
      ReadingStops(buf, start, rpos, done);
      JoinSize(done);
      var lbl := buf[rpos];
      rpos := rpos + 1;
      if 0 == lbl { break; }
      if lbl > LABEL_MAX { return EBADMSG, start, 0; }
      if rpos + lbl > |buf| { return EBADMSG, start, 0; }
      ReadingOn(buf, start, rpos - 1, done);
      JoinSize(Parse(buf, start).labels);
      if wpos + lbl + 1 > nameBufSize { return ENOBUFS, start, 0; }
      PutLabel(name, wpos, buf[rpos..rpos + lbl]);
      done := done + [buf[rpos..rpos + lbl]];
      wpos := wpos + lbl + 1;
      rpos := rpos + lbl;
    }
    nameLen := Terminate(name, wpos, nameBufSize, done);
    return Ok, rpos, nameLen;
  }

  /** A label and its dot are written. */
  method PutLabel(name: array<Byte>, wpos: nat, lbl: seq<Byte>)
    requires wpos + |lbl| + 1 <= name.Length
    modifies name
    ensures name[..wpos + |lbl| + 1] == old(name[..wpos]) + lbl + [DOT]
    ensures forall k :: wpos + |lbl| + 1 <= k < name.Length ==> name[k] == old(name[k])
  {
    forall k | 0 <= k < |lbl| { name[wpos + k] := lbl[k]; }
    name[wpos + |lbl|] := DOT;
  }

  /** The last dot, if there is one, becomes the end of the string. */
  method Terminate(name: array<Byte>, wpos: nat, room: nat, ghost done: seq<seq<Byte>>) returns (nameLen: nat)
    requires wpos <= room && 0 < room <= name.Length && name[..wpos] == Dotted(done)
    modifies name
    ensures nameLen == |Join(done)| < room && name[..nameLen] == Join(done) && name[nameLen] == 0
    ensures forall k :: room <= k < name.Length ==> name[k] == old(name[k])
  {
    hide Dotted;
    JoinSize(done);
    nameLen := if wpos != 0 then wpos - 1 else wpos;
    ghost var w := name[..wpos];
    name[nameLen] := 0;
    assert name[..nameLen] == w[..nameLen];
  }
}
