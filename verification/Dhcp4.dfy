/** The DHCPv4 aggregate option buffer of include/proto/dhcpv4.h (section 5 of RFC 3396): a bitmap of codes and
    an inline-or-heap store per code. */
module Dhcp4 {
  import opened Common
  import opened ByteBits
  import opened Dhcp4Wire

  /** The data pointer's own bytes hold short data. */
  const INLINE: nat := 8

  /** dhcp4_ao_buf_opt_t. Inline data lies in the storage of the pointer; heap data may be followed by
      bytes of unknown content. */
  datatype Opt = Opt(onHeap: bool, len: nat, inl: seq<Byte>, heap: seq<Byte>) {
    predicate Sound() { |inl| == INLINE && len < LEN_LIMIT && len <= (if onHeap then |heap| else INLINE) }

    function Data(): seq<Byte>
      requires Sound()
    {
      if onHeap then heap[..len] else inl[..len]
    }

    /** The bytes behind the data that can be written. */
    function Room(): nat
      requires Sound()
    {
      (if onHeap then |heap| else INLINE) - len
    }

    /** The data is written behind what is there: `memcpy(ptr, data, size)` and the new length, cut to 16 bits. */
    function Extended(data: seq<Byte>): (r: Opt)
      requires Sound() && |data| <= Room()
      ensures r.Sound() && r.Data() == Kept(Data() + data)
    {
      var n := (len + |data|) % LEN_LIMIT;
      if onHeap then Opt(true, n, inl, heap[..len] + data + heap[len + |data|..])
      else Opt(false, n, inl[..len] + data + inl[len + |data|..], heap)
    }
  }

  const BLANK: Opt := Opt(false, 0, [0, 0, 0, 0, 0, 0, 0, 0], [])

  /** A store is sound, and codes that are not in the bitmap have no data. */
  ghost predicate SoundStore(opt: seq<Opt>, bits: seq<bv8>)
  {
    && |opt| == 256 && |bits| == 32
    && forall c: nat :: c < 256 ==> opt[c].Sound() && (!Got(bits, c) ==> opt[c].len == 0 && !opt[c].onHeap)
  }

  ghost function OptionsOf(opt: seq<Opt>, bits: seq<bv8>): Options
    requires SoundStore(opt, bits)
  {
    map c: nat | c < 256 && Got(bits, c) :: opt[c].Data()
  }

  lemma StorePut(opt: seq<Opt>, bits: seq<bv8>, code: nat, o: Opt, data: seq<Byte>)
    requires SoundStore(opt, bits) && code < 256 && o.Sound() && o.Data() == Kept(opt[code].Data() + data)
    ensures SoundStore(opt[code := o], Marked(bits, code))
    ensures OptionsOf(opt[code := o], Marked(bits, code)) == Put(OptionsOf(opt, bits), code, data)
  {
    hide Got, Marked, Unmarked, Kept;
    forall c: nat | c < 256 ensures Got(Marked(bits, code), c) <==> c == code || Got(bits, c) { MarkedGot(bits, code, c); }
    if !Got(bits, code) { assert opt[code].Data() == []; }
  }

  lemma StoreDrop(opt: seq<Opt>, bits: seq<bv8>, code: nat)
    requires SoundStore(opt, bits) && code < 256
    ensures SoundStore(opt[code := BLANK], Unmarked(bits, code))
    ensures OptionsOf(opt[code := BLANK], Unmarked(bits, code)) == OptionsOf(opt, bits) - {code}
  {
    hide Got, Marked, Unmarked;
    forall c: nat | c < 256 ensures Got(Unmarked(bits, code), c) <==> c != code && Got(bits, c) { MarkedGot(bits, code, c); }
  }

  lemma StoreEmpty(opt: seq<Opt>, bits: seq<bv8>)
    requires |opt| == 256 && |bits| == 32
    requires (forall c :: 0 <= c < 256 ==> opt[c] == BLANK) && forall i :: 0 <= i < 32 ==> bits[i] == 0
    ensures SoundStore(opt, bits) && OptionsOf(opt, bits) == map[]
  {
    hide ByteBit;
    forall c: nat | c < 256 ensures !Got(bits, c) { NoBitSet(c % 8); }
  }

  /** dhcp4_ao_buf_t. */
  class AoBuf {
    const opt: array<Opt>
    const bits: array<bv8>

    ghost predicate Shape() { opt.Length == 256 && bits.Length == 32 }

    ghost predicate Valid()
      reads opt, bits
    {
      Shape() && SoundStore(opt[..], bits[..])
    }

    ghost function Value(): Options
      requires Valid()
      reads opt, bits
    {
      OptionsOf(opt[..], bits[..])
    }

    constructor ()
      ensures Valid() && Value() == map[] && fresh(opt) && fresh(bits)
    {
      opt := new Opt[256](_ => BLANK);
      bits := new bv8[32](_ => 0);
      new;
      StoreEmpty(opt[..], bits[..]);
    }

    /** dhcp4_ao_buf_clean. */
    method Clean()
      requires Shape()
      modifies opt, bits
      ensures Valid() && Value() == map[]
    {
      forall c | 0 <= c < 256 { opt[c] := BLANK; }
      forall i | 0 <= i < 32 { bits[i] := 0; }
      StoreEmpty(opt[..], bits[..]);
    }

    /** dhcp4_ao_buf_opt_clean. */
    method OptClean(code: nat)
      requires Valid() && code < 256
      modifies opt, bits
      ensures Valid() && Value() == old(Value()) - {code} && opt[..] == old(opt[..])[code := BLANK]
    {
      hide Got, WithoutBit;
      StoreDrop(opt[..], bits[..], code);
      ghost var o, b := opt[..], bits[..];
      opt[code] := BLANK;
      bits[code / 8] := WithoutBit(bits[code / 8], code % 8);
      assert opt[..] == o[code := BLANK] && bits[..] == Unmarked(b, code);
    }

    /** dhcp4_ao_buf_data_get. */
    method DataGet(code: nat) returns (found: bool, data: seq<Byte>)
      requires Valid() && code < 256
      ensures found <==> code in Value()
      ensures found ==> data == Value()[code]
    {
      found := Got(bits[..], code);
      data := opt[code].Data();
    }

    /** dhcp4_ao_buf_data_get_free_space: room for `size` more bytes, with the data kept. Short data moves
        from the entry to the heap when it does not fit any more. */
    method DataGetFreeSpace(code: nat, size: nat)
      requires Valid() && code < 256
      modifies opt
      ensures Shape() && opt[..] == old(opt[..])[code := opt[code]]
      ensures opt[code].Sound() && opt[code].Data() == old(opt[code].Data()) && opt[code].Room() >= size
    {
      var o := opt[code];
      if !o.onHeap && INLINE - o.len >= size { return; }
      var mem := new Byte[o.len + size + 8];
      opt[code] := Opt(true, o.len, o.inl, o.Data() + mem[..][o.len..]);
    }

    /** The data of one chunk is stored. */
    method Store(code: nat, data: seq<Byte>)
      requires Valid() && code < 256
      modifies opt, bits
      ensures Valid() && Value() == Put(old(Value()), code, data)
      ensures forall c :: 0 <= c < 256 && c != code ==> opt[c] == old(opt[c])
    {
      hide Kept, Got, WithBit, SoundStore, OptionsOf;
      ghost var o, b := opt[..], bits[..];
      SoundAt(o, b, code);
      DataGetFreeSpace(code, |data|);
      opt[code] := opt[code].Extended(data);
      bits[code / 8] := WithBit(bits[code / 8], code % 8);
      StorePut(o, b, code, opt[code], data);
      assert opt[..] == o[code := opt[code]] && bits[..] == Marked(b, code);
    }
  }

  lemma ValueStorable(a: AoBuf)
    requires a.Valid()
    ensures Storable(a.Value())
  {
    hide Got;
  }

  lemma SoundAt(opt: seq<Opt>, bits: seq<bv8>, code: nat)
    requires SoundStore(opt, bits) && code < 256
    ensures |opt| == 256 && |bits| == 32 && opt[code].Sound()
  {}
}
