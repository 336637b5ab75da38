/** User-Password hiding of include/proto/radius.h (section 5.2 of RFC 2865), for any hash. */
module RadiusPassword {
  import opened Common

  /** MD5 and HMAC-MD5 are any functions with 16-byte results. */
  datatype Hash = Hash(md5: seq<Byte> -> seq<Byte>, hmac: (seq<Byte>, seq<Byte>) -> seq<Byte>)

  const HASH_SIZE: nat := 16

  ghost predicate Sized(h: Hash)
  {
    (forall s :: |h.md5(s)| == HASH_SIZE) && forall k, s :: |h.hmac(k, s)| == HASH_SIZE
  }

  function Md5(h: Hash, s: seq<Byte>): seq<Byte> { h.md5(s) }

  function Hmac(h: Hash, key: seq<Byte>, s: seq<Byte>): seq<Byte> { h.hmac(key, s) }

  lemma HashSize(h: Hash, key: seq<Byte>, s: seq<Byte>)
    requires Sized(h)
    ensures |Md5(h, s)| == HASH_SIZE && |Hmac(h, key, s)| == HASH_SIZE
  {}

  // ----- exclusive or -----

  /** The eight bits of a byte. */
  function Bits(b: Byte): bv8 { b as bv8 }

  /** The number of eight bits. */
  function Number(x: bv8): Byte { x as int }

  function Xor8(x: bv8, y: bv8): bv8 { x ^ y }

  lemma BitsNumber(x: bv8)
    ensures Bits(Number(x)) == x
  {}

  lemma Appended8(x: bv8, odd: bool)
    requires Number(x) < 128
    ensures Number((x << 1) | (if odd then 1 else 0)) == 2 * Number(x) + if odd then 1 else 0
  {}

  /** Every byte is the number of some bits. */
  lemma {:induction false} BitsFor(b: Byte) returns (x: bv8)
    ensures Number(x) == b
  {
    hide Number;
    if b == 0 {
      x := 0;
      NumberZero();
    } else {
      var half := BitsFor(b / 2);
      Appended8(half, b % 2 == 1);
      x := (half << 1) | (if b % 2 == 1 then 1 else 0);
    }
  }

  lemma NumberZero()
    ensures Number(0) == 0
  {}

  lemma NumberBits(b: Byte)
    ensures Number(Bits(b)) == b
  {
    hide Number, Bits;
    var x := BitsFor(b);
    BitsNumber(x);
  }

  function Xor(a: Byte, b: Byte): Byte { Number(Xor8(Bits(a), Bits(b))) }

  lemma XorIs(a: Byte, b: Byte)
    ensures Xor(a, b) as bv8 == (a as bv8) ^ (b as bv8)
  {
    hide Number;
    BitsNumber(Xor8(Bits(a), Bits(b)));
  }

  lemma Xor8Twice(x: bv8, y: bv8)
    ensures Xor8(Xor8(x, y), y) == x
  {}

  lemma XorTwice(a: Byte, b: Byte)
    ensures Xor(Xor(a, b), b) == a
  {
    hide Number, Bits, Xor8;
    BitsNumber(Xor8(Bits(a), Bits(b)));
    Xor8Twice(Bits(a), Bits(b));
    NumberBits(a);
  }

  function Masked(s: seq<Byte>, m: seq<Byte>): (r: seq<Byte>)
    requires |s| == |m|
    ensures |r| == |s|
  {
    seq(|s|, i requires 0 <= i < |s| => Xor(s[i], m[i]))
  }

  lemma MaskedTwice(s: seq<Byte>, m: seq<Byte>)
    requires |s| == |m|
    ensures Masked(Masked(s, m), m) == s
  {
    hide Xor;
    forall i | 0 <= i < |s| ensures Xor(Xor(s[i], m[i]), m[i]) == s[i] { XorTwice(s[i], m[i]); }
  }

  // ----- the chained mask -----

  /** Block by block: each block is masked with the hash of the key and the block hidden before it. */
  function Hidden(h: Hash, salt: seq<Byte>, data: seq<Byte>, key: seq<Byte>): (r: seq<Byte>)
    requires Sized(h) && |data| % HASH_SIZE == 0
    ensures |r| == |data|
    decreases |data|
  {
    if data == [] then []
    else
      HashSize(h, key, key + salt);
      var c := Masked(data[..HASH_SIZE], Md5(h, key + salt));
      c + Hidden(h, c, data[HASH_SIZE..], key)
  }

  function Revealed(h: Hash, salt: seq<Byte>, data: seq<Byte>, key: seq<Byte>): (r: seq<Byte>)
    requires Sized(h) && |data| % HASH_SIZE == 0
    ensures |r| == |data|
    decreases |data|
  {
    if data == [] then []
    else
      HashSize(h, key, key + salt);
      Masked(data[..HASH_SIZE], Md5(h, key + salt)) + Revealed(h, data[..HASH_SIZE], data[HASH_SIZE..], key)
  }

  /** Revealing what was hidden with the same authenticator and key gives back the padded password. */
  lemma {:induction false} RevealHidden(h: Hash, salt: seq<Byte>, data: seq<Byte>, key: seq<Byte>)
    requires Sized(h) && |data| % HASH_SIZE == 0
    ensures Revealed(h, salt, Hidden(h, salt, data, key), key) == data
    decreases |data|
  {
    hide Masked, Sized, Md5;
    if data != [] {
      HashSize(h, key, key + salt);
      var c := Masked(data[..HASH_SIZE], Md5(h, key + salt));
      var rest := Hidden(h, c, data[HASH_SIZE..], key);
      assert (c + rest)[..HASH_SIZE] == c && (c + rest)[HASH_SIZE..] == rest;
      RevealHidden(h, c, data[HASH_SIZE..], key);
      MaskedTwice(data[..HASH_SIZE], Md5(h, key + salt));
      assert data[..HASH_SIZE] + data[HASH_SIZE..] == data;
    }
  }

  /** A byte of the hidden block at `at` is its own byte xor that of the hash over the key and the block hidden before,
      or the salt. */
  lemma {:induction false} HiddenByte(h: Hash, salt: seq<Byte>, data: seq<Byte>, key: seq<Byte>, at: nat, i: nat)
    requires Sized(h) && |data| % HASH_SIZE == 0 && at % 16 == 0 && at + i < |data| && i < 16
    ensures var c := Hidden(h, salt, data, key);
      var digest := h.md5(key + if at == 0 then salt else c[at - 16..at]);
      |digest| == 16 && c[at + i] == Xor(data[at + i], digest[i])
    decreases |data|
  {
    hide Sized, Xor, Hidden;
    HiddenStep(h, salt, data, key);
    var c0 := Masked(data[..HASH_SIZE], Md5(h, key + salt));
    if at > 0 {
      var rest := Hidden(h, c0, data[HASH_SIZE..], key);
      HiddenByte(h, c0, data[HASH_SIZE..], key, at - 16, i);
      assert (c0 + rest)[at - 16..at] == if at == 16 then c0 else rest[at - 32..at - 16];
    }
  }

  /** The same for the other direction, where the block before is still the encoded one. */
  lemma {:induction false} RevealedByte(h: Hash, salt: seq<Byte>, data: seq<Byte>, key: seq<Byte>, at: nat, i: nat)
    requires Sized(h) && |data| % HASH_SIZE == 0 && at % 16 == 0 && at + i < |data| && i < 16
    ensures var digest := h.md5(key + if at == 0 then salt else data[at - 16..at]);
      |digest| == 16 && Revealed(h, salt, data, key)[at + i] == Xor(data[at + i], digest[i])
    decreases |data|
  {
    hide Sized, Xor, Revealed;
    RevealedStep(h, salt, data, key);
    if at > 0 {
      RevealedByte(h, data[..HASH_SIZE], data[HASH_SIZE..], key, at - 16, i);
      assert data[at - 16..at] == if at == 16 then data[..HASH_SIZE] else data[HASH_SIZE..][at - 32..at - 16];
    }
  }

  /** Where the block of byte k begins. */
  function BlockOf(k: nat): (at: nat)
    ensures at % 16 == 0 && at <= k < at + 16 && (at == 0 || at >= 16)
  {
    k - k % 16
  }

  lemma HiddenBytes(h: Hash, salt: seq<Byte>, data: seq<Byte>, key: seq<Byte>)
    requires Sized(h) && |data| % HASH_SIZE == 0
    ensures var c := Hidden(h, salt, data, key);
      forall k :: 0 <= k < |data| ==>
        var at := BlockOf(k);
        var digest := h.md5(key + if at == 0 then salt else c[at - 16..at]);
        |digest| == 16 && c[k] == Xor(data[k], digest[k - at])
  {
    hide Hidden, Xor, BlockOf;
    var c := Hidden(h, salt, data, key);
    forall k | 0 <= k < |data|
      ensures var at := BlockOf(k);
        var digest := h.md5(key + if at == 0 then salt else c[at - 16..at]);
        |digest| == 16 && c[k] == Xor(data[k], digest[k - at])
    {
      HiddenByte(h, salt, data, key, BlockOf(k), k - BlockOf(k));
    }
  }

  lemma RevealedBytes(h: Hash, salt: seq<Byte>, data: seq<Byte>, key: seq<Byte>)
    requires Sized(h) && |data| % HASH_SIZE == 0
    ensures var c := Revealed(h, salt, data, key);
      forall k :: 0 <= k < |data| ==>
        var at := BlockOf(k);
        var digest := h.md5(key + if at == 0 then salt else data[at - 16..at]);
        |digest| == 16 && c[k] == Xor(data[k], digest[k - at])
  {
    hide Revealed, Xor, BlockOf;
    var c := Revealed(h, salt, data, key);
    forall k | 0 <= k < |data|
      ensures var at := BlockOf(k);
        var digest := h.md5(key + if at == 0 then salt else data[at - 16..at]);
        |digest| == 16 && c[k] == Xor(data[k], digest[k - at])
    {
      RevealedByte(h, salt, data, key, BlockOf(k), k - BlockOf(k));
    }
  }

  // ----- padding -----

  const PASSWORD_MAX: nat := 128

  /** The length of a password on the wire. */
  function Aligned(len: nat): nat
  {
    if len != 0 then (len + (HASH_SIZE - 1)) / HASH_SIZE * HASH_SIZE else HASH_SIZE
  }

  lemma AlignedIs(len: nat)
    ensures Aligned(len) % HASH_SIZE == 0 && len <= Aligned(len) < len + HASH_SIZE + 1 && Aligned(len) >= HASH_SIZE
    ensures Aligned(len) < Max(len, 1) + HASH_SIZE
    ensures Aligned(len) == len <==> len > 0 && len % HASH_SIZE == 0
  {}

  function Padded(password: seq<Byte>): (r: seq<Byte>)
    ensures |r| == Aligned(|password|) && |r| % HASH_SIZE == 0
    ensures password <= r && forall k :: |password| <= k < |r| ==> r[k] == 0
  {
    AlignedIs(|password|);
    password + Zeros(Aligned(|password|) - |password|)
  }

  /** radius_pkt_attr_password_encode into buf[off..off + bufSize), which may hold the password itself. */
  method PasswordEncode(h: Hash, authenticator: seq<Byte>, password: seq<Byte>, key: seq<Byte>,
                        buf: array<Byte>, off: nat, bufSize: nat) returns (status: Status, sizeRet: nat)
    requires Sized(h) && off + bufSize <= buf.Length
    modifies buf
    ensures status == if |password| > PASSWORD_MAX then EINVAL
                      else if Aligned(|password|) > bufSize then EOVERFLOW else Ok
    ensures status != EINVAL ==> sizeRet == Aligned(|password|)
    ensures status != EINVAL ==> sizeRet % 16 == 0 && 16 <= sizeRet && |password| <= sizeRet < Max(|password|, 1) + 16
    ensures status == Ok ==> buf[off..off + sizeRet] == Hidden(h, authenticator, Padded(password), key)
    ensures status == Ok ==>
      var c := buf[off..off + sizeRet];
      forall k :: 0 <= k < sizeRet ==>
        var at := BlockOf(k);
        var digest := h.md5(key + if at == 0 then authenticator else c[at - 16..at]);
        |digest| == 16 && c[k] == Xor(Padded(password)[k], digest[k - at])
    ensures status != Ok ==> buf[..] == old(buf[..])
    ensures status == Ok ==> OnlyWithin(buf[..], old(buf[..]), off, off + sizeRet)
  {
    hide Hidden, Sized, Aligned, Xor, Padded, BlockOf;
    AlignedIs(|password|);
    if |password| > PASSWORD_MAX { return EINVAL, 0; }
    sizeRet := Aligned(|password|);
    if sizeRet > bufSize { return EOVERFLOW, sizeRet; }
    var padded := Padded(password);
    forall k | 0 <= k < sizeRet { buf[off + k] := padded[k]; }
    assert buf[off..off + sizeRet] == padded;
    HideBlocks(h, authenticator, key, buf, off, sizeRet);
    HiddenBytes(h, authenticator, padded, key);
    status := Ok;
  }

  /** Nothing outside [lo, hi) differs. */
  predicate OnlyWithin(s: seq<Byte>, t: seq<Byte>, lo: nat, hi: nat)
  {
    |s| == |t| && forall k :: 0 <= k < |s| && (k < lo || hi <= k) ==> s[k] == t[k]
  }

  /** w with the block at j masked. */
  function BlockMasked(w: seq<Byte>, j: nat, digest: seq<Byte>): (r: seq<Byte>)
    requires j + HASH_SIZE <= |w| && |digest| == HASH_SIZE
    ensures |r| == |w|
  {
    w[..j] + Masked(w[j..j + HASH_SIZE], digest) + w[j + HASH_SIZE..]
  }

  /** The inner loop: sixteen bytes of the window buf[off..off + size) are masked. */
  method MaskBlock(buf: array<Byte>, off: nat, size: nat, j: nat, digest: seq<Byte>)
    requires |digest| == HASH_SIZE && j + HASH_SIZE <= size && off + size <= buf.Length
    modifies buf
    ensures buf[off..off + size] == BlockMasked(old(buf[off..off + size]), j, digest)
    ensures OnlyWithin(buf[..], old(buf[..]), off, off + size)
  {
    hide Xor;
    for i := 0 to HASH_SIZE
      invariant forall k :: 0 <= k < i ==> buf[off + j + k] == Xor(old(buf[off + j + k]), digest[k])
      invariant OnlyWithin(buf[..], old(buf[..]), off + j, off + j + i)
    {
      buf[off + j + i] := Xor(buf[off + j + i], digest[i]);
    }
    ghost var w, w' := old(buf[off..off + size]), buf[off..off + size];
    forall k | 0 <= k < size ensures w'[k] == BlockMasked(w, j, digest)[k] {
      assert w'[k] == buf[off + k] && w[k] == old(buf[off + k]);
      if j <= k < j + HASH_SIZE { assert w'[k] == buf[off + j + (k - j)]; }
    }
    assert w' == BlockMasked(w, j, digest);
  }

  /** The blocks before j are hidden, and the rest of w, hidden with this salt, completes them. */
  ghost predicate Hiding(h: Hash, w: seq<Byte>, j: nat, salt: seq<Byte>, key: seq<Byte>, whole: seq<Byte>)
  {
    Sized(h) && j <= |w| && (|w| - j) % HASH_SIZE == 0 && w[..j] + Hidden(h, salt, w[j..], key) == whole
  }

  lemma HidingNext(h: Hash, w: seq<Byte>, j: nat, salt: seq<Byte>, key: seq<Byte>, whole: seq<Byte>)
    requires Hiding(h, w, j, salt, key, whole) && j < |w|
    ensures j + HASH_SIZE <= |w| && |Md5(h, key + salt)| == HASH_SIZE
    ensures var w' := BlockMasked(w, j, Md5(h, key + salt));
      Hiding(h, w', j + HASH_SIZE, w'[j..j + HASH_SIZE], key, whole)
  {
    hide Hidden, Masked, Sized, Md5;
    HiddenStep(h, salt, w[j..], key);
    var m := Md5(h, key + salt);
    var c, w' := Masked(w[j..j + HASH_SIZE], m), BlockMasked(w, j, m);
    assert w[j..][..HASH_SIZE] == w[j..j + HASH_SIZE] && w[j..][HASH_SIZE..] == w[j + HASH_SIZE..];
    assert w'[j..j + HASH_SIZE] == c && w'[j + HASH_SIZE..] == w[j + HASH_SIZE..] && w'[..j + HASH_SIZE] == w[..j] + c;
    assert w[..j] + c + Hidden(h, c, w[j + HASH_SIZE..], key) == w[..j] + (c + Hidden(h, c, w[j + HASH_SIZE..], key));
  }

  lemma HidingEnds(h: Hash, w: seq<Byte>, salt: seq<Byte>, key: seq<Byte>, whole: seq<Byte>)
    requires Hiding(h, w, |w|, salt, key, whole)
    ensures w == whole
  {
    assert w[|w|..] == [] && w[..|w|] + [] == w;
  }

  /** The block loop of the encoder; the hash contexts are the bytes fed to them. */
  method HideBlocks(h: Hash, authenticator: seq<Byte>, key: seq<Byte>, buf: array<Byte>, off: nat, size: nat)
    requires Sized(h) && 0 < size && size % HASH_SIZE == 0 && off + size <= buf.Length
    modifies buf
    ensures buf[off..off + size] == Hidden(h, authenticator, old(buf[off..off + size]), key)
    ensures OnlyWithin(buf[..], old(buf[..]), off, off + size)
  {
    hide Hidden, Masked, Sized, Md5, Hiding, BlockMasked;
    ghost var salt, whole := authenticator, Hidden(h, authenticator, buf[off..off + size], key);
    HidingStarts(h, buf[off..off + size], authenticator, key);
    var ctxWithKey := key;
    var ctx := ctxWithKey + authenticator;
    var j: nat := 0;
    while true
      invariant j < size && ctx == key + salt && Hiding(h, buf[off..off + size], j, salt, key, whole)
      invariant OnlyWithin(buf[..], old(buf[..]), off, off + size)
      decreases size - j
    {
      HidingNext(h, buf[off..off + size], j, salt, key, whole);
      var digest := Md5(h, ctx);
      MaskBlock(buf, off, size, j, digest);
      salt := buf[off..off + size][j..j + HASH_SIZE];
      WindowBlock(buf[..], off, size, j);
      if j + HASH_SIZE >= size { break; }
      ctx := ctxWithKey + buf[off + j..off + j + HASH_SIZE];
      j := j + HASH_SIZE;
    }
    HidingEnds(h, buf[off..off + size], salt, key, whole);
  }

  lemma WindowBlock(s: seq<Byte>, off: nat, size: nat, j: nat)
    requires off + size <= |s| && j + HASH_SIZE <= size
    ensures s[off..off + size][j..j + HASH_SIZE] == s[off + j..off + j + HASH_SIZE]
  {
    var w := s[off..off + size];
    var a, b := w[j..j + HASH_SIZE], s[off + j..off + j + HASH_SIZE];
    forall k | 0 <= k < HASH_SIZE ensures a[k] == b[k] { assert a[k] == w[j + k] == s[off + (j + k)]; }
    assert a == b;
  }

  lemma HidingStarts(h: Hash, w: seq<Byte>, salt: seq<Byte>, key: seq<Byte>)
    requires Sized(h) && |w| % HASH_SIZE == 0
    ensures Hiding(h, w, 0, salt, key, Hidden(h, salt, w, key))
  {
    assert w[0..] == w && w[..0] + Hidden(h, salt, w, key) == Hidden(h, salt, w, key);
  }

  lemma HiddenStep(h: Hash, salt: seq<Byte>, data: seq<Byte>, key: seq<Byte>)
    requires Sized(h) && |data| % HASH_SIZE == 0 && data != []
    ensures |Md5(h, key + salt)| == HASH_SIZE
    ensures var c := Masked(data[..HASH_SIZE], Md5(h, key + salt));
      && Hidden(h, salt, data, key) == c + Hidden(h, c, data[HASH_SIZE..], key)
      && (|data| == HASH_SIZE ==> Hidden(h, salt, data, key) == c)
  {}

  lemma RevealedStep(h: Hash, salt: seq<Byte>, data: seq<Byte>, key: seq<Byte>)
    requires Sized(h) && |data| % HASH_SIZE == 0 && data != []
    ensures |Md5(h, key + salt)| == HASH_SIZE
    ensures Revealed(h, salt, data, key)
      == Masked(data[..HASH_SIZE], Md5(h, key + salt)) + Revealed(h, data[..HASH_SIZE], data[HASH_SIZE..], key)
  {}

  ghost predicate Revealing(h: Hash, w: seq<Byte>, j: nat, salt: seq<Byte>, key: seq<Byte>, whole: seq<Byte>)
  {
    Sized(h) && j <= |w| && (|w| - j) % HASH_SIZE == 0 && w[..j] + Revealed(h, salt, w[j..], key) == whole
  }

  lemma RevealingNext(h: Hash, w: seq<Byte>, j: nat, salt: seq<Byte>, key: seq<Byte>, whole: seq<Byte>)
    requires Revealing(h, w, j, salt, key, whole) && j < |w|
    ensures j + HASH_SIZE <= |w| && |Md5(h, key + salt)| == HASH_SIZE
    ensures Revealing(h, BlockMasked(w, j, Md5(h, key + salt)), j + HASH_SIZE, w[j..j + HASH_SIZE], key, whole)
  {
    hide Revealed, Masked, Sized, Md5;
    RevealedStep(h, salt, w[j..], key);
    var m, c := Md5(h, key + salt), w[j..j + HASH_SIZE];
    var p, w' := Masked(c, m), BlockMasked(w, j, m);
    assert w[j..][..HASH_SIZE] == c && w[j..][HASH_SIZE..] == w[j + HASH_SIZE..];
    assert w'[j + HASH_SIZE..] == w[j + HASH_SIZE..] && w'[..j + HASH_SIZE] == w[..j] + p;
    assert w[..j] + p + Revealed(h, c, w[j + HASH_SIZE..], key) == w[..j] + (p + Revealed(h, c, w[j + HASH_SIZE..], key));
  }

  lemma RevealingEnds(h: Hash, w: seq<Byte>, salt: seq<Byte>, key: seq<Byte>, whole: seq<Byte>)
    requires Revealing(h, w, |w|, salt, key, whole)
    ensures w == whole
  {
    assert w[|w|..] == [] && w[..|w|] + [] == w;
  }

  lemma RevealingStarts(h: Hash, w: seq<Byte>, salt: seq<Byte>, key: seq<Byte>)
    requires Sized(h) && |w| % HASH_SIZE == 0
    ensures Revealing(h, w, 0, salt, key, Revealed(h, salt, w, key))
  {
    assert w[0..] == w && w[..0] + Revealed(h, salt, w, key) == Revealed(h, salt, w, key);
  }

  /** strnlen: the length of the string before its zero. */
  function StrLen(s: seq<Byte>): (n: nat)
    ensures n <= |s| && (n < |s| ==> s[n] == 0) && forall i :: 0 <= i < n ==> s[i] != 0
  {
    if s == [] || s[0] == 0 then 0 else 1 + StrLen(s[1..])
  }

  /** radius_pkt_attr_password_decode into buf[off..off + bufSize), which may hold the encoded password itself. */
  method PasswordDecode(h: Hash, authenticator: seq<Byte>, encoded: seq<Byte>, key: seq<Byte>,
                        buf: array<Byte>, off: nat, bufSize: nat) returns (status: Status, sizeRet: nat)
    requires Sized(h) && off + bufSize <= buf.Length
    modifies buf
    ensures status == if encoded == [] || |encoded| > PASSWORD_MAX || |encoded| % HASH_SIZE != 0 then EINVAL
                      else if |encoded| > bufSize then EOVERFLOW else Ok
    ensures status != Ok ==> buf[..] == old(buf[..])
    ensures status == EOVERFLOW ==> sizeRet == |encoded|
    ensures status == Ok ==> buf[off..off + |encoded|] == Revealed(h, authenticator, encoded, key)
    ensures status == Ok ==> sizeRet == StrLen(Revealed(h, authenticator, encoded, key))
    ensures status == Ok ==>
      forall k :: 0 <= k < |encoded| ==>
        var at := BlockOf(k);
        var digest := h.md5(key + if at == 0 then authenticator else encoded[at - 16..at]);
        |digest| == 16 && buf[off..off + |encoded|][k] == Xor(encoded[k], digest[k - at])
    ensures status == Ok && |encoded| < bufSize ==> buf[off + |encoded|] == 0
    ensures OnlyWithin(buf[..], old(buf[..]), off, off + Min(bufSize, |encoded| + 1))
  {
    hide Revealed, Sized, Md5, Xor, BlockOf;
    var size := |encoded|;
    sizeRet := 0;
    if size == 0 || PASSWORD_MAX < size || size % HASH_SIZE != 0 { return EINVAL, 0; }
    if size > bufSize { return EOVERFLOW, size; }
    forall k | 0 <= k < size { buf[off + k] := encoded[k]; }
    if bufSize > size { buf[off + size] := 0; }
    assert buf[off..off + size] == encoded;
    RevealBlocks(h, authenticator, key, buf, off, size);
    RevealedBytes(h, authenticator, encoded, key);
    sizeRet := StrLen(buf[off..off + size]);
    status := Ok;
  }

  /** The block loop of the decoder. */
  method RevealBlocks(h: Hash, authenticator: seq<Byte>, key: seq<Byte>, buf: array<Byte>, off: nat, size: nat)
    requires Sized(h) && size % HASH_SIZE == 0 && off + size <= buf.Length
    modifies buf
    ensures buf[off..off + size] == Revealed(h, authenticator, old(buf[off..off + size]), key)
    ensures OnlyWithin(buf[..], old(buf[..]), off, off + size)
  {
    hide Revealed, Masked, Sized, Md5, Revealing, BlockMasked;
    ghost var salt, whole := authenticator, Revealed(h, authenticator, buf[off..off + size], key);
    RevealingStarts(h, buf[off..off + size], authenticator, key);
    var ctxWithKey := key;
    var ctx := ctxWithKey + authenticator;
    var j: nat := 0;
    while j < size
      invariant j <= size && (j < size ==> ctx == key + salt) && Revealing(h, buf[off..off + size], j, salt, key, whole)
      invariant OnlyWithin(buf[..], old(buf[..]), off, off + size)
    {
      RevealingNext(h, buf[off..off + size], j, salt, key, whole);
      salt := buf[off..off + size][j..j + HASH_SIZE];
      WindowBlock(buf[..], off, size, j);
      var digest := Md5(h, ctx);
      if j + HASH_SIZE < size { ctx := ctxWithKey + buf[off + j..off + j + HASH_SIZE]; }
      MaskBlock(buf, off, size, j, digest);
      j := j + HASH_SIZE;
    }
    RevealingEnds(h, buf[off..off + size], salt, key, whole);
  }
}
