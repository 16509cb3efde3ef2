/** The keys of a TLS connection (src/capture_gnutls.c): the data expansion of section 5 of
    RFC 5246 and RFC 2246, and the key block of section 6.3.  HMAC is a function that the
    model knows nothing about except the length of its values. */
module KeyDerivation {
  import opened Common

  const HMAC_ROOM: nat := 48
  const SECRET_LEN: nat := 48

  /** "master secret" and "key expansion" */
  const MASTER_SECRET: seq<Byte> := [109, 97, 115, 116, 101, 114, 32, 115, 101, 99, 114, 101, 116]
  const KEY_EXPANSION: seq<Byte> := [107, 101, 121, 32, 101, 120, 112, 97, 110, 115, 105, 111, 110]

  /** A digest algorithm: the length of its values, and its HMAC of a secret and data. */
  datatype Digest = Digest(len: nat, hmac: (seq<Byte>, seq<Byte>) -> seq<Byte>)

  ghost predicate Sized(d: Digest) {
    0 < d.len <= HMAC_ROOM && forall k, x :: |d.hmac(k, x)| == d.len
  }

  // ---------------------------------------------------------------------------
  // P_hash
  // ---------------------------------------------------------------------------

  /** A(n): the seed, and then the HMAC of the value before. */
  function A(d: Digest, secret: seq<Byte>, seed: seq<Byte>, n: nat): seq<Byte> {
    if n == 0 then seed else d.hmac(secret, A(d, secret, seed, n - 1))
  }

  /** The first `n` blocks of the stream HMAC(A(1) + seed), HMAC(A(2) + seed), ... */
  function Stream(d: Digest, secret: seq<Byte>, seed: seq<Byte>, n: nat): seq<Byte> {
    if n == 0 then [] else Stream(d, secret, seed, n - 1) + d.hmac(secret, A(d, secret, seed, n) + seed)
  }

  lemma {:induction false} StreamLen(d: Digest, secret: seq<Byte>, seed: seq<Byte>, n: nat)
    requires Sized(d)
    ensures |Stream(d, secret, seed, n)| == n * d.len
  {
    if n > 0 {
      StreamLen(d, secret, seed, n - 1);
    }
  }

  lemma {:induction false} StreamGrows(d: Digest, secret: seq<Byte>, seed: seq<Byte>, m: nat, n: nat)
    requires m <= n
    ensures Stream(d, secret, seed, m) <= Stream(d, secret, seed, n)
  {
    if m < n {
      StreamGrows(d, secret, seed, m, n - 1);
    }
  }

  /** The stream is long enough after as many blocks as octets. */
  lemma StreamLongEnough(d: Digest, secret: seq<Byte>, seed: seq<Byte>, n: nat)
    requires Sized(d)
    ensures |Stream(d, secret, seed, n)| >= n
  {
    StreamLen(d, secret, seed, n);
    MulAtMost(1, d.len, n);
  }

  /** The first `len` octets of the stream. */
  ghost function Expand(d: Digest, secret: seq<Byte>, seed: seq<Byte>, len: nat): (r: seq<Byte>)
    requires Sized(d)
    ensures |r| == len
  {
    StreamLongEnough(d, secret, seed, len);
    Stream(d, secret, seed, len)[..len]
  }

  /** It does not matter how many blocks are computed. */
  lemma ExpandIs(d: Digest, secret: seq<Byte>, seed: seq<Byte>, len: nat, n: nat)
    requires Sized(d) && |Stream(d, secret, seed, n)| >= len
    ensures Expand(d, secret, seed, len) == Stream(d, secret, seed, n)[..len]
  {
    StreamLongEnough(d, secret, seed, len);
    StreamGrows(d, secret, seed, if n < len then n else len, if n < len then len else n);
  }

  /** A shorter request is a prefix of a longer one. */
  lemma ExpandPrefix(d: Digest, secret: seq<Byte>, seed: seq<Byte>, m: nat, n: nat)
    requires Sized(d) && m <= n
    ensures Expand(d, secret, seed, m) == Expand(d, secret, seed, n)[..m]
  {
    StreamLongEnough(d, secret, seed, n);
    ExpandIs(d, secret, seed, m, n);
  }

  /** The running values of section 5 of RFC 5246: the seed, and each one the HMAC of the
      one before. */
  ghost predicate Running(d: Digest, secret: seq<Byte>, seed: seq<Byte>, a: seq<seq<Byte>>) {
    a != [] && a[0] == seed && forall i :: 0 <= i < |a| - 1 ==> a[i + 1] == d.hmac(secret, a[i])
  }

  lemma {:induction false} RunningIs(d: Digest, secret: seq<Byte>, seed: seq<Byte>, a: seq<seq<Byte>>, i: nat)
    requires Running(d, secret, seed, a) && i < |a|
    ensures a[i] == A(d, secret, seed, i)
  {
    if i > 0 {
      RunningIs(d, secret, seed, a, i - 1);
      assert a[i - 1 + 1] == d.hmac(secret, a[i - 1]);
    }
  }

  /** Block `i` of an expansion is the HMAC of the running value behind the `i`-th and the
      seed. */
  lemma BlockExactly(d: Digest, secret: seq<Byte>, seed: seq<Byte>, a: seq<seq<Byte>>, i: nat, len: nat)
    requires Sized(d) && Running(d, secret, seed, a) && i + 1 < |a| && i * d.len + d.len <= len
    ensures Expand(d, secret, seed, len)[i * d.len..i * d.len + d.len] == d.hmac(secret, a[i + 1] + seed)
  {
    RunningIs(d, secret, seed, a, i + 1);
    StreamLen(d, secret, seed, i);
    StreamLen(d, secret, seed, i + 1);
    MulAtMost(1, d.len, i + 1);
    StreamLongEnough(d, secret, seed, len);
    StreamGrows(d, secret, seed, i + 1, len);
    LastBlock(Stream(d, secret, seed, i), d.hmac(secret, a[i + 1] + seed), Stream(d, secret, seed, len), len);
  }

  lemma LastBlock(front: seq<Byte>, block: seq<Byte>, stream: seq<Byte>, len: nat)
    requires front + block <= stream && |front| + |block| <= len <= |stream|
    ensures stream[..len][|front|..|front| + |block|] == block
  {
    assert (front + block)[|front|..] == block && stream[..|front| + |block|] == front + block;
  }

  /** The first two blocks. */
  lemma TwoBlocks(d: Digest, secret: seq<Byte>, seed: seq<Byte>)
    requires Sized(d)
    ensures var a := d.hmac(secret, seed);
            Expand(d, secret, seed, d.len + d.len) ==
            d.hmac(secret, a + seed) + d.hmac(secret, d.hmac(secret, a) + seed)
  {
    var one := d.hmac(secret, seed);
    var a := [seed, one, d.hmac(secret, one)];
    BlockExactly(d, secret, seed, a, 0, d.len + d.len);
    BlockExactly(d, secret, seed, a, 1, d.len + d.len);
    var r := Expand(d, secret, seed, d.len + d.len);
    assert r == r[..d.len] + r[d.len..d.len + d.len];
  }

  /** The labels of sections 6.3 and 8.1 of RFC 5246. */
  lemma LabelsSpell()
    ensures Spells(MASTER_SECRET, "master secret") && Spells(KEY_EXPANSION, "key expansion")
  {
  }

  method Write(dest: array<Byte>, at: nat, data: seq<Byte>)
    requires at + |data| <= dest.Length
    modifies dest
    ensures dest[..at] == old(dest[..at]) && dest[at..at + |data|] == data
    ensures dest[at + |data|..] == old(dest[at + |data|..])
  {
    forall i | 0 <= i < |data| {
      dest[at + i] := data[i];
    }
  }

  /** Fills the first `dlen` octets of `dest`, block by block.  The running value is kept
      in a buffer as long as the seed, and one block in a buffer of 48 octets. */
  method PHash(d: Digest, dest: array<Byte>, dlen: nat, secret: seq<Byte>, seed: seq<Byte>)
    requires Sized(d) && dlen <= dest.Length && (dlen > 0 ==> d.len <= |seed|)
    modifies dest
    ensures dest[..dlen] == Expand(d, secret, seed, dlen) && dest[dlen..] == old(dest[dlen..])
  {
    var tmpseed := new Byte[|seed|](i requires 0 <= i < |seed| => seed[i]);
    var tmpslen, out, pending := |seed|, 0, dlen;
    ghost var n := 0;
    assert tmpseed[..tmpslen] == seed;
    while pending > 0
      invariant 0 <= pending <= dlen && out == dlen - pending && 0 <= tmpslen <= tmpseed.Length
      invariant tmpseed.Length == |seed| && fresh(tmpseed) && tmpseed != dest
      invariant tmpseed[..tmpslen] == A(d, secret, seed, n)
      invariant out == |Stream(d, secret, seed, n)| || (pending == 0 && out <= |Stream(d, secret, seed, n)|)
      invariant dest[..out] == Stream(d, secret, seed, n)[..out] && dest[dlen..] == old(dest[dlen..])
    {
      out, pending := NextBlock(d, dest, dlen, secret, seed, tmpseed, tmpslen, out, n);
      tmpslen := d.len;
      n := n + 1;
    }
    ExpandIs(d, secret, seed, dlen, n);
  }

  /** One turn of the loop: the next running value, and as much of the next block as is
      still needed. */
  method NextBlock(d: Digest, dest: array<Byte>, dlen: nat, secret: seq<Byte>, seed: seq<Byte>,
                   tmpseed: array<Byte>, tmpslen: nat, out: nat, ghost n: nat)
      returns (out_: nat, pending: nat)
    requires Sized(d) && d.len <= |seed| == tmpseed.Length && tmpslen <= tmpseed.Length && tmpseed != dest
    requires out < dlen <= dest.Length && tmpseed[..tmpslen] == A(d, secret, seed, n)
    requires out == |Stream(d, secret, seed, n)| && dest[..out] == Stream(d, secret, seed, n)
    modifies dest, tmpseed
    ensures out < out_ <= dlen && pending == dlen - out_ && tmpseed[..d.len] == A(d, secret, seed, n + 1)
    ensures out_ == |Stream(d, secret, seed, n + 1)| || (pending == 0 && out_ <= |Stream(d, secret, seed, n + 1)|)
    ensures dest[..out_] == Stream(d, secret, seed, n + 1)[..out_] && dest[dlen..] == old(dest[dlen..])
  {
    var a := d.hmac(secret, tmpseed[..tmpslen]);
    Write(tmpseed, 0, a);
    var hmac := d.hmac(secret, a + seed);
    var hlen := if |hmac| > dlen - out then dlen - out else |hmac|;
    ghost var before := dest[..];
    Write(dest, out, hmac[..hlen]);
    out_ := out + hlen;
    pending := dlen - out_;
    assert dest[..out_] == dest[..out] + dest[out..out_];
    assert dest[dlen..] == dest[out_..][dlen - out_..] == before[out_..][dlen - out_..];
  }

  // ---------------------------------------------------------------------------
  // PRF
  // ---------------------------------------------------------------------------

  datatype DigestKind = Sha1 | Sha256 | Sha384

  /** The algorithms of the cryptographic library. */
  datatype Library = Library(md5: Digest, sha1: Digest, sha256: Digest, sha384: Digest)

  ghost predicate Usable(lib: Library) {
    Sized(lib.md5) && Sized(lib.sha1) && Sized(lib.sha256) && Sized(lib.sha384)
  }

  lemma {:induction false} XorBound(a: nat, b: nat, k: nat)
    requires a < Pow2(k) && b < Pow2(k)
    ensures BitXor(a, b) < Pow2(k)
  {
    if k > 0 {
      XorBound(a / 2, b / 2, k - 1);
    }
  }

  function XorByte(a: Byte, b: Byte): Byte {
    assert Pow2(8) == 256 by {
      assert Pow2(4) == 16;
    }
    XorBound(a, b, 8);
    BitXor(a, b)
  }

  function Xor(a: seq<Byte>, b: seq<Byte>): (r: seq<Byte>)
    requires |a| == |b|
    ensures |r| == |a| && forall i :: 0 <= i < |a| ==> r[i] == XorByte(a[i], b[i])
  {
    seq(|a|, i requires 0 <= i < |a| => XorByte(a[i], b[i]))
  }

  /** The length of each half of a secret; the halves of an odd one share an octet. */
  function Half(plen: nat): nat {
    plen / 2 + plen % 2
  }

  /** The pseudorandom function of the RFCs: before TLS 1.2, MD5 and SHA-1 streams of the
      two halves of the secret, added bit by bit; from then on, one stream. */
  ghost function Prf(lib: Library, version: int, kind: DigestKind, secret: seq<Byte>, seed: seq<Byte>, len: nat)
      : (r: seq<Byte>)
    requires Usable(lib)
    ensures |r| == len
  {
    if version < 3 then TwoStreams(lib, secret[..Half(|secret|)], secret[|secret| / 2..], seed, len)
    else OneStream(lib, kind, secret, seed, len)
  }

  ghost function TwoStreams(lib: Library, first: seq<Byte>, second: seq<Byte>, seed: seq<Byte>, len: nat)
      : (r: seq<Byte>)
    requires Usable(lib)
    ensures |r| == len
  {
    Xor(Expand(lib.md5, first, seed, len), Expand(lib.sha1, second, seed, len))
  }

  ghost function OneStream(lib: Library, kind: DigestKind, secret: seq<Byte>, seed: seq<Byte>, len: nat): (r: seq<Byte>)
    requires Usable(lib)
    ensures |r| == len
  {
    if kind == Sha384 then Expand(lib.sha384, secret, seed, len) else Expand(lib.sha256, secret, seed, len)
  }

  /** Bit by bit, the pseudorandom function in terms of the streams: SHA-384 from TLS 1.2 on
      for the suites that say so, SHA-256 for the others; before, MD5 with the first half of
      the secret and SHA-1 with the last one, which share the middle octet of an odd one. */
  lemma PrfExactly(lib: Library, version: int, kind: DigestKind, secret: seq<Byte>, seed: seq<Byte>, len: nat,
                   i: nat, k: nat)
    requires Usable(lib) && i < len
    ensures version >= 3 ==>
              var d := if kind == Sha384 then lib.sha384 else lib.sha256;
              Prf(lib, version, kind, secret, seed, len) == Expand(d, secret, seed, len)
    ensures version < 3 ==>
              var one := Expand(lib.md5, secret[..(|secret| + 1) / 2], seed, len);
              var two := Expand(lib.sha1, secret[|secret| / 2..], seed, len);
              Bit(Prf(lib, version, kind, secret, seed, len)[i], k) == 1 <==> Bit(one[i], k) != Bit(two[i], k)
  {
    if version < 3 {
      var one := Expand(lib.md5, secret[..(|secret| + 1) / 2], seed, len);
      var two := Expand(lib.sha1, secret[|secret| / 2..], seed, len);
      HalfIs(|secret|);
      BitwiseExactly(one[i], two[i], k);
      assert Prf(lib, version, kind, secret, seed, len)[i] == XorByte(one[i], two[i]);
    }
  }

  lemma HalfIs(plen: nat)
    ensures Half(plen) == (plen + 1) / 2
  {
  }

  /** The octets from the secret on that the program reads: before TLS 1.2, twice a half. */
  predicate Readable(version: int, memory: seq<Byte>, plen: nat) {
    plen <= |memory| && (version < 3 ==> 2 * Half(plen) <= |memory|)
  }

  /** The second half of the secret, as the RFC has it and as the program reads it: from
      behind the first half. */
  function SecondHalf(memory: seq<Byte>, plen: nat): seq<Byte>
    requires plen <= |memory|
  {
    memory[plen / 2..plen]
  }

  function SecondRead(memory: seq<Byte>, plen: nat): seq<Byte>
    requires 2 * Half(plen) <= |memory|
  {
    memory[Half(plen)..2 * Half(plen)]
  }

  /** The function that the program computes; its secret is the first `plen` octets of
      `memory`. */
  ghost function PrfRead(lib: Library, version: int, kind: DigestKind, memory: seq<Byte>, plen: nat, seed: seq<Byte>,
                         len: nat): (r: seq<Byte>)
    requires Usable(lib) && Readable(version, memory, plen)
    ensures |r| == len
  {
    if version < 3 then TwoStreams(lib, memory[..Half(plen)], SecondRead(memory, plen), seed, len)
    else OneStream(lib, kind, memory[..plen], seed, len)
  }

  /** The running values fit into the buffer that holds the seed. */
  predicate SeedHolds(lib: Library, version: int, kind: DigestKind, seed: seq<Byte>) {
    if version < 3 then lib.md5.len <= |seed| && lib.sha1.len <= |seed|
    else if kind == Sha384 then lib.sha384.len <= |seed|
    else lib.sha256.len <= |seed|
  }

  /** Fills `dest`. */
  method PRF(lib: Library, version: int, kind: DigestKind, dest: array<Byte>, memory: seq<Byte>, plen: nat,
             label_: seq<Byte>, seed: seq<Byte>)
    requires Usable(lib) && Readable(version, memory, plen)
    requires dest.Length > 0 ==> SeedHolds(lib, version, kind, label_ + seed)
    modifies dest
    ensures dest[..] == PrfRead(lib, version, kind, memory, plen, label_ + seed, dest.Length)
  {
    var dlen, fseed := dest.Length, label_ + seed;
    if version < 3 {
      var half := Half(plen);
      var md5, sha := new Byte[dlen](_ => 0), new Byte[dlen](_ => 0);
      PHash(lib.md5, md5, dlen, memory[..half], fseed);
      PHash(lib.sha1, sha, dlen, memory[half..half + half], fseed);
      XorInto(dest, md5[..dlen], sha[..dlen]);
    } else {
      match kind {
        case Sha384 => PHash(lib.sha384, dest, dlen, memory[..plen], fseed);
        case _ => PHash(lib.sha256, dest, dlen, memory[..plen], fseed);
      }
      assert dest[..dlen] == dest[..];
    }
  }

  // ---------------------------------------------------------------------------
  // When it is the function of the RFCs
  // ---------------------------------------------------------------------------

  /** The two functions agree for all digest algorithms. */
  ghost predicate Agree(version: int, kind: DigestKind, memory: seq<Byte>, plen: nat, seed: seq<Byte>, len: nat)
    requires Readable(version, memory, plen)
  {
    forall lib :: Usable(lib) ==>
      PrfRead(lib, version, kind, memory, plen, seed, len) == Prf(lib, version, kind, memory[..plen], seed, len)
  }

  /** The keys are right, whatever the digest algorithms, exactly from TLS 1.2 on or where
      the program reads the right second half. */
  lemma AgreeExactly(version: int, kind: DigestKind, memory: seq<Byte>, plen: nat, seed: seq<Byte>, len: nat)
    requires Readable(version, memory, plen) && len > 0
    ensures Agree(version, kind, memory, plen, seed, len)
       <==> version >= 3 || SecondRead(memory, plen) == SecondHalf(memory, plen)
  {
    assert memory[..plen][plen / 2..] == SecondHalf(memory, plen);
    assert memory[..plen][..Half(plen)] == memory[..Half(plen)];
    if version < 3 && SecondRead(memory, plen) != SecondHalf(memory, plen) {
      var lib := Telling(SecondHalf(memory, plen));
      TellsApart(memory[..Half(plen)], SecondRead(memory, plen), SecondHalf(memory, plen), seed, len);
      assert PrfRead(lib, version, kind, memory, plen, seed, len)
          != Prf(lib, version, kind, memory[..plen], seed, len);
    }
  }

  lemma EvenIsRight(lib: Library, version: int, kind: DigestKind, secret: seq<Byte>, seed: seq<Byte>, len: nat)
    requires Usable(lib) && |secret| % 2 == 0
    ensures PrfRead(lib, version, kind, secret, |secret|, seed, len) == Prf(lib, version, kind, secret, seed, len)
  {
    assert secret[..|secret|] == secret && SecondRead(secret, |secret|) == secret[|secret| / 2..];
  }

  /** Digest algorithms whose SHA-1 knows one secret. */
  function Telling(secret: seq<Byte>): Library {
    var zero := Digest(1, (k, x) => [0]);
    Library(zero, Digest(1, (k, x) => if k == secret then [1] else [0]), zero, zero)
  }

  lemma FirstOctet(d: Digest, secret: seq<Byte>, seed: seq<Byte>, len: nat)
    requires Sized(d) && len > 0
    ensures Expand(d, secret, seed, len)[0] == d.hmac(secret, A(d, secret, seed, 1) + seed)[0]
  {
    StreamLen(d, secret, seed, 1);
    assert Stream(d, secret, seed, 1) == Stream(d, secret, seed, 0) + d.hmac(secret, A(d, secret, seed, 1) + seed);
    ExpandIs(d, secret, seed, 1, 1);
    ExpandPrefix(d, secret, seed, 1, len);
  }

  lemma TellsApart(first: seq<Byte>, other: seq<Byte>, secret: seq<Byte>, seed: seq<Byte>, len: nat)
    requires other != secret && len > 0
    ensures Usable(Telling(secret))
    ensures TwoStreams(Telling(secret), first, other, seed, len)
         != TwoStreams(Telling(secret), first, secret, seed, len)
  {
    var lib := Telling(secret);
    FirstOctet(lib.md5, first, seed, len);
    FirstOctet(lib.sha1, other, seed, len);
    FirstOctet(lib.sha1, secret, seed, len);
    assert XorByte(0, 0) == 0 && XorByte(0, 1) == 1;
  }

  /** The right second half is read, whatever lies in memory, exactly for secrets of even
      length. */
  lemma HalvesExactly(plen: nat)
    ensures (forall memory: seq<Byte> :: 2 * Half(plen) <= |memory| ==>
               SecondRead(memory, plen) == SecondHalf(memory, plen)) <==> plen % 2 == 0
  {
    if plen % 2 != 0 {
      var n := plen / 2;
      var memory: seq<Byte> := seq(2 * n + 2, i => if i == 2 * n + 1 then 1 else 0);
      assert SecondRead(memory, plen)[n] == 1 && SecondHalf(memory, plen)[n] == 0;
    }
  }

  method XorInto(dest: array<Byte>, a: seq<Byte>, b: seq<Byte>)
    requires |a| == |b| == dest.Length
    modifies dest
    ensures dest[..] == Xor(a, b)
  {
    var i := 0;
    while i < dest.Length
      invariant 0 <= i <= dest.Length && dest[..i] == Xor(a, b)[..i]
    {
      dest[i] := XorByte(a[i], b[i]);
      i := i + 1;
    }
  }

  // ---------------------------------------------------------------------------
  // The key block
  // ---------------------------------------------------------------------------

  datatype Mode = Cbc | Gcm

  datatype Cipher = Cipher(number: nat, ivblock: nat, bits: nat, digest: DigestKind, diglen: nat, mode: Mode)

  /** The cipher suites that the program knows. */
  const CIPHERS: seq<Cipher> := [
    Cipher(0x2F, 16, 128, Sha1, 20, Cbc),
    Cipher(0x35, 16, 256, Sha1, 20, Cbc),
    Cipher(0x9d, 4, 256, Sha384, 48, Gcm)
  ]

  /** How much of the stream is requested for a cipher. */
  function BlockLen(c: Cipher): nat {
    c.diglen * 2 + c.ivblock * 2 + c.bits / 4
  }

  datatype Keys = Keys(clientMac: seq<Byte>, serverMac: seq<Byte>, clientKey: seq<Byte>, serverKey: seq<Byte>,
                       clientIv: seq<Byte>, serverIv: seq<Byte>)

  /** The keys in the order of section 6.3 of RFC 5246. */
  function KeyBlock(k: Keys): seq<Byte> {
    k.clientMac + k.serverMac + k.clientKey + k.serverKey + k.clientIv + k.serverIv
  }

  /** The keys have the lengths that the cipher asks for; with GCM there are no MAC
      keys. */
  predicate HasLengths(k: Keys, c: Cipher) {
    && |k.clientMac| == |k.serverMac| == (if c.mode == Gcm then 0 else c.diglen)
    && |k.clientKey| == |k.serverKey| == c.bits / 8
    && |k.clientIv| == |k.serverIv| == c.ivblock
  }

  /** The keys use up the whole block exactly in CBC mode with keys of whole octets (or
      where a MAC key has no octets). */
  lemma BlockIsFilledExactly(k: Keys, c: Cipher)
    requires HasLengths(k, c)
    ensures |KeyBlock(k)| <= BlockLen(c)
    ensures |KeyBlock(k)| == BlockLen(c) <==> (c.mode == Cbc || c.diglen == 0) && c.bits % 8 < 4
  {
  }

  /** For the cipher suites that the program knows: exactly in CBC mode. */
  lemma KnownBlocks(k: Keys, i: nat)
    requires i < |CIPHERS| && HasLengths(k, CIPHERS[i])
    ensures |KeyBlock(k)| == BlockLen(CIPHERS[i]) <==> CIPHERS[i].mode == Cbc
  {
    BlockIsFilledExactly(k, CIPHERS[i]);
  }

  /** Where the keys are in the block: with SHA-1 and AES in CBC mode, with keys of 128 and
      of 256 bits, and with AES in GCM. */
  lemma KnownKeyPlaces(k: Keys, i: nat, b: seq<Byte>)
    requires i < |CIPHERS| && HasLengths(k, CIPHERS[i]) && b == KeyBlock(k)
    ensures i == 0 ==> |b| == 104 && k == Keys(b[..20], b[20..40], b[40..56], b[56..72], b[72..88], b[88..])
    ensures i == 1 ==> |b| == 136 && k == Keys(b[..20], b[20..40], b[40..72], b[72..104], b[104..120], b[120..])
    ensures i == 2 ==> |b| == 72 && k == Keys([], [], b[..32], b[32..64], b[64..68], b[68..])
  {
    PlacesAre(k, |k.clientMac|, |k.clientKey|, |k.clientIv|, b);
  }

  lemma PlacesAre(k: Keys, m: nat, n: nat, v: nat, b: seq<Byte>)
    requires |k.clientMac| == |k.serverMac| == m && |k.clientKey| == |k.serverKey| == n
    requires |k.clientIv| == |k.serverIv| == v && b == KeyBlock(k)
    ensures |b| == 2 * (m + n + v) && k.clientMac == b[..m] && k.serverMac == b[m..2 * m]
    ensures k.clientKey == b[2 * m..2 * m + n] && k.serverKey == b[2 * m + n..2 * m + 2 * n]
    ensures k.clientIv == b[2 * m + 2 * n..2 * m + 2 * n + v] && k.serverIv == b[2 * m + 2 * n + v..]
  {
  }

  class Connection {
    const version: int
    const cipher: Cipher
    const clientRandom: seq<Byte>
    const serverRandom: seq<Byte>
    var preMasterSecret: seq<Byte>
    var masterSecret: seq<Byte>
    var clientMac: seq<Byte>
    var serverMac: seq<Byte>
    var clientKey: seq<Byte>
    var serverKey: seq<Byte>
    var clientIv: seq<Byte>
    var serverIv: seq<Byte>

    constructor (version: int, cipher: Cipher, clientRandom: seq<Byte>, serverRandom: seq<Byte>)
      ensures this.version == version && this.cipher == cipher
      ensures this.clientRandom == clientRandom && this.serverRandom == serverRandom
    {
      this.version, this.cipher, this.clientRandom, this.serverRandom := version, cipher, clientRandom, serverRandom;
      preMasterSecret, masterSecret := [], [];
      clientMac, serverMac, clientKey, serverKey, clientIv, serverIv := [], [], [], [], [], [];
    }

    function KeyMaterial(): Keys
      reads this
    {
      Keys(clientMac, serverMac, clientKey, serverKey, clientIv, serverIv)
    }

    /** Derives the master secret and all keys from the decrypted pre-master secret. */
    method ProcessClientKeyExchange(lib: Library, pms: seq<Byte>)
      requires Usable(lib) && |pms| == SECRET_LEN && |clientRandom| == |serverRandom| == 32
      modifies this
      ensures preMasterSecret == pms
      ensures masterSecret
           == Prf(lib, version, cipher.digest, pms, MASTER_SECRET + (clientRandom + serverRandom), SECRET_LEN)
      ensures HasLengths(KeyMaterial(), cipher)
      ensures KeyBlock(KeyMaterial())
           <= Prf(lib, version, cipher.digest, masterSecret, KEY_EXPANSION + (serverRandom + clientRandom),
                  BlockLen(cipher))
    {
      preMasterSecret := pms;
      masterSecret := Derive(lib, pms, MASTER_SECRET, clientRandom + serverRandom, SECRET_LEN);
      var block := Derive(lib, masterSecret, KEY_EXPANSION, serverRandom + clientRandom, BlockLen(cipher));
      SliceKeys(block);
    }

    method Derive(lib: Library, secret: seq<Byte>, label_: seq<Byte>, seed: seq<Byte>, len: nat)
        returns (out: seq<Byte>)
      requires Usable(lib) && |label_ + seed| >= HMAC_ROOM && |secret| % 2 == 0
      ensures out == Prf(lib, version, cipher.digest, secret, label_ + seed, len)
    {
      var dest := new Byte[len](_ => 0);
      PRF(lib, version, cipher.digest, dest, secret, |secret|, label_, seed);
      EvenIsRight(lib, version, cipher.digest, secret, label_ + seed, len);
      out := dest[..];
    }

    /** Cuts the key block into the keys, one behind the other. */
    method SliceKeys(block: seq<Byte>)
      requires |block| == BlockLen(cipher)
      modifies this`clientMac, this`serverMac, this`clientKey, this`serverKey, this`clientIv, this`serverIv
      ensures HasLengths(KeyMaterial(), cipher) && KeyBlock(KeyMaterial()) <= block
    {
      var at := 0;
      if cipher.mode == Gcm {
        clientMac, serverMac := [], [];
      } else {
        clientMac, serverMac, at := CutPair(block, at, cipher.diglen);
      }
      ghost var macs := clientMac + serverMac;
      assert block[..at] == macs;
      clientKey, serverKey, at := CutPair(block, at, cipher.bits / 8);
      ghost var keys := clientKey + serverKey;
      clientIv, serverIv, at := CutPair(block, at, cipher.ivblock);
      InOrder(KeyMaterial(), macs, keys, block[..at]);
    }
  }

  lemma InOrder(k: Keys, macs: seq<Byte>, keys: seq<Byte>, block: seq<Byte>)
    requires macs == k.clientMac + k.serverMac && keys == k.clientKey + k.serverKey
    requires block == macs + keys + (k.clientIv + k.serverIv)
    ensures KeyBlock(k) == block
  {
  }

  /** The next two parts of the block, one for each side. */
  method CutPair(block: seq<Byte>, at: nat, len: nat) returns (client: seq<Byte>, server: seq<Byte>, next: nat)
    requires at + len + len <= |block|
    ensures |client| == |server| == len && next == at + len + len && block[..next] == block[..at] + (client + server)
  {
    client, next := Cut(block, at, len);
    server, next := Cut(block, next, len);
  }

  /** The next octets of the block, and the position behind them. */
  method Cut(block: seq<Byte>, at: nat, len: nat) returns (part: seq<Byte>, next: nat)
    requires at + len <= |block|
    ensures |part| == len && next == at + len && block[..next] == block[..at] + part
  {
    part, next := block[at..at + len], at + len;
  }
}
