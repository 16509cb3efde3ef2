/** The HEP3 encapsulation (src/capture_eep.c): the sender that prints a captured packet
    as a list of type-length-value chunks, and the receiver that parses one. */
module Hep3 {
  import opened Common
  import opened Packets

  const MAX_CAPTURE_LEN: nat := 20480
  const HEADER_LEN: nat := 6
  const CHUNK_LEN: nat := 6
  const GENERIC_LEN: nat := 73
  const PASSWORD_LEN: nat := 100

  /** "HEP3" */
  const HEP3: seq<Byte> := [72, 69, 80, 51]

  const AF_INET: Byte := 2
  const AF_INET6: Byte := 10

  // ---------------------------------------------------------------------------
  // Numbers in network order
  // ---------------------------------------------------------------------------

  /** The low 16 bits, as `htons` stores them. */
  function Put16(v: nat): (r: seq<Byte>)
    ensures |r| == 2
  {
    [v / 0x100 % 0x100, v % 0x100]
  }

  /** The low 32 bits, as `htonl` stores them. */
  function Put32(v: nat): (r: seq<Byte>)
    ensures |r| == 4
  {
    Put16(v / 0x10000) + Put16(v)
  }

  function Get16(b: seq<Byte>): (r: nat)
    requires |b| == 2
    ensures r < 0x10000
  {
    var high: int := b[0];
    high * 0x100 + b[1]
  }

  function Get32(b: seq<Byte>): (r: nat)
    requires |b| == 4
  {
    Get16(b[..2]) * 0x10000 + Get16(b[2..])
  }

  lemma Get16Put16(v: nat)
    ensures Get16(Put16(v)) == v % 0x10000
  {
  }

  lemma Get32Put32(v: nat)
    requires v < 0x1_0000_0000
    ensures Get32(Put32(v)) == v
  {
    assert Put32(v)[..2] == Put16(v / 0x10000) && Put32(v)[2..] == Put16(v);
    Get16Put16(v / 0x10000);
    Get16Put16(v);
  }

  /** What a HEP3 packet tells about a captured one.  Addresses are octets; there are
      none when no address was seen. */
  datatype Message = Message(version: nat, proto: Byte, src: Address, dst: Address, sec: nat, usec: nat,
                             payload: seq<Byte>)

  // ---------------------------------------------------------------------------
  // Chunks
  // ---------------------------------------------------------------------------

  datatype Chunk = Chunk(vendor: nat, kind: nat, body: seq<Byte>)

  function ChunkHeader(c: Chunk): (r: seq<Byte>)
    ensures |r| == CHUNK_LEN
  {
    Put16(c.vendor) + Put16(c.kind) + Put16(CHUNK_LEN + |c.body|)
  }

  function Bytes(c: Chunk): (r: seq<Byte>)
    ensures |r| == CHUNK_LEN + |c.body|
  {
    ChunkHeader(c) + c.body
  }

  function Joined(cs: seq<Chunk>): seq<Byte> {
    if cs == [] then [] else Bytes(cs[0]) + Joined(cs[1..])
  }

  /** A HEP3 packet with these chunks. */
  function PacketOf(cs: seq<Chunk>): seq<Byte> {
    HEP3 + Put16(HEADER_LEN + |Joined(cs)|) + Joined(cs)
  }

  lemma {:induction false} JoinedPlus(a: seq<Chunk>, b: seq<Chunk>)
    ensures Joined(a + b) == Joined(a) + Joined(b)
  {
    if a == [] {
      assert a + b == b;
    } else {
      assert (a + b)[1..] == a[1..] + b;
      JoinedPlus(a[1..], b);
    }
  }

  lemma JoinedOne(c: Chunk)
    ensures Joined([c]) == Bytes(c)
  {
    assert Joined([c][1..]) == [];
  }

  // ---------------------------------------------------------------------------
  // The receiver
  // ---------------------------------------------------------------------------

  /** What the receiver's variables hold while it walks over the chunks. */
  datatype Fields = Fields(family: Byte, proto: Byte, srcIp: seq<Byte>, srcPort: nat, dstIp: seq<Byte>, dstPort: nat,
                           sec: nat, usec: nat, password: seq<Byte>, payload: seq<Byte>)

  /** The packet is dropped, the C code reads or writes outside of its buffers, or a
      packet is built. */
  datatype Outcome = Dropped | Overrun | Decoded(packet: Message)

  /** The same for the loop over the chunks. */
  datatype Walk = Bad | Outside | Done(fields: Fields)

  /** How many octets behind its header the receiver copies of a chunk of this type and
      length: the size of a C structure, whatever the length, or all of it.  Nothing
      when the copy has a negative size or does not fit into the password buffer. */
  function Copied(kind: nat, len: nat): Option<nat> {
    if kind in {1, 2, 11} then Some(1)
    else if kind in {3, 4, 9, 10, 12} then Some(4)
    else if kind in {5, 6} then Some(16)
    else if kind in {7, 8} then Some(2)
    else if kind == 14 then if CHUNK_LEN <= len <= CHUNK_LEN + PASSWORD_LEN then Some(len - CHUNK_LEN) else None
    else if kind == 15 then if CHUNK_LEN <= len then Some(len - CHUNK_LEN) else None
    else Some(0)
  }

  /** The variables after the copy.  The capture protocol (11) and the capture agent
      (12) are copied too, but nothing reads them. */
  function Assign(f: Fields, kind: nat, data: seq<Byte>): Fields
    requires Copied(kind, CHUNK_LEN + |data|) == Some(|data|)
  {
    match kind
    case 1 => f.(family := data[0])
    case 2 => f.(proto := data[0])
    case 3 => f.(srcIp := data)
    case 4 => f.(dstIp := data)
    case 5 => f.(srcIp := data)
    case 6 => f.(dstIp := data)
    case 7 => f.(srcPort := Get16(data))
    case 8 => f.(dstPort := Get16(data))
    case 9 => f.(sec := Get32(data))
    case 10 => f.(usec := Get32(data))
    case 14 => f.(password := Overlay(f.password, data))
    case 15 => f.(payload := data)
    case _ => f
  }

  /** The password buffer with `data` written to its beginning. */
  function Overlay(old_: seq<Byte>, data: seq<Byte>): seq<Byte> {
    data + if |data| <= |old_| then old_[|data|..] else []
  }

  lemma CopiedFits(kind: nat, len: nat)
    requires Copied(kind, len).Some?
    ensures Copied(kind, CHUNK_LEN + Copied(kind, len).value) == Copied(kind, len)
  {
  }

  /** The octets of a chunk behind its header, as far as they are copied. */
  function DataAt(buf: seq<Byte>, pos: nat, n: nat): (r: seq<Byte>)
    requires pos + CHUNK_LEN + n <= |buf|
    ensures |r| == n
  {
    buf[pos + CHUNK_LEN..pos + CHUNK_LEN + n]
  }

  /** The chunk at `pos` is one of the general ones: the receiver's variables after it. */
  function Take(buf: seq<Byte>, pos: nat, kind: nat, len: nat, f: Fields): Walk {
    if kind == 0 then Bad
    else
      match Copied(kind, len)
      case None => Outside
      case Some(n) =>
        if pos + CHUNK_LEN + n > |buf| then Outside
        else
          CopiedFits(kind, len);
          Done(Assign(f, kind, DataAt(buf, pos, n)))
  }

  /** The walk over the chunks from `pos` up to the announced length. */
  function Scan(buf: seq<Byte>, pos: nat, total: nat, f: Fields): Walk
    decreases total - pos
  {
    if pos >= total then Done(f)
    else if pos + CHUNK_LEN > |buf| then Outside
    else
      var vendor, kind, len := Get16(buf[pos..pos + 2]), Get16(buf[pos + 2..pos + 4]), Get16(buf[pos + 4..pos + 6]);
      if len == 0 then Bad
      else if vendor != 0 then Scan(buf, pos + len, total, f)
      else
        match Take(buf, pos, kind, len, f)
        case Done(g) => Scan(buf, pos + len, total, g)
        case w => w
  }

  /** Before the walk, family and protocol come from where the sender puts them. */
  function Initial(buf: seq<Byte>): Fields
    requires |buf| >= GENERIC_LEN
  {
    Fields(buf[12], buf[19], [], 0, [], 0, 0, 0, seq(PASSWORD_LEN, _ => 0), [])
  }

  function StrLen(s: seq<Byte>, i: nat): (r: nat)
    requires i <= |s|
    ensures i <= r <= |s| && (forall k :: i <= k < r ==> s[k] != 0) && (r < |s| ==> s[r] == 0)
    decreases |s| - i
  {
    if i < |s| && s[i] != 0 then StrLen(s, i + 1) else i
  }

  /** The password check and the result. */
  function Finish(f: Fields, srvPassword: Option<CString>): Outcome {
    if srvPassword.Some? && StrLen(f.password, 0) == |f.password| then Overrun
    else if srvPassword.Some? && !(StrLen(f.password, 0) > 0 && srvPassword.value <= f.password) then Dropped
    else Decoded(Message(if f.family == AF_INET then 4 else 6, f.proto, Address(f.srcIp, f.srcPort),
                          Address(f.dstIp, f.dstPort), f.sec, f.usec, f.payload))
  }

  function Receive(buf: seq<Byte>, srvPassword: Option<CString>): Outcome
    requires |buf| >= GENERIC_LEN
  {
    if buf[..4] != HEP3 then Dropped
    else
      match Scan(buf, HEADER_LEN, Get16(buf[4..6]), Initial(buf))
      case Bad => Dropped
      case Outside => Overrun
      case Done(f) => Finish(f, srvPassword)
  }

  // ---------------------------------------------------------------------------
  // The receiver on a list of chunks
  // ---------------------------------------------------------------------------

  /** The chunk's numbers fit their fields, and a general chunk brings at least the
      octets that the receiver copies. */
  predicate Sound(c: Chunk) {
    && c.vendor < 0x10000 && c.kind < 0x10000 && CHUNK_LEN + |c.body| < 0x10000
    && (c.vendor == 0 ==>
          c.kind != 0 && Copied(c.kind, CHUNK_LEN + |c.body|).Some?
          && Copied(c.kind, CHUNK_LEN + |c.body|).value <= |c.body|)
  }

  predicate AllSound(cs: seq<Chunk>) {
    forall i :: 0 <= i < |cs| ==> Sound(cs[i])
  }

  function Apply(f: Fields, c: Chunk): Fields
    requires Sound(c)
  {
    if c.vendor != 0 then f
    else
      var len := CHUNK_LEN + |c.body|;
      CopiedFits(c.kind, len);
      Assign(f, c.kind, c.body[..Copied(c.kind, len).value])
  }

  function ApplyAll(f: Fields, cs: seq<Chunk>): Fields
    requires AllSound(cs)
    decreases |cs|
  {
    if cs == [] then f else ApplyAll(Apply(f, cs[0]), cs[1..])
  }

  lemma BytesParts(c: Chunk, rest: seq<Byte>)
    ensures var s := Bytes(c) + rest;
            s[0..2] == Put16(c.vendor) && s[2..4] == Put16(c.kind) && s[4..6] == Put16(CHUNK_LEN + |c.body|)
            && s[6..6 + |c.body|] == c.body && s[|Bytes(c)|..|s|] == rest
  {
  }

  lemma ChunkAt(buf: seq<Byte>, pos: nat, c: Chunk, rest: seq<Byte>)
    requires pos + |Bytes(c)| + |rest| <= |buf|
    requires buf[pos..pos + |Bytes(c)| + |rest|] == Bytes(c) + rest
    ensures buf[pos..pos + 2] == Put16(c.vendor) && buf[pos + 2..pos + 4] == Put16(c.kind)
    ensures buf[pos + 4..pos + 6] == Put16(CHUNK_LEN + |c.body|)
    ensures buf[pos + 6..pos + 6 + |c.body|] == c.body
    ensures buf[pos + |Bytes(c)|..pos + |Bytes(c)| + |rest|] == rest
  {
    var s := Bytes(c) + rest;
    BytesParts(c, rest);
    PartOf(buf, pos, s, 0, 2);
    PartOf(buf, pos, s, 2, 4);
    PartOf(buf, pos, s, 4, 6);
    PartOf(buf, pos, s, 6, 6 + |c.body|);
    PartOf(buf, pos, s, |Bytes(c)|, |s|);
  }

  lemma TakeIs(buf: seq<Byte>, pos: nat, c: Chunk, f: Fields)
    requires Sound(c) && c.vendor == 0 && pos + CHUNK_LEN + |c.body| <= |buf|
    requires buf[pos + CHUNK_LEN..pos + CHUNK_LEN + |c.body|] == c.body
    ensures Take(buf, pos, c.kind, CHUNK_LEN + |c.body|, f) == Done(Apply(f, c))
  {
    var n := Copied(c.kind, CHUNK_LEN + |c.body|).value;
    assert DataAt(buf, pos, n) == c.body[..n];
  }

  lemma ScanTurn(buf: seq<Byte>, pos: nat, total: nat, f: Fields, vendor: nat, kind: nat, len: nat)
    requires pos < total && pos + CHUNK_LEN <= |buf| && len > 0
    requires Get16(buf[pos..pos + 2]) == vendor && Get16(buf[pos + 2..pos + 4]) == kind
    requires Get16(buf[pos + 4..pos + 6]) == len
    requires vendor == 0 ==> Take(buf, pos, kind, len, f).Done?
    ensures Scan(buf, pos, total, f)
         == Scan(buf, pos + len, total, if vendor == 0 then Take(buf, pos, kind, len, f).fields else f)
  {
  }

  /** One turn of the loop on a chunk. */
  lemma ScanChunk(buf: seq<Byte>, pos: nat, total: nat, f: Fields, c: Chunk, rest: seq<Byte>)
    requires Sound(c) && pos + |Bytes(c)| + |rest| == total <= |buf|
    requires buf[pos..total] == Bytes(c) + rest
    ensures buf[pos + |Bytes(c)|..total] == rest
    ensures Scan(buf, pos, total, f) == Scan(buf, pos + |Bytes(c)|, total, Apply(f, c))
  {
    ChunkAt(buf, pos, c, rest);
    Get16Put16(c.vendor);
    Get16Put16(c.kind);
    Get16Put16(CHUNK_LEN + |c.body|);
    if c.vendor == 0 {
      TakeIs(buf, pos, c, f);
    }
    ScanTurn(buf, pos, total, f, c.vendor, c.kind, CHUNK_LEN + |c.body|);
  }

  /** The walk over the octets of a list of chunks applies them one by one, and ends. */
  lemma {:induction false} ScanAppliesAll(buf: seq<Byte>, pos: nat, total: nat, f: Fields, cs: seq<Chunk>)
    requires AllSound(cs) && pos + |Joined(cs)| == total <= |buf| && buf[pos..total] == Joined(cs)
    ensures Scan(buf, pos, total, f) == Done(ApplyAll(f, cs))
    decreases |cs|
  {
    if cs != [] {
      ScanChunk(buf, pos, total, f, cs[0], Joined(cs[1..]));
      ScanAppliesAll(buf, pos + |Bytes(cs[0])|, total, Apply(f, cs[0]), cs[1..]);
    }
  }

  lemma HeaderParts(buf: seq<Byte>, joined: seq<Byte>)
    requires HEP3 + Put16(HEADER_LEN + |joined|) + joined <= buf
    ensures buf[..4] == HEP3 && buf[4..6] == Put16(HEADER_LEN + |joined|)
    ensures buf[HEADER_LEN..HEADER_LEN + |joined|] == joined
  {
    var p := HEP3 + Put16(HEADER_LEN + |joined|) + joined;
    assert p[0..4] == HEP3 && p[4..6] == Put16(HEADER_LEN + |joined|) && p[6..|p|] == joined;
    PartOf(buf, 0, p, 0, 4);
    PartOf(buf, 0, p, 4, 6);
    PartOf(buf, 0, p, 6, |p|);
  }

  /** What the receiver makes of a packet of sound chunks at the beginning of its
      buffer. */
  lemma ReceiveIs(buf: seq<Byte>, cs: seq<Chunk>, srvPassword: Option<CString>)
    requires AllSound(cs) && |buf| >= GENERIC_LEN && PacketOf(cs) <= buf && |PacketOf(cs)| < 0x10000
    ensures Receive(buf, srvPassword) == Finish(ApplyAll(Initial(buf), cs), srvPassword)
  {
    var joined := Joined(cs);
    HeaderParts(buf, joined);
    ReceiveJoined(buf, cs, HEADER_LEN + |joined|, srvPassword);
  }

  lemma ReceiveJoined(buf: seq<Byte>, cs: seq<Chunk>, total: nat, srvPassword: Option<CString>)
    requires AllSound(cs) && |buf| >= GENERIC_LEN && total < 0x10000 && total <= |buf|
    requires total == HEADER_LEN + |Joined(cs)| && buf[..4] == HEP3 && buf[4..6] == Put16(total)
    requires buf[HEADER_LEN..total] == Joined(cs)
    ensures Receive(buf, srvPassword) == Finish(ApplyAll(Initial(buf), cs), srvPassword)
  {
    Get16Put16(total);
    ScanAppliesAll(buf, HEADER_LEN, total, Initial(buf), cs);
    ReceiveWalked(buf, total, ApplyAll(Initial(buf), cs), srvPassword);
  }

  lemma ReceiveWalked(buf: seq<Byte>, total: nat, f: Fields, srvPassword: Option<CString>)
    requires |buf| >= GENERIC_LEN && buf[..4] == HEP3 && Get16(buf[4..6]) == total
    requires Scan(buf, HEADER_LEN, total, Initial(buf)) == Done(f)
    ensures Receive(buf, srvPassword) == Finish(f, srvPassword)
  {
  }

  // ---------------------------------------------------------------------------
  // Chunk order
  // ---------------------------------------------------------------------------

  /** Which of the receiver's variables a chunk sets; 0 for none. */
  function Target(c: Chunk): nat {
    if c.vendor != 0 then 0
    else if c.kind == 5 then 3
    else if c.kind == 6 then 4
    else if 1 <= c.kind <= 10 || c.kind in {14, 15} then c.kind
    else 0
  }

  /** No variable is set twice. */
  ghost predicate NoRepeats(cs: seq<Chunk>) {
    forall i, j :: 0 <= i < j < |cs| && Target(cs[i]) != 0 ==> Target(cs[i]) != Target(cs[j])
  }

  lemma ApplyCommutes(f: Fields, a: Chunk, b: Chunk)
    requires Sound(a) && Sound(b) && (Target(a) == 0 || Target(a) != Target(b))
    ensures Apply(Apply(f, a), b) == Apply(Apply(f, b), a)
  {
  }

  function Without(cs: seq<Chunk>, i: nat): seq<Chunk>
    requires i < |cs|
  {
    cs[..i] + cs[i + 1..]
  }

  /** A chunk may be moved to the front. */
  lemma {:induction false} MoveToFront(f: Fields, cs: seq<Chunk>, i: nat)
    requires AllSound(cs) && NoRepeats(cs) && i < |cs|
    ensures ApplyAll(f, cs) == ApplyAll(Apply(f, cs[i]), Without(cs, i))
    decreases |cs|
  {
    if i == 0 {
      assert Without(cs, 0) == cs[1..];
    } else {
      var g, tail := Apply(f, cs[0]), cs[1..];
      MoveToFront(g, tail, i - 1);
      assert Target(cs[0]) == 0 || Target(cs[0]) != Target(cs[i]);
      ApplyCommutes(f, cs[0], cs[i]);
      assert Without(cs, i)[1..] == Without(tail, i - 1);
    }
  }

  lemma WithoutCounts(cs: seq<Chunk>, i: nat)
    requires i < |cs|
    ensures multiset(Without(cs, i)) == multiset(cs) - multiset{cs[i]}
  {
    assert cs == cs[..i] + ([cs[i]] + cs[i + 1..]);
  }

  lemma WithoutKeeps(cs: seq<Chunk>, i: nat)
    requires AllSound(cs) && NoRepeats(cs) && i < |cs|
    ensures AllSound(Without(cs, i)) && NoRepeats(Without(cs, i)) && |Without(cs, i)| == |cs| - 1
  {
  }

  lemma SameSize(cs: seq<Chunk>, ds: seq<Chunk>)
    requires multiset(cs) == multiset(ds)
    ensures |cs| == |ds|
  {
    assert |multiset(cs)| == |cs| && |multiset(ds)| == |ds|;
  }

  lemma FindIn(c: Chunk, ds: seq<Chunk>) returns (i: nat)
    requires c in multiset(ds)
    ensures i < |ds| && ds[i] == c
  {
    i :| 0 <= i < |ds| && ds[i] == c;
  }

  lemma {:induction false} PermutedSame(f: Fields, cs: seq<Chunk>, ds: seq<Chunk>)
    requires AllSound(cs) && AllSound(ds) && NoRepeats(ds) && multiset(cs) == multiset(ds)
    ensures ApplyAll(f, cs) == ApplyAll(f, ds)
    decreases |cs|
  {
    SameSize(cs, ds);
    if cs != [] {
      assert cs[0] in multiset(cs);
      var i := FindIn(cs[0], ds);
      var tail, rest := cs[1..], Without(ds, i);
      MoveToFront(f, ds, i);
      WithoutKeeps(ds, i);
      WithoutCounts(ds, i);
      WithoutCounts(cs, 0);
      assert Without(cs, 0) == tail;
      PermutedSame(Apply(f, cs[0]), tail, rest);
    }
  }

  function General(): Chunk -> bool {
    (c: Chunk) => c.vendor == 0
  }

  lemma {:induction false} ApplyAllMore(f: Fields, cs: seq<Chunk>, c: Chunk)
    requires AllSound(cs) && Sound(c)
    ensures AllSound(cs + [c]) && ApplyAll(f, cs + [c]) == Apply(ApplyAll(f, cs), c)
    decreases |cs|
  {
    if cs == [] {
      assert (cs + [c])[1..] == [];
    } else {
      assert (cs + [c])[1..] == cs[1..] + [c];
      ApplyAllMore(Apply(f, cs[0]), cs[1..], c);
    }
  }

  /** Chunks of other vendors change nothing. */
  lemma {:induction false} OthersChangeNothing(f: Fields, cs: seq<Chunk>, n: nat)
    requires AllSound(cs) && n <= |cs|
    ensures AllSound(FilterTo(cs, n, General()))
    ensures ApplyAll(f, cs[..n]) == ApplyAll(f, FilterTo(cs, n, General()))
  {
    if n > 0 {
      OthersChangeNothing(f, cs, n - 1);
      assert cs[..n] == cs[..n - 1] + [cs[n - 1]];
      ApplyAllMore(f, cs[..n - 1], cs[n - 1]);
      if General()(cs[n - 1]) {
        ApplyAllMore(f, FilterTo(cs, n - 1, General()), cs[n - 1]);
      } else {
        assert FilterTo(cs, n, General()) == FilterTo(cs, n - 1, General());
      }
    }
  }

  /** Equal except for the family and the protocol that no chunk has set yet. */
  predicate SameBut(f: Fields, g: Fields, family: bool, proto: bool) {
    && f == g.(family := f.family, proto := f.proto)
    && (family ==> f.family == g.family) && (proto ==> f.proto == g.proto)
  }

  lemma {:induction false} ChunksDecide(f: Fields, g: Fields, cs: seq<Chunk>, family: bool, proto: bool)
    requires AllSound(cs) && SameBut(f, g, family, proto)
    requires family || exists i :: 0 <= i < |cs| && Target(cs[i]) == 1
    requires proto || exists i :: 0 <= i < |cs| && Target(cs[i]) == 2
    ensures ApplyAll(f, cs) == ApplyAll(g, cs)
    decreases |cs|
  {
    if cs != [] {
      var family_, proto_ := family || Target(cs[0]) == 1, proto || Target(cs[0]) == 2;
      assert family_ || exists i :: 0 <= i < |cs[1..]| && Target(cs[1..][i]) == 1 by {
        if !family_ {
          var i :| 0 <= i < |cs| && Target(cs[i]) == 1;
          assert Target(cs[1..][i - 1]) == 1;
        }
      }
      assert proto_ || exists i :: 0 <= i < |cs[1..]| && Target(cs[1..][i]) == 2 by {
        if !proto_ {
          var i :| 0 <= i < |cs| && Target(cs[i]) == 2;
          assert Target(cs[1..][i - 1]) == 2;
        }
      }
      ChunksDecide(Apply(f, cs[0]), Apply(g, cs[0]), cs[1..], family_, proto_);
    }
  }

  /** The chunks bring the address family and the protocol. */
  ghost predicate TellsFamilyAndProto(cs: seq<Chunk>) {
    && (exists i :: 0 <= i < |cs| && Target(cs[i]) == 1)
    && (exists i :: 0 <= i < |cs| && Target(cs[i]) == 2)
  }

  /** Order independence: two packets whose general chunks are the same in some order,
      with any chunks of other vendors in between, are received alike, whatever the
      buffers hold behind them. */
  lemma OrderIsIrrelevant(a: seq<Byte>, b: seq<Byte>, cs: seq<Chunk>, ds: seq<Chunk>, srvPassword: Option<CString>)
    requires AllSound(cs) && AllSound(ds)
    requires |a| >= GENERIC_LEN && PacketOf(cs) <= a && |PacketOf(cs)| < 0x10000
    requires |b| >= GENERIC_LEN && PacketOf(ds) <= b && |PacketOf(ds)| < 0x10000
    requires multiset(Filter(cs, General())) == multiset(Filter(ds, General()))
    requires NoRepeats(Filter(ds, General())) && TellsFamilyAndProto(cs)
    ensures Receive(a, srvPassword) == Receive(b, srvPassword)
  {
    ReceiveIs(a, cs, srvPassword);
    ReceiveIs(b, ds, srvPassword);
    var f, g := Initial(a), Initial(b);
    ChunksDecide(f, g, cs, false, false);
    assert cs[..|cs|] == cs && ds[..|ds|] == ds;
    OthersChangeNothing(g, cs, |cs|);
    OthersChangeNothing(g, ds, |ds|);
    PermutedSame(g, Filter(cs, General()), Filter(ds, General()));
  }

  /** Without a family chunk the order does matter: the version is then read from the
      body of whatever chunk comes first, even of one that the receiver ignores. */
  lemma VersionFromIgnoredChunk(x: Chunk, y: Chunk, a: seq<Byte>, b: seq<Byte>)
    requires x == Chunk(0, 13, [AF_INET]) && y == Chunk(0, 16, [0])
    requires |a| >= GENERIC_LEN && PacketOf([x, y]) <= a
    requires |b| >= GENERIC_LEN && PacketOf([y, x]) <= b
    ensures Receive(a, None).Decoded? && Receive(a, None).packet.version == 4
    ensures Receive(b, None).Decoded? && Receive(b, None).packet.version == 6
  {
    IgnoredPair(x, y, a);
    IgnoredPair(y, x, b);
  }

  lemma IgnoredPair(x: Chunk, y: Chunk, a: seq<Byte>)
    requires x.kind in {13, 16} && y.kind in {13, 16} && x.vendor == y.vendor == 0 && |x.body| == |y.body| == 1
    requires |a| >= GENERIC_LEN && PacketOf([x, y]) <= a
    ensures Receive(a, None).Decoded?
    ensures Receive(a, None).packet.version == if x.body[0] == AF_INET then 4 else 6
  {
    assert [x, y] == [x] + [y];
    JoinedPlus([x], [y]);
    JoinedOne(x);
    JoinedOne(y);
    HeaderParts(a, Bytes(x) + Bytes(y));
    BytesParts(x, Bytes(y));
    assert a[12] == a[6..20][6] == x.body[0];
    ReceiveIs(a, [x, y], None);
    ApplyAllMore(Initial(a), [], x);
    ApplyAllMore(Initial(a), [x], y);
    assert [] + [x] == [x];
  }

  // ---------------------------------------------------------------------------
  // The sender
  // ---------------------------------------------------------------------------

  /** The chunks of the sender's fixed header.  The capture agent is a 16-bit number in
      network order at the beginning of a 32-bit field (on a little-endian host). */
  function FirstChunks(m: Message): seq<Chunk> {
    [Chunk(0, 1, [if m.version == 4 then AF_INET else AF_INET6]), Chunk(0, 2, [m.proto]),
     Chunk(0, 7, Put16(m.src.port)), Chunk(0, 8, Put16(m.dst.port))]
  }

  function NextChunks(m: Message, captId: nat): seq<Chunk> {
    [Chunk(0, 9, Put32(m.sec)), Chunk(0, 10, Put32(m.usec)), Chunk(0, 11, [1]),
     Chunk(0, 12, Put16(captId) + [0, 0])]
  }

  function AddressChunks(m: Message): seq<Chunk> {
    if m.version == 4 then [Chunk(0, 3, m.src.ip), Chunk(0, 4, m.dst.ip)]
    else if m.version == 6 then [Chunk(0, 5, m.src.ip), Chunk(0, 6, m.dst.ip)]
    else []
  }

  function AuthChunks(password: Option<CString>): seq<Chunk> {
    match password
    case None => []
    case Some(p) => [Chunk(0, 14, p)]
  }

  function ChunksOf(m: Message, captId: nat, password: Option<CString>): seq<Chunk> {
    FirstChunks(m) + NextChunks(m, captId) + AddressChunks(m) + AuthChunks(password) + [Chunk(0, 15, m.payload)]
  }

  function Encode(m: Message, captId: nat, password: Option<CString>): seq<Byte> {
    PacketOf(ChunksOf(m, captId, password))
  }

  /** The addresses have the sizes of their structures. */
  predicate AddressesFit(m: Message) {
    && (m.version == 4 ==> |m.src.ip| == |m.dst.ip| == 4)
    && (m.version == 6 ==> |m.src.ip| == |m.dst.ip| == 16)
  }

  /** The fields of the fixed header structure one behind the other. */
  function GenericBytes(m: Message, captId: nat, total: nat): seq<Byte> {
    HEP3 + Put16(total)
    + Bytes(Chunk(0, 1, [if m.version == 4 then AF_INET else AF_INET6]))
    + Bytes(Chunk(0, 2, [m.proto]))
    + Bytes(Chunk(0, 7, Put16(m.src.port)))
    + Bytes(Chunk(0, 8, Put16(m.dst.port)))
    + Bytes(Chunk(0, 9, Put32(m.sec)))
    + Bytes(Chunk(0, 10, Put32(m.usec)))
    + Bytes(Chunk(0, 11, [1]))
    + Bytes(Chunk(0, 12, Put16(captId) + [0, 0]))
  }

  lemma JoinedTwo(a: Chunk, b: Chunk)
    ensures Joined([a, b]) == Bytes(a) + Bytes(b)
  {
    assert [a, b] == [a] + [b];
    JoinedPlus([a], [b]);
    JoinedOne(a);
    JoinedOne(b);
  }

  lemma JoinedFour(a: Chunk, b: Chunk, c: Chunk, d: Chunk)
    ensures Joined([a, b, c, d]) == Bytes(a) + Bytes(b) + Bytes(c) + Bytes(d)
  {
    assert [a, b, c, d] == [a, b] + [c, d];
    JoinedPlus([a, b], [c, d]);
    JoinedTwo(a, b);
    JoinedTwo(c, d);
    assert (Bytes(a) + Bytes(b)) + (Bytes(c) + Bytes(d)) == Bytes(a) + Bytes(b) + Bytes(c) + Bytes(d);
  }

  lemma GenericIs(m: Message, captId: nat, total: nat)
    ensures GenericBytes(m, captId, total)
         == HEP3 + Put16(total) + Joined(FirstChunks(m)) + Joined(NextChunks(m, captId))
    ensures |GenericBytes(m, captId, total)| == GENERIC_LEN
  {
    var s, t := FirstChunks(m), NextChunks(m, captId);
    JoinedFour(s[0], s[1], s[2], s[3]);
    JoinedFour(t[0], t[1], t[2], t[3]);
  }

  /** The octets of a packet, group by group. */
  lemma EncodeIs(m: Message, captId: nat, password: Option<CString>, total: nat)
    requires AddressesFit(m)
    requires total == GENERIC_LEN + |Joined(AddressChunks(m))| + |Joined(AuthChunks(password))| + CHUNK_LEN
                      + |m.payload|
    ensures Encode(m, captId, password)
         == GenericBytes(m, captId, total) + Joined(AddressChunks(m)) + Joined(AuthChunks(password))
            + Bytes(Chunk(0, 15, m.payload))
    ensures |Encode(m, captId, password)| == total
  {
    var a, b, c, d, e := FirstChunks(m), NextChunks(m, captId), AddressChunks(m), AuthChunks(password),
                         Chunk(0, 15, m.payload);
    GenericIs(m, captId, total);
    JoinedPlus(a, b);
    JoinedPlus(a + b, c);
    JoinedPlus(a + b + c, d);
    JoinedPlus(a + b + c + d, [e]);
    JoinedOne(e);
    PrependHeader(HEP3 + Put16(total), Joined(a), Joined(b), Joined(c), Joined(d), Bytes(e));
  }

  lemma PrependHeader(h: seq<Byte>, a: seq<Byte>, b: seq<Byte>, c: seq<Byte>, d: seq<Byte>, e: seq<Byte>)
    ensures h + (a + b + c + d + e) == h + a + b + c + d + e
  {
  }

  method Append(buffer: array<Byte>, buflen: nat, data: seq<Byte>) returns (n: nat)
    requires buflen + |data| <= buffer.Length
    modifies buffer
    ensures n == buflen + |data| && buffer[..n] == old(buffer[..buflen]) + data
  {
    forall i | 0 <= i < |data| {
      buffer[buflen + i] := data[i];
    }
    n := buflen + |data|;
  }

  method AppendChunk(buffer: array<Byte>, buflen: nat, c: Chunk) returns (n: nat)
    requires buflen + CHUNK_LEN + |c.body| <= buffer.Length
    modifies buffer
    ensures n == buflen + CHUNK_LEN + |c.body| && buffer[..n] == old(buffer[..buflen]) + Bytes(c)
  {
    n := Append(buffer, buflen, ChunkHeader(c));
    n := Append(buffer, n, c.body);
  }

  method AppendAddresses(buffer: array<Byte>, buflen: nat, m: Message) returns (n: nat)
    requires buflen + |Joined(AddressChunks(m))| <= buffer.Length
    modifies buffer
    ensures n == buflen + |Joined(AddressChunks(m))|
    ensures buffer[..n] == old(buffer[..buflen]) + Joined(AddressChunks(m))
  {
    n := buflen;
    if m.version == 4 {
      JoinedTwo(Chunk(0, 3, m.src.ip), Chunk(0, 4, m.dst.ip));
      n := AppendChunk(buffer, n, Chunk(0, 3, m.src.ip));
      n := AppendChunk(buffer, n, Chunk(0, 4, m.dst.ip));
    } else if m.version == 6 {
      JoinedTwo(Chunk(0, 5, m.src.ip), Chunk(0, 6, m.dst.ip));
      n := AppendChunk(buffer, n, Chunk(0, 5, m.src.ip));
      n := AppendChunk(buffer, n, Chunk(0, 6, m.dst.ip));
    }
  }

  method AppendAuth(buffer: array<Byte>, buflen: nat, password: Option<CString>) returns (n: nat)
    requires buflen + |Joined(AuthChunks(password))| <= buffer.Length
    modifies buffer
    ensures n == buflen + |Joined(AuthChunks(password))|
    ensures buffer[..n] == old(buffer[..buflen]) + Joined(AuthChunks(password))
  {
    n := buflen;
    if password.Some? {
      JoinedOne(Chunk(0, 14, password.value));
      n := AppendChunk(buffer, n, Chunk(0, 14, password.value));
    }
  }

  lemma GroupLengths(m: Message, password: Option<CString>)
    requires AddressesFit(m)
    ensures |Joined(AddressChunks(m))| == if m.version == 4 then 20 else if m.version == 6 then 44 else 0
    ensures |Joined(AuthChunks(password))| == if password.Some? then CHUNK_LEN + |password.value| else 0
  {
    if m.version == 4 {
      JoinedTwo(Chunk(0, 3, m.src.ip), Chunk(0, 4, m.dst.ip));
    } else if m.version == 6 {
      JoinedTwo(Chunk(0, 5, m.src.ip), Chunk(0, 6, m.dst.ip));
    }
    if password.Some? {
      JoinedOne(Chunk(0, 14, password.value));
    }
  }

  /** Fills a buffer of the announced size, and fills it to the end. */
  method SendV3(pkt: Packet, sec: nat, usec: nat, captId: nat, password: Option<CString>)
      returns (buffer: array<Byte>, buflen: nat)
    requires AddressesFit(Message(pkt.ipVersion, pkt.proto, pkt.src, pkt.dst, sec, usec, pkt.payload))
    ensures fresh(buffer) && buflen == buffer.Length
    ensures buffer[..buflen]
         == Encode(Message(pkt.ipVersion, pkt.proto, pkt.src, pkt.dst, sec, usec, pkt.payload), captId, password)
  {
    var m := Message(pkt.ipVersion, pkt.proto, pkt.src, pkt.dst, sec, usec, pkt.payload);
    var iplen := if m.version == 4 then 20 else if m.version == 6 then 44 else 0;
    var tlen := GENERIC_LEN + |m.payload| + iplen + CHUNK_LEN;
    if password.Some? {
      tlen := tlen + CHUNK_LEN + |password.value|;
    }
    GroupLengths(m, password);
    GenericIs(m, captId, tlen);
    EncodeIs(m, captId, password, tlen);
    buffer := new Byte[tlen](_ => 0);
    buflen := Append(buffer, 0, GenericBytes(m, captId, tlen));
    assert buffer[..buflen] == GenericBytes(m, captId, tlen);
    buflen := AppendAddresses(buffer, buflen, m);
    buflen := AppendAuth(buffer, buflen, password);
    buflen := AppendChunk(buffer, buflen, Chunk(0, 15, m.payload));
  }

  /** The length written is the length announced exactly when it fits into the 16 bits
      of the announcement. */
  lemma LengthAnnounced(m: Message, captId: nat, password: Option<CString>)
    ensures var e := Encode(m, captId, password);
            |e| >= HEADER_LEN && (Get16(e[4..6]) == |e| <==> |e| < 0x10000)
  {
    var cs := ChunksOf(m, captId, password);
    HeaderParts(PacketOf(cs), Joined(cs));
    Get16Put16(HEADER_LEN + |Joined(cs)|);
  }

  // ---------------------------------------------------------------------------
  // Round trip
  // ---------------------------------------------------------------------------

  lemma {:induction false} ApplyAllPlus(f: Fields, a: seq<Chunk>, b: seq<Chunk>)
    requires AllSound(a) && AllSound(b)
    ensures AllSound(a + b) && ApplyAll(f, a + b) == ApplyAll(ApplyAll(f, a), b)
    decreases |a|
  {
    if a == [] {
      assert a + b == b;
    } else {
      assert (a + b)[1..] == a[1..] + b;
      ApplyAllPlus(Apply(f, a[0]), a[1..], b);
    }
  }

  lemma ApplyOne(f: Fields, c: Chunk)
    requires Sound(c)
    ensures ApplyAll(f, [c]) == Apply(f, c)
  {
    assert [c][1..] == [];
  }

  lemma ApplyTwo(f: Fields, a: Chunk, b: Chunk)
    requires Sound(a) && Sound(b)
    ensures ApplyAll(f, [a, b]) == Apply(Apply(f, a), b)
  {
    assert [a, b] == [a] + [b];
    ApplyAllPlus(f, [a], [b]);
    ApplyOne(f, a);
    ApplyOne(Apply(f, a), b);
  }

  lemma ApplyFour(f: Fields, a: Chunk, b: Chunk, c: Chunk, d: Chunk)
    requires Sound(a) && Sound(b) && Sound(c) && Sound(d)
    ensures AllSound([a, b, c, d]) && ApplyAll(f, [a, b, c, d]) == Apply(Apply(Apply(Apply(f, a), b), c), d)
  {
    assert [a, b, c, d] == [a, b] + [c, d];
    ApplyAllPlus(f, [a, b], [c, d]);
    ApplyTwo(f, a, b);
    ApplyTwo(Apply(Apply(f, a), b), c, d);
  }

  /** The numbers fit their fields. */
  predicate NumbersFit(m: Message) {
    m.src.port < 0x10000 && m.dst.port < 0x10000 && m.sec < 0x1_0000_0000 && m.usec < 0x1_0000_0000
  }

  lemma FirstApplied(f: Fields, m: Message)
    requires NumbersFit(m)
    ensures AllSound(FirstChunks(m))
    ensures ApplyAll(f, FirstChunks(m))
         == f.(family := if m.version == 4 then AF_INET else AF_INET6, proto := m.proto,
               srcPort := m.src.port, dstPort := m.dst.port)
  {
    var s := FirstChunks(m);
    assert Sound(s[0]) && Sound(s[1]) && Sound(s[2]) && Sound(s[3]);
    ApplyFour(f, s[0], s[1], s[2], s[3]);
    Get16Put16(m.src.port);
    Get16Put16(m.dst.port);
    assert forall i :: 0 <= i < 4 ==> s[i].body[..|s[i].body|] == s[i].body;
  }

  lemma NextApplied(f: Fields, m: Message, captId: nat)
    requires NumbersFit(m)
    ensures AllSound(NextChunks(m, captId))
    ensures ApplyAll(f, NextChunks(m, captId)) == f.(sec := m.sec, usec := m.usec)
  {
    var s := NextChunks(m, captId);
    assert Sound(s[0]) && Sound(s[1]) && Sound(s[2]) && Sound(s[3]);
    ApplyFour(f, s[0], s[1], s[2], s[3]);
    Get32Put32(m.sec);
    Get32Put32(m.usec);
    assert forall i :: 0 <= i < 4 ==> s[i].body[..|s[i].body|] == s[i].body;
  }

  lemma AddressApplied(f: Fields, m: Message)
    requires AddressesFit(m) && m.version in {4, 6}
    ensures AllSound(AddressChunks(m))
    ensures ApplyAll(f, AddressChunks(m)) == f.(srcIp := m.src.ip, dstIp := m.dst.ip)
  {
    var s := AddressChunks(m);
    assert Sound(s[0]) && Sound(s[1]) && s == [s[0], s[1]];
    ApplyTwo(f, s[0], s[1]);
    assert forall i :: 0 <= i < 2 ==> s[i].body[..|s[i].body|] == s[i].body;
  }

  /** The password buffer after the sender's authentication chunk, if there is one. */
  function Sent(password: Option<CString>): seq<Byte> {
    var none := seq(PASSWORD_LEN, _ => 0);
    match password
    case None => none
    case Some(p) => Overlay(none, p)
  }

  lemma AuthApplied(f: Fields, password: Option<CString>)
    requires password.Some? ==> |password.value| <= PASSWORD_LEN
    requires f.password == Sent(None)
    ensures AllSound(AuthChunks(password)) && ApplyAll(f, AuthChunks(password)) == f.(password := Sent(password))
  {
    if password.Some? {
      var c := Chunk(0, 14, password.value);
      assert Sound(c) && c.body[..|c.body|] == c.body;
      ApplyOne(f, c);
    }
  }

  lemma PayloadApplied(f: Fields, payload: seq<Byte>)
    requires CHUNK_LEN + |payload| < 0x10000
    ensures AllSound([Chunk(0, 15, payload)]) && ApplyAll(f, [Chunk(0, 15, payload)]) == f.(payload := payload)
  {
    var c := Chunk(0, 15, payload);
    assert Sound(c) && c.body[..|c.body|] == c.body;
    ApplyOne(f, c);
  }

  /** All chunks of the sender, one group after the other. */
  lemma EncodedApplied(f: Fields, m: Message, captId: nat, password: Option<CString>)
    requires AddressesFit(m) && NumbersFit(m) && m.version in {4, 6} && CHUNK_LEN + |m.payload| < 0x10000
    requires (password.Some? ==> |password.value| <= PASSWORD_LEN) && f.password == Sent(None)
    ensures AllSound(ChunksOf(m, captId, password))
    ensures ApplyAll(f, ChunksOf(m, captId, password))
         == Fields(if m.version == 4 then AF_INET else AF_INET6, m.proto, m.src.ip, m.src.port, m.dst.ip, m.dst.port,
                   m.sec, m.usec, Sent(password), m.payload)
  {
    var a, b, c, d, e := FirstChunks(m), NextChunks(m, captId), AddressChunks(m), AuthChunks(password),
                         [Chunk(0, 15, m.payload)];
    FirstApplied(f, m);
    var f1 := ApplyAll(f, a);
    NextApplied(f1, m, captId);
    var f2 := ApplyAll(f1, b);
    AddressApplied(f2, m);
    var f3 := ApplyAll(f2, c);
    AuthApplied(f3, password);
    PayloadApplied(ApplyAll(f3, d), m.payload);
    ApplyAllPlus(f, a, b);
    ApplyAllPlus(f, a + b, c);
    ApplyAllPlus(f, a + b + c, d);
    ApplyAllPlus(f, a + b + c + d, e);
  }

  /** The receiver takes a password when it is not empty and begins with its own. */
  predicate Passes(password: Option<CString>, srvPassword: Option<CString>) {
    match srvPassword
    case None => true
    case Some(q) => password.Some? && password.value != [] && q <= password.value
  }

  lemma PasswordCheck(password: Option<CString>, srvPassword: Option<CString>)
    requires password.Some? ==> |password.value| < PASSWORD_LEN
    ensures var b := Sent(password);
            |b| == PASSWORD_LEN && StrLen(b, 0) == (if password.Some? then |password.value| else 0)
            && (srvPassword.Some? ==>
                  (StrLen(b, 0) > 0 && srvPassword.value <= b <==> Passes(password, srvPassword)))
  {
    var b := Sent(password);
    var n := if password.Some? then |password.value| else 0;
    assert b[n] == 0;
    assert forall k :: 0 <= k < n ==> b[k] == password.value[k] && b[k] in password.value;
    assert srvPassword.Some? && n < |srvPassword.value| ==> srvPassword.value[n] in srvPassword.value;
  }

  /** Round trip: what the sender encodes is what the receiver decodes, whatever follows
      in its buffer, if the passwords agree; if they do not, the packet is dropped. */
  lemma RoundTrip(buf: seq<Byte>, m: Message, captId: nat, password: Option<CString>, srvPassword: Option<CString>)
    requires AddressesFit(m) && NumbersFit(m) && m.version in {4, 6}
    requires password.Some? ==> |password.value| < PASSWORD_LEN
    requires |Encode(m, captId, password)| < 0x10000 && Encode(m, captId, password) <= buf
    ensures |buf| >= GENERIC_LEN
    ensures Receive(buf, srvPassword) == if Passes(password, srvPassword) then Decoded(m) else Dropped
  {
    GroupLengths(m, password);
    var total := GENERIC_LEN + |Joined(AddressChunks(m))| + |Joined(AuthChunks(password))| + CHUNK_LEN + |m.payload|;
    EncodeIs(m, captId, password, total);
    var cs, f := ChunksOf(m, captId, password), Initial(buf);
    EncodedApplied(f, m, captId, password);
    ReceiveIs(buf, cs, srvPassword);
    PasswordCheck(password, srvPassword);
  }

  // ---------------------------------------------------------------------------
  // The receiver's loop
  // ---------------------------------------------------------------------------

  /** Parses the packet at the beginning of the buffer.  Where the C code would access
      memory outside of its buffers, it stops. */
  method ReceiveV3(buffer: array<Byte>, srvPassword: Option<CString>) returns (out: Outcome)
    requires buffer.Length == MAX_CAPTURE_LEN
    ensures out == Receive(buffer[..], srvPassword)
  {
    var buf := buffer[..];
    if buf[..4] != HEP3 {
      return Dropped;
    }
    var totalLen := Get16(buf[4..6]);
    var f := Initial(buf);
    var pos := HEADER_LEN;
    while pos < totalLen
      invariant Scan(buf, HEADER_LEN, totalLen, Initial(buf)) == Scan(buf, pos, totalLen, f)
      decreases totalLen - pos
    {
      if pos + CHUNK_LEN > |buf| {
        return Overrun;
      }
      var vendor, kind := Get16(buf[pos..pos + 2]), Get16(buf[pos + 2..pos + 4]);
      var len := Get16(buf[pos + 4..pos + 6]);
      if len == 0 {
        return Dropped;
      }
      if vendor == 0 {
        var w := Take(buf, pos, kind, len, f);
        match w {
          case Bad => return Dropped;
          case Outside => return Overrun;
          case Done(g) => f := g;
        }
      }
      pos := pos + len;
    }
    out := Finish(f, srvPassword);
  }
}
