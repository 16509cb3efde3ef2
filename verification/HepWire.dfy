/** The octets of a HEP3 packet (capture_eep_send_v3 in src/capture_eep.c), position by
    position, and packets that the receiver refuses. */
module HepWire {
  import opened Common
  import opened Packets
  import opened Hep3

  /** A number in network order. */
  function Two(v: nat): (r: seq<Byte>)
    ensures |r| == 2
  {
    [v / 256 % 256, v % 256]
  }

  function Four(v: nat): (r: seq<Byte>)
    ensures |r| == 4
  {
    [v / 16777216 % 256, v / 65536 % 256, v / 256 % 256, v % 256]
  }

  /** The first 73 octets. */
  function Fixed(m: Message, captId: nat, total: nat): (r: seq<Byte>)
    ensures |r| == 73
  {
    [72, 69, 80, 51, total / 256 % 256, total % 256]
    + [0, 0, 0, 1, 0, 7, if m.version == 4 then 2 else 10]
    + [0, 0, 0, 2, 0, 7, m.proto]
    + [0, 0, 0, 7, 0, 8, m.src.port / 256 % 256, m.src.port % 256]
    + [0, 0, 0, 8, 0, 8, m.dst.port / 256 % 256, m.dst.port % 256]
    + [0, 0, 0, 9, 0, 10] + Four(m.sec)
    + [0, 0, 0, 10, 0, 10] + Four(m.usec)
    + [0, 0, 0, 11, 0, 7, 1]
    + [0, 0, 0, 12, 0, 10, captId / 256 % 256, captId % 256, 0, 0]
  }

  function Addresses(m: Message): seq<Byte> {
    if m.version == 4 then [0, 0, 0, 3, 0, 10] + m.src.ip + [0, 0, 0, 4, 0, 10] + m.dst.ip
    else if m.version == 6 then [0, 0, 0, 5, 0, 22] + m.src.ip + [0, 0, 0, 6, 0, 22] + m.dst.ip
    else []
  }

  function Authentication(password: Option<CString>): seq<Byte> {
    match password
    case None => []
    case Some(p) => [0, 0, 0, 14] + Two(6 + |p|) + p
  }

  function Payload(m: Message): seq<Byte> {
    [0, 0, 0, 15] + Two(6 + |m.payload|) + m.payload
  }

  /** The whole packet. */
  function Wire(m: Message, captId: nat, password: Option<CString>): seq<Byte> {
    var rest := Addresses(m) + Authentication(password) + Payload(m);
    Fixed(m, captId, 73 + |rest|) + rest
  }

  lemma ChunkIs(kind: nat, body: seq<Byte>)
    requires kind < 256
    ensures Bytes(Chunk(0, kind, body)) == [0, 0, 0, kind] + Two(6 + |body|) + body
  {
  }

  lemma FourIs(v: nat)
    ensures Put32(v) == Four(v)
  {
  }

  lemma FirstIs(m: Message)
    ensures Joined(FirstChunks(m))
         == [0, 0, 0, 1, 0, 7, if m.version == 4 then 2 else 10] + [0, 0, 0, 2, 0, 7, m.proto]
            + [0, 0, 0, 7, 0, 8, m.src.port / 256 % 256, m.src.port % 256]
            + [0, 0, 0, 8, 0, 8, m.dst.port / 256 % 256, m.dst.port % 256]
  {
    var s := FirstChunks(m);
    JoinedFour(s[0], s[1], s[2], s[3]);
    ChunkIs(1, [if m.version == 4 then 2 else 10]);
    ChunkIs(2, [m.proto]);
    ChunkIs(7, Put16(m.src.port));
    ChunkIs(8, Put16(m.dst.port));
  }

  lemma NextIs(m: Message, captId: nat)
    ensures Joined(NextChunks(m, captId))
         == [0, 0, 0, 9, 0, 10] + Four(m.sec) + [0, 0, 0, 10, 0, 10] + Four(m.usec) + [0, 0, 0, 11, 0, 7, 1]
            + [0, 0, 0, 12, 0, 10, captId / 256 % 256, captId % 256, 0, 0]
  {
    var s := NextChunks(m, captId);
    JoinedFour(s[0], s[1], s[2], s[3]);
    FourIs(m.sec);
    FourIs(m.usec);
    ChunkIs(9, Put32(m.sec));
    ChunkIs(10, Put32(m.usec));
    ChunkIs(11, [1]);
    ChunkIs(12, Put16(captId) + [0, 0]);
  }

  lemma FixedIs(m: Message, captId: nat, total: nat)
    ensures GenericBytes(m, captId, total) == Fixed(m, captId, total)
  {
    GenericIs(m, captId, total);
    FirstIs(m);
    NextIs(m, captId);
  }

  lemma AddressesAre(m: Message)
    requires AddressesFit(m)
    ensures Joined(AddressChunks(m)) == Addresses(m)
  {
    if m.version == 4 {
      JoinedTwo(Chunk(0, 3, m.src.ip), Chunk(0, 4, m.dst.ip));
      ChunkIs(3, m.src.ip);
      ChunkIs(4, m.dst.ip);
    } else if m.version == 6 {
      JoinedTwo(Chunk(0, 5, m.src.ip), Chunk(0, 6, m.dst.ip));
      ChunkIs(5, m.src.ip);
      ChunkIs(6, m.dst.ip);
    }
  }

  lemma AuthenticationIs(password: Option<CString>)
    ensures Joined(AuthChunks(password)) == Authentication(password)
  {
    if password.Some? {
      JoinedOne(Chunk(0, 14, password.value));
      ChunkIs(14, password.value);
    }
  }

  /** What the sender sends, octet by octet. */
  lemma EncodeIsWire(m: Message, captId: nat, password: Option<CString>)
    requires AddressesFit(m)
    ensures Encode(m, captId, password) == Wire(m, captId, password)
  {
    AddressesAre(m);
    AuthenticationIs(password);
    ChunkIs(15, m.payload);
    var total := 73 + |Addresses(m) + Authentication(password) + Payload(m)|;
    EncodeIs(m, captId, password, total);
    FixedIs(m, captId, total);
    Regroup(Fixed(m, captId, total), Addresses(m), Authentication(password), Payload(m));
  }

  lemma Regroup(a: seq<Byte>, b: seq<Byte>, c: seq<Byte>, d: seq<Byte>)
    ensures a + b + c + d == a + (b + c + d)
  {
  }

  /** The places of the fields that a receiver of another make may look up. */
  lemma FieldsAt(m: Message, captId: nat, password: Option<CString>)
    requires AddressesFit(m)
    ensures var e := Encode(m, captId, password);
            && |e| == 73 + |Addresses(m)| + |Authentication(password)| + 6 + |m.payload|
            && e[..4] == [72, 69, 80, 51] && e[4..6] == Two(|e|)
            && e[12] == (if m.version == 4 then 2 else 10) && e[19] == m.proto
            && e[26..28] == Two(m.src.port) && e[34..36] == Two(m.dst.port)
            && e[42..46] == Four(m.sec) && e[52..56] == Four(m.usec) && e[62] == 1
            && e[69..73] == [captId / 256 % 256, captId % 256, 0, 0]
            && e[|e| - |m.payload|..] == m.payload
  {
    EncodeIsWire(m, captId, password);
    var e := Wire(m, captId, password);
    WireBegins(m, captId, password, e, Fixed(m, captId, |e|));
    FixedIn(m, captId, e);
  }

  lemma FixedIn(m: Message, captId: nat, e: seq<Byte>)
    requires Fixed(m, captId, |e|) <= e
    ensures e[..4] == [72, 69, 80, 51] && e[4..6] == Two(|e|)
    ensures e[12] == (if m.version == 4 then 2 else 10) && e[19] == m.proto
    ensures e[26..28] == Two(m.src.port) && e[34..36] == Two(m.dst.port)
    ensures e[42..46] == Four(m.sec) && e[52..56] == Four(m.usec) && e[62] == 1
    ensures e[69..73] == [captId / 256 % 256, captId % 256, 0, 0]
  {
    FixedAt(m, captId, |e|);
    SameFields(e, Fixed(m, captId, |e|));
  }

  lemma WireBegins(m: Message, captId: nat, password: Option<CString>, e: seq<Byte>, f: seq<Byte>)
    requires e == Wire(m, captId, password) && f == Fixed(m, captId, |e|)
    ensures |e| == 73 + |Addresses(m)| + |Authentication(password)| + 6 + |m.payload|
    ensures f <= e && e[|e| - |m.payload|..] == m.payload
  {
    WireParts(f, Addresses(m), Authentication(password), Payload(m), m.payload, e);
  }

  lemma WireParts(f: seq<Byte>, a: seq<Byte>, b: seq<Byte>, c: seq<Byte>, payload: seq<Byte>, e: seq<Byte>)
    requires e == f + (a + b + c) && |c| == 6 + |payload| && c[6..] == payload
    ensures f <= e && |e| == |f| + |a| + |b| + 6 + |payload| && e[|e| - |payload|..] == payload
  {
  }

  lemma SameFields(e: seq<Byte>, f: seq<Byte>)
    requires |f| == 73 && f <= e
    ensures e[..4] == f[..4] && e[4..6] == f[4..6] && e[12] == f[12] && e[19] == f[19] && e[26..28] == f[26..28]
    ensures e[34..36] == f[34..36] && e[42..46] == f[42..46] && e[52..56] == f[52..56] && e[62] == f[62]
    ensures e[69..73] == f[69..73]
  {
  }

  lemma FixedAt(m: Message, captId: nat, total: nat)
    ensures var f := Fixed(m, captId, total);
            && f[..4] == [72, 69, 80, 51] && f[4..6] == Two(total)
            && f[12] == (if m.version == 4 then 2 else 10) && f[19] == m.proto
            && f[26..28] == Two(m.src.port) && f[34..36] == Two(m.dst.port)
            && f[42..46] == Four(m.sec) && f[52..56] == Four(m.usec) && f[62] == 1
            && f[69..73] == [captId / 256 % 256, captId % 256, 0, 0]
  {
  }

  // ---------------------------------------------------------------------------
  // Refused packets
  // ---------------------------------------------------------------------------

  /** The octets at `at` announce a chunk of this vendor, type and length. */
  predicate Announced(buf: seq<Byte>, at: nat, vendor: nat, kind: nat, len: nat) {
    && at + CHUNK_LEN <= |buf| && vendor < 0x10000 && kind < 0x10000 && len < 0x10000
    && buf[at..at + 2] == Put16(vendor) && buf[at + 2..at + 4] == Put16(kind) && buf[at + 4..at + 6] == Put16(len)
  }

  lemma BadTurn(buf: seq<Byte>, at: nat, total: nat, f: Fields, vendor: nat, kind: nat, len: nat)
    requires Announced(buf, at, vendor, kind, len) && at < total && (len == 0 || (vendor == 0 && kind == 0))
    ensures Scan(buf, at, total, f) == Bad
  {
    Get16Put16(vendor);
    Get16Put16(kind);
    Get16Put16(len);
  }

  /** A packet with sound chunks, and then one of no length or, among the general ones, of
      no type, is dropped. */
  lemma BadChunkIsDropped(buf: seq<Byte>, cs: seq<Chunk>, vendor: nat, kind: nat, len: nat, total: nat, at: nat,
                          srvPassword: Option<CString>)
    requires AllSound(cs) && |buf| >= GENERIC_LEN && total < 0x10000 && total <= |buf|
    requires buf[..4] == HEP3 && buf[4..6] == Put16(total)
    requires at == HEADER_LEN + |Joined(cs)| < total && buf[HEADER_LEN..at] == Joined(cs)
    requires Announced(buf, at, vendor, kind, len) && (len == 0 || (vendor == 0 && kind == 0))
    ensures Receive(buf, srvPassword) == Dropped
  {
    Get16Put16(total);
    var f := Initial(buf);
    ScanAppliesSome(buf, HEADER_LEN, at, total, f, cs);
    BadTurn(buf, at, total, ApplyAll(f, cs), vendor, kind, len);
    BadIsDropped(buf, total, srvPassword);
  }

  lemma BadIsDropped(buf: seq<Byte>, total: nat, srvPassword: Option<CString>)
    requires |buf| >= GENERIC_LEN && Get16(buf[4..6]) == total && Scan(buf, HEADER_LEN, total, Initial(buf)) == Bad
    ensures Receive(buf, srvPassword) == Dropped
  {
  }

  lemma SomeTurn(buf: seq<Byte>, pos: nat, at: nat, total: nat, f: Fields, c: Chunk, rest: seq<Byte>)
    requires Sound(c) && pos + |Bytes(c)| + |rest| == at <= total <= |buf| && buf[pos..at] == Bytes(c) + rest
    ensures buf[pos + |Bytes(c)|..at] == rest
    ensures Scan(buf, pos, total, f) == Scan(buf, pos + |Bytes(c)|, total, Apply(f, c))
  {
    ChunkAt(buf, pos, c, rest);
    Get16Put16(c.vendor);
    Get16Put16(c.kind);
    Get16Put16(CHUNK_LEN + |c.body|);
    if c.vendor == 0 {
      TakeIs(buf, pos, c, f);
    }
    ScanTurn(buf, pos, total, f, c.vendor, c.kind, CHUNK_LEN + |c.body|);
  }

  /** The walk over the octets of sound chunks, when more follow. */
  lemma {:induction false} ScanAppliesSome(buf: seq<Byte>, pos: nat, at: nat, total: nat, f: Fields, cs: seq<Chunk>)
    requires AllSound(cs) && pos + |Joined(cs)| == at <= total <= |buf| && buf[pos..at] == Joined(cs)
    ensures Scan(buf, pos, total, f) == Scan(buf, at, total, ApplyAll(f, cs))
    decreases |cs|
  {
    if cs != [] {
      SomeTurn(buf, pos, at, total, f, cs[0], Joined(cs[1..]));
      ScanAppliesSome(buf, pos + |Bytes(cs[0])|, at, total, Apply(f, cs[0]), cs[1..]);
    }
  }

  // ---------------------------------------------------------------------------
  // What the receiver copies
  // ---------------------------------------------------------------------------

  /** Of every chunk that the sender writes, the receiver copies the whole body and no
      more, as long as the password is not longer than its buffer. */
  lemma ChunksAreCopiedWhole(m: Message, captId: nat, password: Option<CString>, i: nat)
    requires AddressesFit(m) && i < |ChunksOf(m, captId, password)|
    requires m.version in {4, 6}
    ensures var c := ChunksOf(m, captId, password)[i];
            if c.kind == 14 && |c.body| > 100 then Copied(c.kind, 6 + |c.body|) == None
            else Copied(c.kind, 6 + |c.body|) == Some(|c.body|)
  {
    var s, t := FirstChunks(m), NextChunks(m, captId);
    assert forall j :: 0 <= j < |s| ==> Copied(s[j].kind, 6 + |s[j].body|) == Some(|s[j].body|);
    assert forall j :: 0 <= j < |t| ==> Copied(t[j].kind, 6 + |t[j].body|) == Some(|t[j].body|);
  }

  /** A shorter password does not erase the end of the one before it. */
  lemma OverlayIs(one: seq<Byte>, two: seq<Byte>, i: nat)
    requires |two| <= |one| && i < |one|
    ensures |Overlay(one, two)| == |one| && Overlay(one, two)[i] == if i < |two| then two[i] else one[i]
  {
  }

  /** A password chunk that fills its buffer to the end leaves no place for the NUL that the
      receiver looks for, when it asks for a password. */
  lemma UnterminatedExactly(f: Fields, srvPassword: Option<CString>)
    ensures Finish(f, srvPassword) == Overrun <==> srvPassword.Some? && 0 !in f.password
  {
    var n := StrLen(f.password, 0);
    assert n < |f.password| ==> f.password[n] in f.password;
  }
}
