/** IPv4 headers as section 3.1 of RFC 791 lays them out, written without the functions that
    read them (capture_packet_reasm_ip in src/capture.c), and datagrams cut as section 3.2
    says. */
module IpHeaders {
  import opened Common
  import opened Packets
  import opened KeyedLists
  import opened IpReassembly

  /** What a header tells besides the lengths and the place of its fragment. */
  datatype Header = Header(tos: Byte, id: nat, dontFragment: bool, ttl: Byte, proto: Byte, checksum: nat,
                           src: seq<Byte>, dst: seq<Byte>, options: seq<Byte>)

  predicate Proper(h: Header) {
    && h.id < 0x10000 && h.checksum < 0x10000 && |h.src| == |h.dst| == 4
    && |h.options| <= 40 && |h.options| % 4 == 0
  }

  /** The octets of a header with `len` octets of data behind it; the offset counts units of
      eight octets. */
  function Octets(h: Header, more: bool, offset: nat, len: nat): (r: seq<Byte>)
    requires Proper(h) && offset < 0x2000 && 20 + |h.options| + len < 0x10000
    ensures |r| == 20 + |h.options|
  {
    var total := 20 + |h.options| + len;
    [64 + (20 + |h.options|) / 4, h.tos, total / 256, total % 256, h.id / 256, h.id % 256,
     (if h.dontFragment then 64 else 0) + (if more then 32 else 0) + offset / 256, offset % 256,
     h.ttl, h.proto, h.checksum / 256, h.checksum % 256] + h.src + h.dst + h.options
  }

  /** A captured frame: the link header, the IP header, the data, and what the link adds
      behind it. */
  function Framed(link: seq<Byte>, h: Header, more: bool, offset: nat, data: seq<Byte>, trailer: seq<Byte>): Frame
    requires Proper(h) && offset < 0x2000 && 20 + |h.options| + |data| < 0x10000
  {
    link + Octets(h, more, offset, |data|) + data + trailer
  }

  lemma FramedAt(link: seq<Byte>, h: Header, more: bool, offset: nat, data: seq<Byte>, trailer: seq<Byte>, f: Frame,
                 o: seq<Byte>)
    requires Proper(h) && offset < 0x2000 && 20 + |h.options| + |data| < 0x10000
    requires f == Framed(link, h, more, offset, data, trailer) && o == Octets(h, more, offset, |data|)
    ensures |f| == |link| + |o| + |data| + |trailer|
    ensures forall i :: 0 <= i < |o| ==> f[|link| + i] == o[i]
    ensures f[|link| + |o|..|link| + |o| + |data|] == data
  {
  }

  lemma AddressesAt(f: Frame, hl: nat, h: Header, o: seq<Byte>)
    requires Proper(h) && |o| >= 20 && hl + |o| <= |f| && f[hl..hl + |o|] == o
    requires o[12..16] == h.src && o[16..20] == h.dst
    ensures f[hl + 12..hl + 16] == h.src && f[hl + 16..hl + 20] == h.dst
  {
    PartOf(f, hl, o, 12, 16);
    PartOf(f, hl, o, 16, 20);
  }

  /** The frame is read as this header, with the offset in octets and this data. */
  predicate ReadAs(f: Frame, hl: nat, h: Header, more: bool, offset: nat, data: seq<Byte>) {
    && HasHeader(f, hl) && Version(f, hl) == 4 && IpHl(f, hl) == 20 + |h.options|
    && IpLen(f, hl) == 20 + |h.options| + |data| && IpId(f, hl) == h.id
    && (MoreFragments(f, hl) <==> more) && FragOff(f, hl) == offset
    && Proto(f, hl) == h.proto && KeyOf(f, hl) == Key(h.src, h.dst, h.id)
    && ContentLen(f, hl) == |data| && hl + IpHl(f, hl) + |data| <= |f| && Content(f, hl) == data
  }

  /** Every header is read back, whatever its lengths, identification, flags and offset. */
  lemma HeaderIsRead(link: seq<Byte>, h: Header, more: bool, offset: nat, data: seq<Byte>, trailer: seq<Byte>, f: Frame)
    requires Proper(h) && offset < 0x2000 && 20 + |h.options| + |data| < 0x10000
    requires f == Framed(link, h, more, offset, data, trailer)
    ensures ReadAs(f, |link|, h, more, offset * 8, data)
  {
    var hl, o := |link|, Octets(h, more, offset, |data|);
    FramedAt(link, h, more, offset, data, trailer, f, o);
    assert f[hl + 0] == o[0] && f[hl + 2] == o[2] && f[hl + 3] == o[3] && f[hl + 4] == o[4] && f[hl + 5] == o[5];
    assert f[hl + 6] == o[6] && f[hl + 7] == o[7] && f[hl + 9] == o[9];
    FlagsAre(h.dontFragment, more, offset, U16(f, hl + 6));
    assert f[hl..hl + |o|] == o && o[12..16] == h.src && o[16..20] == h.dst;
    AddressesAt(f, hl, h, o);
  }

  lemma FlagsAre(df: bool, more: bool, offset: nat, word: nat)
    requires offset < 0x2000
    requires word == ((if df then 64 else 0) + (if more then 32 else 0) + offset / 256) * 256 + offset % 256
    ensures (word / 0x2000 % 2 == 1 <==> more) && word % 0x2000 == offset
  {
  }

  /** A whole datagram of any size is returned as it is. */
  lemma WholeIsReturned(ps: seq<Pending>, link: seq<Byte>, h: Header, data: seq<Byte>, trailer: seq<Byte>, f: Frame,
                        buf: seq<Byte>)
    requires Proper(h) && |link| + 20 + |h.options| + |data| <= MAX_CAPTURE_LEN && f <= buf
    requires f == Framed(link, h, false, 0, data, trailer)
    ensures Safe(ps, f, |link|, |buf|) && Result(ps, f, |link|, buf).Some?
    ensures var out, base := Result(ps, f, |link|, buf).value, |link| + 20 + |h.options|;
            && out.size == |data| && out.buf == buf && base + |data| <= |buf| && buf[base..base + |data|] == data
            && out.packet.key == Key(h.src, h.dst, h.id) && out.packet.proto == h.proto && out.packet.frames == [f]
    ensures NextPending(ps, f, |link|) == ps
  {
    HeaderIsRead(link, h, false, 0, data, trailer, f);
    IsFragmentIff(f, |link|);
    var base := |link| + 20 + |h.options|;
    assert buf[base..base + |data|] == f[base..base + |data|];
  }

  // ---------------------------------------------------------------------------
  // Datagrams cut into fragments
  // ---------------------------------------------------------------------------

  /** A fragment: its header, its data, and what the link adds. */
  datatype Part = Part(h: Header, data: seq<Byte>, trailer: seq<Byte>)

  function DataOf(parts: seq<Part>): (r: seq<seq<Byte>>)
    ensures |r| == |parts| && forall i :: 0 <= i < |parts| ==> r[i] == parts[i].data
  {
    seq(|parts|, i requires 0 <= i < |parts| => parts[i].data)
  }

  /** How much data is in the first `n` parts. */
  function DataTo(parts: seq<Part>, n: nat): nat
    requires n <= |parts|
  {
    if n == 0 then 0 else DataTo(parts, n - 1) + |parts[n - 1].data|
  }

  /** The parts belong to one datagram, none is empty, and all but the last have a multiple
      of eight octets. */
  ghost predicate Cuttable(link: seq<Byte>, parts: seq<Part>) {
    && parts != []
    && forall i :: 0 <= i < |parts| ==> CuttableAt(link, parts, i)
  }

  predicate CuttableAt(link: seq<Byte>, parts: seq<Part>, i: nat)
    requires i < |parts|
  {
    var p := parts[i];
    && Proper(p.h) && SameDatagram(p.h, parts[0].h) && p.h.proto != IPPROTO_IPIP
    && p.data != [] && (i < |parts| - 1 ==> |p.data| % 8 == 0)
    && |link| + 20 + |p.h.options| + DataTo(parts, |parts|) <= MAX_CAPTURE_LEN
  }

  predicate SameDatagram(a: Header, b: Header) {
    a.id == b.id && a.src == b.src && a.dst == b.dst && a.proto == b.proto
  }

  lemma {:induction false} DataToGrows(parts: seq<Part>, i: nat, j: nat)
    requires i <= j <= |parts|
    ensures DataTo(parts, i) <= DataTo(parts, j)
  {
    if i < j {
      DataToGrows(parts, i, j - 1);
    }
  }

  lemma {:induction false} WholeUnits(link: seq<Byte>, parts: seq<Part>, n: nat)
    requires Cuttable(link, parts) && n < |parts|
    ensures DataTo(parts, n) % 8 == 0
  {
    if n > 0 {
      WholeUnits(link, parts, n - 1);
      assert CuttableAt(link, parts, n - 1);
    }
  }

  /** The frame of part `i`. */
  function FrameAt(link: seq<Byte>, parts: seq<Part>, i: nat): Frame
    requires i < |parts| && CuttableAt(link, parts, i)
  {
    DataToGrows(parts, i, |parts|);
    DataToGrows(parts, i + 1, |parts|);
    var p := parts[i];
    Framed(link, p.h, i < |parts| - 1, DataTo(parts, i) / 8, p.data, p.trailer)
  }

  function Cut(link: seq<Byte>, parts: seq<Part>): (r: seq<Frame>)
    requires forall i :: 0 <= i < |parts| ==> CuttableAt(link, parts, i)
    ensures |r| == |parts| && forall i :: 0 <= i < |parts| ==> r[i] == FrameAt(link, parts, i)
  {
    seq(|parts|, i requires 0 <= i < |parts| => FrameAt(link, parts, i))
  }

  ghost function DatagramOf(link: seq<Byte>, parts: seq<Part>): Datagram
    requires Cuttable(link, parts)
  {
    var h := parts[0].h;
    Datagram(Key(h.src, h.dst, h.id), Concat(DataOf(parts)), Cut(link, parts))
  }

  lemma RoomForPart(link: seq<Byte>, parts: seq<Part>, i: nat)
    requires Cuttable(link, parts) && i < |parts|
    ensures CuttableAt(link, parts, i) && DataTo(parts, i) % 8 == 0
    ensures DataTo(parts, i) + |parts[i].data| <= DataTo(parts, |parts|)
  {
    DataToGrows(parts, i + 1, |parts|);
    WholeUnits(link, parts, i);
  }

  lemma FrameIsRead(link: seq<Byte>, parts: seq<Part>, i: nat, f: Frame)
    requires Cuttable(link, parts) && i < |parts| && CuttableAt(link, parts, i) && f == FrameAt(link, parts, i)
    ensures Accepted(f, |link|)
    ensures ReadAs(f, |link|, parts[i].h, i < |parts| - 1, DataTo(parts, i), parts[i].data)
  {
    var p := parts[i];
    RoomForPart(link, parts, i);
    HeaderIsRead(link, p.h, i < |parts| - 1, DataTo(parts, i) / 8, p.data, p.trailer, f);
  }

  lemma {:induction false} OffsetsAre(link: seq<Byte>, parts: seq<Part>, n: nat)
    requires Cuttable(link, parts) && n <= |parts|
    ensures OffTo(Cut(link, parts), n, |link|) == DataTo(parts, n)
  {
    if n > 0 {
      OffsetsAre(link, parts, n - 1);
      LengthIs(link, parts, n - 1, Cut(link, parts)[n - 1]);
    }
  }

  lemma LengthIs(link: seq<Byte>, parts: seq<Part>, i: nat, f: Frame)
    requires Cuttable(link, parts) && i < |parts| && f == Cut(link, parts)[i]
    ensures ContentLen(f, |link|) == |parts[i].data|
  {
    RoomForPart(link, parts, i);
    FrameIsRead(link, parts, i, f);
  }

  /** The data of part `i` is where it belongs. */
  lemma {:induction false} DataAt(parts: seq<Part>, n: nat, i: nat)
    requires i < n <= |parts|
    ensures |Concat(DataOf(parts)[..n])| == DataTo(parts, n) && DataTo(parts, i + 1) <= DataTo(parts, n)
    ensures Concat(DataOf(parts)[..n])[DataTo(parts, i)..DataTo(parts, i + 1)] == parts[i].data
  {
    var data := DataOf(parts);
    assert data[..n][..n - 1] == data[..n - 1] && data[..n][n - 1] == data[n - 1];
    if n > 1 {
      DataAt(parts, n - 1, if i < n - 1 then i else 0);
      if i < n - 1 {
        SliceOfFront(Concat(data[..n - 1]), data[n - 1], DataTo(parts, i), DataTo(parts, i + 1));
      }
    } else {
      assert data[..0] == [] && Concat(data[..1]) == data[0];
    }
  }

  lemma SliceOfFront(a: seq<Byte>, b: seq<Byte>, i: nat, j: nat)
    requires i <= j <= |a|
    ensures (a + b)[i..j] == a[i..j]
  {
  }

  /** What is cut by these rules meets the conditions of the reassembly theorems. */
  lemma CutIsWellCut(link: seq<Byte>, parts: seq<Part>)
    requires Cuttable(link, parts)
    ensures WellCut(DatagramOf(link, parts), |link|)
  {
    var d := DatagramOf(link, parts);
    OffsetsAre(link, parts, |parts|);
    PayloadAt(parts, 0);
    assert CuttableAt(link, parts, 0);
    forall i | 0 <= i < |parts|
      ensures PlacedAt(d, |link|, i) && CarriesAt(d, |link|, i)
    {
      PartIsPlaced(link, parts, i, d);
    }
  }

  lemma PartIsPlaced(link: seq<Byte>, parts: seq<Part>, i: nat, d: Datagram)
    requires Cuttable(link, parts) && i < |parts| && d == DatagramOf(link, parts)
    ensures PlacedAt(d, |link|, i) && CarriesAt(d, |link|, i)
  {
    RoomForPart(link, parts, i);
    OffsetsAre(link, parts, i);
    PayloadAt(parts, i);
    ReadIsPlaced(link, parts, i, d, d.cut[i], DataTo(parts, i));
  }

  lemma PayloadAt(parts: seq<Part>, i: nat)
    requires i < |parts|
    ensures |Concat(DataOf(parts))| == DataTo(parts, |parts|) && DataTo(parts, i + 1) <= DataTo(parts, |parts|)
    ensures Concat(DataOf(parts))[DataTo(parts, i)..DataTo(parts, i + 1)] == parts[i].data
  {
    DataAt(parts, |parts|, i);
    assert DataOf(parts)[..|parts|] == DataOf(parts);
  }

  /** A frame that is read as its part is one of a well cut datagram. */
  lemma ReadIsPlaced(link: seq<Byte>, parts: seq<Part>, i: nat, d: Datagram, f: Frame, offset: nat)
    requires Cuttable(link, parts) && i < |parts| == |d.cut| && CuttableAt(link, parts, i)
    requires f == d.cut[i] == FrameAt(link, parts, i) && offset == DataTo(parts, i)
    requires d.key == Key(parts[0].h.src, parts[0].h.dst, parts[0].h.id) && OffTo(d.cut, i, |link|) == offset
    requires offset + |parts[i].data| <= |d.payload| == DataTo(parts, |parts|)
    requires d.payload[offset..offset + |parts[i].data|] == parts[i].data
    ensures PlacedAt(d, |link|, i) && CarriesAt(d, |link|, i)
  {
    FrameIsRead(link, parts, i, f);
  }

  /** Datagrams that differ in source, destination or identification. */
  ghost predicate DifferentKeys(link: seq<Byte>, all: seq<seq<Part>>) {
    && (forall d :: 0 <= d < |all| ==> Cuttable(link, all[d]))
    && forall a, b :: 0 <= a < b < |all| ==> DatagramOf(link, all[a]).key != DatagramOf(link, all[b]).key
  }

  /** The packet and the buffer hold the protocol and the data of all parts. */
  ghost predicate Carries(out: Output, parts: seq<Part>, base: nat)
    requires parts != []
  {
    && out.packet.proto == parts[0].h.proto && out.size == DataTo(parts, |parts|) && base + out.size <= |out.buf|
    && out.buf[base..base + out.size] == Concat(DataOf(parts))
  }

  /** From the cut to the return: whatever datagrams are cut by these rules, in whatever order
      and interleaving their frames arrive, the call for each frame returns exactly when it
      is the last missing one, and then the data of all parts and their protocol. */
  lemma CutAndReassembled(link: seq<Byte>, all: seq<seq<Part>>, ds: seq<Datagram>, evs: seq<Event>, n: nat,
                          buf: seq<Byte>)
    requires DifferentKeys(link, all) && |ds| == |all|
    requires forall d :: 0 <= d < |all| ==> ds[d] == DatagramOf(link, all[d])
    requires Arrivals(ds, evs) && n < |evs| && |buf| == MAX_CAPTURE_LEN && FrameOf(ds, evs[n]) <= buf
    ensures var ps, f, parts := RunTo(ds, evs, n, |link|).pending, FrameOf(ds, evs[n]), all[evs[n].d];
            && Safe(ps, f, |link|, |buf|)
            && (Result(ps, f, |link|, buf).Some?
                <==> forall i :: 0 <= i < |parts| ==> Event(evs[n].d, i) in evs[..n + 1])
            && (Result(ps, f, |link|, buf).Some? ==>
                  HasHeader(f, |link|) && Carries(Result(ps, f, |link|, buf).value, parts, |link| + IpHl(f, |link|)))
  {
    CutsAreSane(link, all, ds);
    ReassemblyIsExact(ds, evs, n, |link|, buf);
    ReturnedCarries(link, all[evs[n].d], ds[evs[n].d], RunTo(ds, evs, n, |link|).pending, FrameOf(ds, evs[n]), buf);
  }

  lemma ReturnedCarries(link: seq<Byte>, parts: seq<Part>, d: Datagram, ps: seq<Pending>, f: Frame, buf: seq<Byte>)
    requires Cuttable(link, parts) && d == DatagramOf(link, parts) && Safe(ps, f, |link|, |buf|)
    ensures var r := Result(ps, f, |link|, buf);
            r.Some? && HasHeader(f, |link|) && Delivers(r.value, d, f, |link|) ==>
              Carries(r.value, parts, |link| + IpHl(f, |link|))
  {
    var r := Result(ps, f, |link|, buf);
    if r.Some? && HasHeader(f, |link|) && Delivers(r.value, d, f, |link|) {
      DeliveredCarries(link, parts, d, r.value, f);
    }
  }

  lemma DeliveredCarries(link: seq<Byte>, parts: seq<Part>, d: Datagram, out: Output, f: Frame)
    requires Cuttable(link, parts) && d == DatagramOf(link, parts)
    requires HasHeader(f, |link|) && Delivers(out, d, f, |link|)
    ensures Carries(out, parts, |link| + IpHl(f, |link|))
  {
    PayloadAt(parts, 0);
    OneProto(link, parts);
  }

  lemma CutsAreSane(link: seq<Byte>, all: seq<seq<Part>>, ds: seq<Datagram>)
    requires DifferentKeys(link, all) && |ds| == |all|
    requires forall d :: 0 <= d < |all| ==> ds[d] == DatagramOf(link, all[d])
    ensures Sane(ds, |link|)
  {
    forall d | 0 <= d < |ds|
      ensures WellCut(ds[d], |link|)
    {
      CutIsWellCut(link, all[d]);
    }
  }

  lemma OneProto(link: seq<Byte>, parts: seq<Part>)
    requires Cuttable(link, parts)
    ensures forall p: Byte :: IsProtoOf(p, DatagramOf(link, parts), |link|) ==> p == parts[0].h.proto
  {
    forall i | 0 <= i < |parts|
      ensures Accepted(Cut(link, parts)[i], |link|) && Proto(Cut(link, parts)[i], |link|) == parts[0].h.proto
    {
      assert CuttableAt(link, parts, i);
      FrameIsRead(link, parts, i, FrameAt(link, parts, i));
    }
  }
}
