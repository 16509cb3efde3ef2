/** When the order of HEP3 chunks, and chunks of other vendors, do not matter to the
    receiver (src/capture_eep.c): the exact condition. */
module ChunkOrders {
  import opened Common
  import opened Packets
  import opened Hep3

  /** The general chunks of `cs` in any order, with any chunks of other vendors. */
  ghost predicate Variant(ds: seq<Chunk>, cs: seq<Chunk>) {
    AllSound(ds) && multiset(Filter(ds, General())) == multiset(Filter(cs, General()))
  }

  /** The buffer begins with the packet of these chunks. */
  ghost predicate Holds(buf: seq<Byte>, cs: seq<Chunk>) {
    |buf| >= GENERIC_LEN && PacketOf(cs) <= buf && |PacketOf(cs)| < 0x10000
  }

  /** All variants are received alike, where no password is asked for. */
  ghost predicate Independent(cs: seq<Chunk>) {
    forall ds, es, a, b :: Variant(ds, cs) && Variant(es, cs) && Holds(a, ds) && Holds(b, es) ==>
      Receive(a, None) == Receive(b, None)
  }

  ghost predicate HasTarget(cs: seq<Chunk>, t: nat) {
    exists i :: 0 <= i < |cs| && Target(cs[i]) == t
  }

  lemma TargetIsGeneral(cs: seq<Chunk>, t: nat)
    requires t != 0
    ensures HasTarget(cs, t) <==> HasTarget(Filter(cs, General()), t)
  {
    var g := Filter(cs, General());
    FilterToMembers(cs, |cs|, General());
    assert cs[..|cs|] == cs;
    if HasTarget(cs, t) {
      var i :| 0 <= i < |cs| && Target(cs[i]) == t;
      assert cs[i] in g;
      var j :| 0 <= j < |g| && g[j] == cs[i];
    }
    if HasTarget(g, t) {
      var j :| 0 <= j < |g| && Target(g[j]) == t;
      assert g[j] in cs;
      var i :| 0 <= i < |cs| && cs[i] == g[j];
    }
  }

  lemma SameTargets(xs: seq<Chunk>, ys: seq<Chunk>, t: nat)
    requires multiset(xs) == multiset(ys) && HasTarget(xs, t)
    ensures HasTarget(ys, t)
  {
    var i :| 0 <= i < |xs| && Target(xs[i]) == t;
    assert xs[i] in multiset(ys);
    var j := FindIn(xs[i], ys);
  }

  /** The same variables are set, whatever the order and the foreign chunks. */
  lemma VariantTargets(ds: seq<Chunk>, cs: seq<Chunk>, t: nat)
    requires Variant(ds, cs) && t != 0
    ensures HasTarget(ds, t) <==> HasTarget(cs, t)
  {
    var gs, hs := Filter(cs, General()), Filter(ds, General());
    TargetIsGeneral(cs, t);
    TargetIsGeneral(ds, t);
    if HasTarget(gs, t) {
      SameTargets(gs, hs, t);
    } else if HasTarget(hs, t) {
      SameTargets(hs, gs, t);
    }
  }

  lemma VariantTells(ds: seq<Chunk>, cs: seq<Chunk>)
    requires Variant(ds, cs) && TellsFamilyAndProto(cs)
    ensures TellsFamilyAndProto(ds)
  {
    assert HasTarget(cs, 1) && HasTarget(cs, 2);
    VariantTargets(ds, cs, 1);
    VariantTargets(ds, cs, 2);
  }

  // ---------------------------------------------------------------------------
  // Without a chunk for them, family and protocol come from the buffer
  // ---------------------------------------------------------------------------

  lemma {:induction false} FamilyStays(f: Fields, cs: seq<Chunk>)
    requires AllSound(cs) && !HasTarget(cs, 1)
    ensures ApplyAll(f, cs).family == f.family
    decreases |cs|
  {
    if cs != [] {
      assert Target(cs[0]) != 1;
      assert forall i :: 0 <= i < |cs| - 1 ==> cs[1..][i] == cs[i + 1];
      FamilyStays(Apply(f, cs[0]), cs[1..]);
    }
  }

  lemma {:induction false} ProtoStays(f: Fields, cs: seq<Chunk>)
    requires AllSound(cs) && !HasTarget(cs, 2)
    ensures ApplyAll(f, cs).proto == f.proto
    decreases |cs|
  {
    if cs != [] {
      assert Target(cs[0]) != 2;
      assert forall i :: 0 <= i < |cs| - 1 ==> cs[1..][i] == cs[i + 1];
      ProtoStays(Apply(f, cs[0]), cs[1..]);
    }
  }

  /** A chunk of another vendor that reaches over the places of family and protocol. */
  function Foreign(family: Byte, proto: Byte): Chunk {
    Chunk(1, 0, [family, 0, 0, 0, 0, 0, 0, proto])
  }

  function Padded(cs: seq<Chunk>): seq<Byte> {
    PacketOf(cs) + seq(GENERIC_LEN, _ => 0)
  }

  lemma ForeignFirst(cs: seq<Chunk>, family: Byte, proto: Byte, ds: seq<Chunk>)
    requires AllSound(cs) && |PacketOf(cs)| + 14 < 0x10000 && ds == [Foreign(family, proto)] + cs
    ensures Variant(ds, cs) && Holds(Padded(ds), ds)
    ensures Initial(Padded(ds)).family == family && Initial(Padded(ds)).proto == proto
  {
    var x := Foreign(family, proto);
    FilterConcat([x], cs, General());
    assert !General()(x) && [x][0] == x;
    assert FilterTo([x], 1, General()) == FilterTo([x], 0, General()) + Keep(x, General());
    JoinedPlus([x], cs);
    JoinedOne(x);
    HeaderParts(Padded(ds), Joined(ds));
    BytesParts(x, Joined(cs));
    FamilyAndProtoAt(Padded(ds), x.body, Joined(ds));
  }

  lemma FamilyAndProtoAt(buf: seq<Byte>, body: seq<Byte>, joined: seq<Byte>)
    requires |joined| >= 14 && HEADER_LEN + |joined| <= |buf| && buf[HEADER_LEN..HEADER_LEN + |joined|] == joined
    requires |body| == 8 && joined[6..14] == body
    ensures buf[12] == body[0] && buf[19] == body[7]
  {
    assert joined[6] == joined[6..14][0] && joined[13] == joined[6..14][7];
    assert buf[HEADER_LEN..HEADER_LEN + |joined|][6] == joined[6];
    assert buf[HEADER_LEN..HEADER_LEN + |joined|][13] == joined[13];
  }

  lemma ForeignReceived(cs: seq<Chunk>, family: Byte, proto: Byte, ds: seq<Chunk>)
    requires AllSound(cs) && |PacketOf(cs)| + 14 < 0x10000 && ds == [Foreign(family, proto)] + cs
    ensures Variant(ds, cs) && Holds(Padded(ds), ds)
    ensures var out := Receive(Padded(ds), None);
            && out.Decoded?
            && (!HasTarget(cs, 1) ==> out.packet.version == if family == AF_INET then 4 else 6)
            && (!HasTarget(cs, 2) ==> out.packet.proto == proto)
  {
    ForeignFirst(cs, family, proto, ds);
    var f := Initial(Padded(ds));
    ReceiveIs(Padded(ds), ds, None);
    assert ds[0] == Foreign(family, proto) && ds[1..] == cs;
    assert ApplyAll(f, ds) == ApplyAll(f, cs);
    if !HasTarget(cs, 1) {
      FamilyStays(f, cs);
    }
    if !HasTarget(cs, 2) {
      ProtoStays(f, cs);
    }
  }

  /** Without a family or a protocol chunk, a chunk that the receiver ignores decides. */
  lemma ForeignDecides(cs: seq<Chunk>) returns (ds: seq<Chunk>, es: seq<Chunk>)
    requires AllSound(cs) && |PacketOf(cs)| + 14 < 0x10000 && !TellsFamilyAndProto(cs)
    ensures Variant(ds, cs) && Variant(es, cs) && Holds(Padded(ds), ds) && Holds(Padded(es), es)
    ensures Receive(Padded(ds), None).Decoded? && Receive(Padded(es), None).Decoded?
    ensures Receive(Padded(ds), None) != Receive(Padded(es), None)
  {
    ds, es := [Foreign(AF_INET, 6)] + cs, [Foreign(0, 17)] + cs;
    ForeignReceived(cs, AF_INET, 6, ds);
    ForeignReceived(cs, 0, 17, es);
    assert !HasTarget(cs, 1) || !HasTarget(cs, 2);
  }

  lemma VariantsAlike(cs: seq<Chunk>, ds: seq<Chunk>, a: seq<Byte>)
    requires AllSound(cs) && NoRepeats(Filter(cs, General())) && TellsFamilyAndProto(cs)
    requires |PacketOf(cs)| < 0x10000 && Variant(ds, cs) && Holds(a, ds)
    ensures Receive(a, None) == Receive(Padded(cs), None)
  {
    VariantTells(ds, cs);
    OrderIsIrrelevant(a, Padded(cs), ds, cs, None);
  }

  /** Order independence, exactly: with no password, the order of the chunks and chunks
      of other vendors do not matter if and only if family and protocol are told. */
  lemma IndependentExactly(cs: seq<Chunk>)
    requires AllSound(cs) && NoRepeats(Filter(cs, General())) && |PacketOf(cs)| + 14 < 0x10000
    ensures Independent(cs) <==> TellsFamilyAndProto(cs)
  {
    if TellsFamilyAndProto(cs) {
      forall ds, es, a, b | Variant(ds, cs) && Variant(es, cs) && Holds(a, ds) && Holds(b, es)
        ensures Receive(a, None) == Receive(b, None)
      {
        VariantsAlike(cs, ds, a);
        VariantsAlike(cs, es, b);
      }
    } else {
      var ds, es := ForeignDecides(cs);
      assert Holds(Padded(ds), ds) && Holds(Padded(es), es);
    }
  }
}
