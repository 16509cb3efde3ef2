/** Captured packets (src/packet.c): heap objects whose frame list and payload are
    replaced in place. */
module Packets {
  import opened Common

  /** A captured link-layer frame. */
  type Frame = seq<Byte>

  /** A network address, by its octets, and a port. */
  datatype Address = Address(ip: seq<Byte>, port: nat)

  class Packet {
    var ipVersion: nat
    var proto: Byte
    var src: Address
    var dst: Address
    var ipId: nat
    var ipCapLen: nat
    var ipExpLen: nat
    var tcpSeq: nat
    var payload: seq<Byte>
    var frames: seq<Frame>
    var kind: nat

    constructor (ipVersion: nat, proto: Byte, src: Address, dst: Address, id: nat)
      ensures this.ipVersion == ipVersion && this.proto == proto && this.src == src && this.dst == dst
      ensures ipId == id && ipCapLen == ipExpLen == tcpSeq == 0 && payload == [] && frames == []
      ensures kind == 0
    {
      this.ipVersion, this.proto, this.src, this.dst := ipVersion, proto, src, dst;
      ipId, ipCapLen, ipExpLen, tcpSeq, payload, frames := id, 0, 0, 0, [], [];
      kind := 0;
    }

    /** A new packet with the frames, the sequence number and the type of this one, and no
        payload yet. */
    method Clone() returns (clone: Packet)
      ensures fresh(clone) && clone.ipVersion == ipVersion && clone.proto == proto
      ensures clone.src == src && clone.dst == dst && clone.ipId == ipId && clone.tcpSeq == tcpSeq
      ensures clone.kind == kind && clone.frames == frames
      ensures clone.payload == [] && clone.ipCapLen == clone.ipExpLen == 0
    {
      clone := new Packet(ipVersion, proto, src, dst, ipId);
      clone.tcpSeq, clone.kind := tcpSeq, kind;
      var i := 0;
      while i < |frames|
        invariant 0 <= i <= |frames| && clone.frames == frames[..i]
        modifies clone`frames
      {
        clone.AddFrame(frames[i]);
        i := i + 1;
      }
    }

    method AddFrame(frame: Frame)
      modifies this`frames
      ensures frames == old(frames) + [frame]
    {
      frames := frames + [frame];
    }

    method SetPayload(payload: seq<Byte>)
      modifies this`payload
      ensures this.payload == payload
    {
      this.payload := payload;
    }
  }
}
