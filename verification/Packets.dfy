/** The packets udp.c and icmp.c hand to the IPv4 layer. */
module Packets {
  import opened CTypes
  import opened Checksum

  const MAX_PAYLOAD := 1472

  /** A datagram with its checksum word still zero. */
  function Unsealed(source: uint16, destination: uint16, payload: seq<byte>): (d: seq<byte>)
    requires |payload| <= MAX_PAYLOAD
    ensures |d| == 8 + |payload|
  {
    var size := 8 + |payload|;
    [source / 256, source % 256, destination / 256, destination % 256, size / 256, size % 256, 0, 0] + payload
  }

  function Datagram(source: uint16, destination: uint16, payload: seq<byte>): (d: seq<byte>)
    requires |payload| <= MAX_PAYLOAD
    ensures |d| == 8 + |payload|
  {
    Sealed(Unsealed(source, destination, payload), 6, Rfc1071(Unsealed(source, destination, payload)))
  }

  /** A receiver reads back ports, size and payload, and its checksum of the datagram is zero. */
  lemma DatagramReadsBack(source: uint16, destination: uint16, payload: seq<byte>)
    requires |payload| <= MAX_PAYLOAD
    ensures var d := Datagram(source, destination, payload);
      && d[0] as int * 0x100 + d[1] == source && d[2] as int * 0x100 + d[3] == destination
      && d[4] as int * 0x100 + d[5] == |d|
      && d[8..] == payload && Rfc1071(d) == 0
  {
    var u := Unsealed(source, destination, payload);
    SealedSumsToZero(u, 6);
    assert u[8..] == payload;
    assert Datagram(source, destination, payload)[8..] == u[8..];
  }

  /** Takes the checksum of a packet and stores it, high byte first. */
  method Seal(packet: array<byte>, at: nat, size: nat)
    requires at + 1 < size <= packet.Length && size <= 131074
    modifies packet
    ensures packet[..size] == Sealed(old(packet[..size]), at, Rfc1071(old(packet[..size])))
    ensures packet[at] as int * 0x100 + packet[at + 1] == Rfc1071(old(packet[..size]))
  {
    var checksum := Ipv4Checksum(packet, size);
    packet[at] := checksum / 256;
    packet[at + 1] := checksum % 256;
  }

  datatype Socket = Socket(used: bool, localPort: uint16)

  class Udp {
    const sockets: array<Socket>
    var txPackets: uint32
    var droppedPackets: uint32

    constructor ()
      ensures sockets.Length == 8 && fresh(sockets) && txPackets == 0 && droppedPackets == 0
      ensures forall i :: 0 <= i < 8 ==> sockets[i] == Socket(false, 0)
    {
      sockets := new Socket[8](_ => Socket(false, 0));
      txPackets, droppedPackets := 0, 0;
    }

    /** The datagram in a packet buffer of full size. */
    static method Build(source: uint16, destination: uint16, data: array<byte>, length: nat)
      returns (packet: array<byte>, size: nat)
      requires length <= MAX_PAYLOAD && length <= data.Length
      ensures fresh(packet) && packet.Length == 8 + MAX_PAYLOAD && size == 8 + length
      ensures packet[..size] == Datagram(source, destination, data[..length])
    {
      packet := new byte[8 + MAX_PAYLOAD];
      size := 8 + length;
      packet[0] := source / 256;
      packet[1] := source % 256;
      packet[2] := destination / 256;
      packet[3] := destination % 256;
      packet[4] := size / 256;
      packet[5] := size % 256;
      packet[6] := 0;
      packet[7] := 0;
      for i := 0 to length
        invariant packet[..8] == Unsealed(source, destination, data[..length])[..8]
        invariant packet[8..8 + i] == data[..i]
      {
        packet[8 + i] := data[i];
      }
      ghost var u := Unsealed(source, destination, data[..length]);
      assert packet[..size] == u;
      Seal(packet, 6, size);
    }

    /** What a call must satisfy to reach the IPv4 layer. */
    predicate Sendable(socket: int, data: array?<byte>, length: nat)
      requires sockets.Length == 8
      reads sockets
    {
      0 <= socket < 8 && sockets[socket].used && data != null && length <= MAX_PAYLOAD
    }

    /** `udp_send`; `accepts` is the answer of the IPv4 layer, `handed` the packet it was given. */
    method Send(socket: int, destination: uint16, data: array?<byte>, length: nat, accepts: bool)
      returns (r: int, handed: seq<byte>)
      requires sockets.Length == 8
      requires data != null && length <= MAX_PAYLOAD ==> length <= data.Length
      modifies this`txPackets, this`droppedPackets
      ensures r == if accepts && 0 <= socket < 8 && sockets[socket].used && data != null && length <= 1472
                   then 0 else -1
      ensures handed != [] <==> Sendable(socket, data, length)
      ensures handed == if Sendable(socket, data, length)
                        then Datagram(sockets[socket].localPort, destination, data[..length]) else []
      ensures txPackets == if r == 0 then U32(old(txPackets) + 1) else old(txPackets)
      ensures droppedPackets == if r == 0 then old(droppedPackets) else U32(old(droppedPackets) + 1)
    {
      if socket < 0 || socket >= 8 || !sockets[socket].used {
        droppedPackets := U32(droppedPackets + 1);
        return -1, [];
      }
      if data == null || length > MAX_PAYLOAD {
        droppedPackets := U32(droppedPackets + 1);
        return -1, [];
      }
      var packet, size := Build(sockets[socket].localPort, destination, data, length);
      handed := packet[..size];
      if !accepts {
        droppedPackets := U32(droppedPackets + 1);
        return -1, handed;
      }
      txPackets := U32(txPackets + 1);
      return 0, handed;
    }
  }

  /** The echo request, its checksum word still zero: type 8, code 0, identifier 0x1234, sequence number 1. */
  function EchoUnsealed(): (d: seq<byte>)
    ensures |d| == 8
  {
    [8, 0, 0, 0, 0x12, 0x34, 0x00, 0x01]
  }

  function Echo(): seq<byte> {
    Sealed(EchoUnsealed(), 2, Rfc1071(EchoUnsealed()))
  }

  /** Byte for byte, with the checksum 0xE5CA. */
  lemma EchoSumsToZero()
    ensures Rfc1071(Echo()) == 0 && Echo() == [8, 0, 0xE5, 0xCA, 0x12, 0x34, 0, 1]
  {
    var d := EchoUnsealed();
    SealedSumsToZero(d, 2);
    EchoChecksum(d);
  }

  lemma EchoChecksum(d: seq<byte>)
    requires d == [8, 0, 0, 0, 0x12, 0x34, 0, 1]
    ensures Rfc1071(d) == 0xE5CA
  {
    assert OnesSum(d, 1) == 0x0800 && OnesSum(d, 2) == 0x0800;
    assert OnesSum(d, 3) == 0x1A34 && OnesSum(d, 4) == 0x1A35;
  }

  class Icmp {
    var sent: uint32
    var dropped: uint32

    constructor ()
      ensures sent == 0 && dropped == 0
    {
      sent, dropped := 0, 0;
    }

    /** The packet before its checksum is filled in. */
    static method EchoBytes() returns (packet: array<byte>)
      ensures fresh(packet) && packet.Length == 8 && packet[..8] == EchoUnsealed()
    {
      packet := new byte[8];
      packet[0] := 8;
      packet[1] := 0;
      packet[2] := 0;
      packet[3] := 0;
      packet[4] := 0x12;
      packet[5] := 0x34;
      packet[6] := 0x00;
      packet[7] := 0x01;
    }

    static method EchoRequest() returns (packet: array<byte>)
      ensures fresh(packet) && packet.Length == 8 && packet[..8] == Echo()
    {
      packet := EchoBytes();
      Seal(packet, 2, 8);
    }

    /** `icmp_ping`; `accepts` is the answer of the IPv4 layer, `handed` the packet it was given. */
    method Ping(accepts: bool) returns (r: int, handed: seq<byte>)
      modifies this
      ensures r == (if accepts then 0 else -1) && handed == Echo()
      ensures sent == if accepts then U32(old(sent) + 1) else old(sent)
      ensures dropped == if accepts then old(dropped) else U32(old(dropped) + 1)
    {
      var packet := EchoRequest();
      handed := packet[..8];
      if !accepts {
        dropped := U32(dropped + 1);
        return -1, handed;
      }
      sent := U32(sent + 1);
      return 0, handed;
    }
  }
}
