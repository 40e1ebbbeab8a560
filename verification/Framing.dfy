/**
How packets travel over a connection: a 4-byte big-endian length, then that many bytes
(send_data and get_response in common/common.c, and the same reads in broker.c and server.c).

Assumed of the libraries: send writes everything it is given, netReadn blocks until it has read
everything it was asked for or the peer has closed the connection.
*/
module Framing {
  import opened MsgPack
  import opened Common

  /** One direction of a TCP connection: the bytes written and not yet read. */
  class Channel {
    var data: bytes

    constructor ()
      ensures data == []
    {
      data := [];
    }

    method Write(b: bytes)
      modifies this
      ensures data == old(data) + b
    {
      data := data + b;
    }

    method ReadN(n: nat) returns (b: bytes)
      modifies this
      ensures old(data) == b + data
      ensures |b| == if n <= |old(data)| then n else |old(data)|
    {
      var m := if n <= |data| then n else |data|;
      b := data[..m];
      data := data[m..];
    }
  }

  predicate Fits(packet: bytes)
  {
    |packet| < 0x1_0000_0000
  }

  /** The length is a uint32_t; that many bytes follow it. */
  function Frame(packet: bytes): bytes
  {
    var len := |packet| % 0x1_0000_0000;
    ToBE(len, 4) + packet[..len]
  }

  /** The packet at the front of a channel, and what is left behind it. */
  function Unframe(b: bytes): Outcome<(bytes, bytes)>
  {
    if |b| < 4 then Abort else
    var n := FromBE(b[..4]);
    if n == 0 || |b| < 4 + n then Abort else Ok((b[4..4 + n], b[4 + n..]))
  }

  /** Four length bytes, most significant first, then the packet. */
  lemma FrameLayout(packet: bytes)
    ensures Fits(packet) ==>
      var n := |packet|;
      Frame(packet) ==
        [Byte(n / 0x100_0000), Byte(n / 0x1_0000 % 0x100), Byte(n / 0x100 % 0x100), Byte(n % 0x100)] + packet
  {
    hide ToBE;
    MostSignificantFirst(|packet|);
  }

  /** A frame that is not there to its last byte is not received. */
  lemma ShortFrame(packet: bytes, k: nat)
    requires Fits(packet) && k < |Frame(packet)|
    ensures Unframe(Frame(packet)[..k]) == Abort
  {
    hide ToBE, FromBE;
    Pow256Values();
    BigEndianRoundTrip(|packet|, 4);
    if k >= 4 {
      assert Frame(packet)[..k][..4] == ToBE(|packet|, 4);
    }
  }

  method SendData(s: Channel, packet: bytes)
    modifies s
    ensures s.data == old(s.data) + Frame(packet)
    ensures Fits(packet) ==>
      var n := |packet|;
      s.data == old(s.data)
        + [Byte(n / 0x100_0000), Byte(n / 0x1_0000 % 0x100), Byte(n / 0x100 % 0x100), Byte(n % 0x100)] + packet
  {
    ghost var before := s.data;
    hide ToBE;
    FrameLayout(packet);
    var len := |packet| % 0x1_0000_0000;
    s.Write(ToBE(len, 4));
    s.Write(packet[..len]);
    assert before + ToBE(len, 4) + packet[..len] == before + (ToBE(len, 4) + packet[..len]);
  }

  method GetResponse(s: Channel) returns (r: Outcome<bytes>)
    modifies s
    ensures match Unframe(old(s.data))
            case Ok((packet, rest)) => r == Ok(packet) && s.data == rest
            case Abort => r == Abort
    ensures r.Ok? ==>
      var b := old(s.data);
      && |b| >= 4
      && |r.value| == b[0] as int * 0x100_0000 + b[1] as int * 0x1_0000 + b[2] as int * 0x100 + b[3] as int
  {
    ghost var before := s.data;
    var len := s.ReadN(4);
    assert before[..|len|] == len;
    if |len| < 4 {
      return Abort;
    }
    assert s.data == before[4..];
    var n := FromBE(len);
    FourBytes(len);
    var buffer := s.ReadN(n);
    if |buffer| < 1 || |buffer| < n {
      return Abort;
    }
    assert before == len + (buffer + s.data);
    assert buffer == before[4..4 + n];
    assert s.data == before[4 + n..];
    return Ok(buffer);
  }

  predicate Sendable(packet: bytes)
  {
    packet != [] && Fits(packet)
  }

  /**
  A framed packet is read back exactly if and only if its length fits a uint32_t and it is not
  empty: netReadn then has nothing to read, which the receiver takes for a failure.
  */
  lemma FrameRoundTrip(packet: bytes, rest: bytes)
    ensures Unframe(Frame(packet) + rest) == Ok((packet, rest)) <==> Sendable(packet)
    ensures packet == [] ==> Unframe(Frame(packet) + rest) == Abort
  {
    hide ToBE, FromBE;
    Pow256Values();
    var len := |packet| % 0x1_0000_0000;
    BigEndianRoundTrip(len, 4);
    var b := Frame(packet) + rest;
    assert b[..4] == ToBE(len, 4);
    assert b[4..4 + len] == packet[..len];
    assert b[4 + len..] == rest;
    assert if Fits(packet) then packet[..len] == packet else |packet[..len]| < |packet|;
  }

  function FrameAll(packets: seq<bytes>): bytes
    requires forall p | p in packets :: Sendable(p)
  {
    if packets == [] then [] else Frame(packets[0]) + FrameAll(packets[1..])
  }

  /** Receiving n packets from one channel. */
  function UnframeMany(b: bytes, n: nat): Outcome<(seq<bytes>, bytes)>
  {
    if n == 0 then Ok(([], b)) else
    match Unframe(b)
    case Abort => Abort
    case Ok((packet, rest)) =>
      match UnframeMany(rest, n - 1)
      case Abort => Abort
      case Ok((packets, left)) => Ok(([packet] + packets, left))
  }

  /** Packet boundaries survive the byte stream: the same packets, in order, nothing left over. */
  lemma {:induction false} FramingRoundTrip(packets: seq<bytes>)
    requires forall p | p in packets :: Sendable(p)
    ensures UnframeMany(FrameAll(packets), |packets|) == Ok((packets, []))
  {
    hide Frame, Unframe;
    if packets != [] {
      assert Sendable(packets[0]);
      FrameRoundTrip(packets[0], FrameAll(packets[1..]));
      FramingRoundTrip(packets[1..]);
      var b := FrameAll(packets);
      assert Unframe(b) == Ok((packets[0], FrameAll(packets[1..])));
      assert UnframeMany(b, |packets|) == Ok(([packets[0]] + packets[1..], []));
      assert [packets[0]] + packets[1..] == packets;
    }
  }
}
