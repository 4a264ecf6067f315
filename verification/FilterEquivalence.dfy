/** The packet programs compared with each other. */
module FilterEquivalence {
  import opened ByteOrder
  import opened Packets
  import XdpDrop
  import TcEgress
  import CgroupEgress

  /** What the cgroup program sees of an Ethernet frame. */
  function WithoutEthernet(bigEndian: bool, frame: Packet): CgroupEgress.Egress
    requires |frame| >= 14
  {
    CgroupEgress.Egress(Native16(bigEndian, frame[12..14]), frame[14..])
  }

  /** The cgroup program takes a packet for IPv4 by comparing the stored type with the native number 8,
      which is the IPv4 type only where the low byte comes first. */
  lemma ProtocolIsIpv4(bigEndian: bool, frame: Packet)
    requires |frame| >= 14
    ensures WithoutEthernet(bigEndian, frame).protocol == 8
       <==> if bigEndian then frame[12] == 0x00 && frame[13] == 0x08 else frame[12] == 0x08 && frame[13] == 0x00
  {}

  /** The TC and the cgroup program, with the same blocklist, drop the same frames, truncated headers
      included, on every little-endian target. On a big-endian target they part exactly on the frames
      of the two types that each of them takes for IPv4, when such a frame would be dropped. */
  lemma TcMatchesCgroup(bigEndian: bool, blocklist: Blocklist, frame: Packet)
    requires |frame| >= 14
    ensures (TcEgress.TcEgress(bigEndian, blocklist, frame) == 2)
         == (CgroupEgress.Verdict(blocklist, WithoutEthernet(bigEndian, frame)) == 0)
       <==> || !bigEndian
            || !((frame[12] == 0x08 && frame[13] == 0x00) || (frame[12] == 0x00 && frame[13] == 0x08))
            || !(|frame| < 34 || Base256(frame[30], frame[31], frame[32], frame[33]) in blocklist)
  {
    TcEgress.VerdictOnWire(bigEndian, blocklist, frame);
    ProtocolIsIpv4(bigEndian, frame);
  }

  /** The frame with its IPv4 source and destination addresses exchanged. */
  function SwapAddresses(frame: Packet): (r: Packet)
    ensures |r| == |frame|
    ensures forall k :: 0 <= k < |frame| ==>
              r[k] == if |frame| >= 34 && 26 <= k < 30 then frame[k + 4]
                      else if |frame| >= 34 && 30 <= k < 34 then frame[k - 4]
                      else frame[k]
  {
    if |frame| < 34 then frame
    else frame[..26] + frame[30..34] + frame[26..30] + frame[34..]
  }

  lemma SwapInvolutive(frame: Packet)
    ensures SwapAddresses(SwapAddresses(frame)) == frame
  {
    var swapped := SwapAddresses(frame);
    forall k | 0 <= k < |frame| ensures SwapAddresses(swapped)[k] == frame[k] {
      if |frame| >= 34 {
        assert 26 <= k < 30 ==> SwapAddresses(swapped)[k] == swapped[k + 4];
        assert 30 <= k < 34 ==> SwapAddresses(swapped)[k] == swapped[k - 4];
      }
    }
  }

  /** Incoming filtering by source mirrors outgoing filtering by destination: the XDP program refuses a
      frame, with ABORTED or DROP, exactly when the TC program drops its reflection. */
  lemma Reflection(bigEndian: bool, blocklist: Blocklist, data: nat, frame: Packet)
    ensures XdpDrop.XdpFirewall(bigEndian, blocklist, XdpContext(data, frame)) in {0, 1}
       <==> TcEgress.TcEgress(bigEndian, blocklist, SwapAddresses(frame)) == 2
  {
    XdpDrop.VerdictOnWire(bigEndian, blocklist, data, frame);
    TcEgress.VerdictOnWire(bigEndian, blocklist, SwapAddresses(frame));
  }

  /** And conversely, the TC program drops a frame exactly when the XDP program refuses its reflection,
      wherever in memory that lies. */
  lemma ReflectionConverse(bigEndian: bool, blocklist: Blocklist, data: nat, frame: Packet)
    ensures TcEgress.TcEgress(bigEndian, blocklist, frame) == 2
       <==> XdpDrop.XdpFirewall(bigEndian, blocklist, XdpContext(data, SwapAddresses(frame))) in {0, 1}
  {
    SwapInvolutive(frame);
    Reflection(bigEndian, blocklist, data, SwapAddresses(frame));
  }
}
