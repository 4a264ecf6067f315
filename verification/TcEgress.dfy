/** The TC classifier that drops outgoing frames whose IPv4 destination address is in the blocklist. */
module TcEgress {
  import opened MachineWords
  import opened Options
  import opened ByteOrder
  import opened Packets

  const TC_ACT_SHOT: i32 := 2
  const TC_ACT_PIPE: i32 := 3

  predicate BlockIp(blocklist: Blocklist, address: u32) {
    address in blocklist
  }

  function TryTcEgress(bigEndian: bool, blocklist: Blocklist, frame: Packet): Option<i32> {
    match Load(frame, 0, ETH_HDR_LEN)
    case None => None
    case Some(ethhdr) =>
      if !EtherTypeIsIpv4(bigEndian, Bytes(ethhdr, ETHER_TYPE, 2)) then Some(TC_ACT_PIPE)
      else
        match Load(frame, ETH_HDR_LEN, IPV4_HDR_LEN)
        case None => None
        case Some(ipv4hdr) =>
          var destination := FromBe32(bigEndian, Native32(bigEndian, Bytes(ipv4hdr, IPV4_DST, 4)));
          Some(if BlockIp(blocklist, destination) then TC_ACT_SHOT else TC_ACT_PIPE)
  }

  function TcEgress(bigEndian: bool, blocklist: Blocklist, frame: Packet): i32 {
    match TryTcEgress(bigEndian, blocklist, frame)
    case Some(ret) => ret
    case None => TC_ACT_SHOT
  }

  /** When the frame is dropped, in terms of the bytes on the wire: 2 is SHOT and 3 is PIPE. An
      unreadable header counts as blocked. */
  lemma VerdictOnWire(bigEndian: bool, blocklist: Blocklist, p: Packet)
    ensures TcEgress(bigEndian, blocklist, p)
         == if |p| < 14 then 2
            else if p[12] != 0x08 || p[13] != 0x00 then 3
            else if |p| < 34 || Base256(p[30], p[31], p[32], p[33]) in blocklist then 2
            else 3
  {
    if |p| >= 14 {
      var ethhdr := Bytes(p, 0, 14);
      EtherTypeOnWire(bigEndian, Bytes(ethhdr, 12, 2));
      assert Bytes(ethhdr, 12, 2) == [p[12], p[13]];
      if |p| >= 34 {
        var octets := Bytes(Bytes(p, 14, 20), 16, 4);
        FromBeOfLoad32(bigEndian, octets);
        assert octets == p[30..34] && octets == [p[30], p[31], p[32], p[33]];
      }
    }
  }
}
