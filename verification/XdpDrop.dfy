/** The XDP firewall that drops frames whose IPv4 source address is in the blocklist. */
module XdpDrop {
  import opened MachineWords
  import opened Options
  import opened ByteOrder
  import opened Packets
  import opened BlocklistMap

  predicate BlockIp(blocklist: Blocklist, address: u32) {
    address in blocklist
  }

  function TryXdpFirewall(bigEndian: bool, blocklist: Blocklist, ctx: XdpContext): Option<u32> {
    match PtrAt(ctx, 0, ETH_HDR_LEN)
    case None => None
    case Some(ethhdr) =>
      if !EtherTypeIsIpv4(bigEndian, Deref(ctx, ethhdr + ETHER_TYPE, 2)) then Some(XDP_PASS)
      else
        match PtrAt(ctx, ETH_HDR_LEN, IPV4_HDR_LEN)
        case None => None
        case Some(ipv4hdr) =>
          var source := FromBe32(bigEndian, Native32(bigEndian, Deref(ctx, ipv4hdr + IPV4_SRC, 4)));
          Some(if BlockIp(blocklist, source) then XDP_DROP else XDP_PASS)
  }

  function XdpFirewall(bigEndian: bool, blocklist: Blocklist, ctx: XdpContext): u32 {
    match TryXdpFirewall(bigEndian, blocklist, ctx)
    case Some(ret) => ret
    case None => XDP_ABORTED
  }

  /** The verdict, in terms of the bytes on the wire: 0 is ABORTED, 1 is DROP and 2 is PASS. Nothing in
      it depends on the target's byte order or on where in memory the packet lies. */
  lemma VerdictOnWire(bigEndian: bool, blocklist: Blocklist, data: nat, p: Packet)
    ensures XdpFirewall(bigEndian, blocklist, XdpContext(data, p))
         == if |p| < 14 then 0
            else if p[12] != 0x08 || p[13] != 0x00 then 2
            else if |p| < 34 then 0
            else if Base256(p[26], p[27], p[28], p[29]) in blocklist then 1
            else 2
  {
    if |p| >= 14 {
      EtherTypeOnWire(bigEndian, Bytes(p, 12, 2));
      assert Bytes(p, 12, 2) == [p[12], p[13]];
      if |p| >= 34 {
        FromBeOfLoad32(bigEndian, Bytes(p, 26, 4));
        assert Bytes(p, 26, 4) == [p[26], p[27], p[28], p[29]];
      }
    }
  }

  /** Over any run that interleaves inserts and frames, an IPv4 frame with a whole header is dropped
      exactly when its four source octets were inserted earlier, successfully. */
  lemma DroppedExactly(bigEndian: bool, steps: seq<Step<XdpContext>>, i: nat, data: nat, p: Packet)
    requires i < |steps| && steps[i] == Arrival(XdpContext(data, p))
    requires |p| >= 34 && p[12] == 0x08 && p[13] == 0x00
    ensures XdpFirewall(bigEndian, BlocklistAfter(steps[..i]), XdpContext(data, p)) == 1
       <==> exists j :: 0 <= j < i && Inserted(steps, j, Ipv4Addr(p[26], p[27], p[28], p[29]))
  {
    var source := Ipv4Addr(p[26], p[27], p[28], p[29]);
    VerdictOnWire(bigEndian, BlocklistAfter(steps[..i]), data, p);
    LookupExact(steps[..i], source);
    forall j | 0 <= j < i ensures Inserted(steps[..i], j, source) <==> Inserted(steps, j, source) {
      InsertedEarlier(steps, i, j, source);
    }
  }

  /** The verdict depends only on the first 34 bytes and on how much of them there is. */
  lemma ReadsConfined(bigEndian: bool, blocklist: Blocklist, ctx: XdpContext, ctx': XdpContext)
    requires || ctx.packet == ctx'.packet
             || (|ctx.packet| >= 34 && |ctx'.packet| >= 34 && ctx.packet[..34] == ctx'.packet[..34])
    ensures XdpFirewall(bigEndian, blocklist, ctx) == XdpFirewall(bigEndian, blocklist, ctx')
  {
    var p, p' := ctx.packet, ctx'.packet;
    VerdictOnWire(bigEndian, blocklist, ctx.data, p);
    VerdictOnWire(bigEndian, blocklist, ctx'.data, p');
    if p != p' {
      forall k | 0 <= k < 34 ensures p[k] == p'[k] {
        assert p[..34][k] == p'[..34][k];
      }
    }
  }

  /** Bytes after the ones inspected change nothing: a verdict other than ABORTED is final. */
  lemma PrefixStable(bigEndian: bool, blocklist: Blocklist, data: nat, p: Packet, more: seq<u8>)
    requires XdpFirewall(bigEndian, blocklist, XdpContext(data, p)) != 0
    ensures XdpFirewall(bigEndian, blocklist, XdpContext(data, p + more))
         == XdpFirewall(bigEndian, blocklist, XdpContext(data, p))
  {
    VerdictOnWire(bigEndian, blocklist, data, p);
    VerdictOnWire(bigEndian, blocklist, data, p + more);
  }
}
