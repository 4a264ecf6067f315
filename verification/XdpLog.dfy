/** The XDP program that logs the source address and port of TCP and UDP frames, and a specification
    parser for the same frames that reads the header length and the fragment offset. */
module XdpLog {
  import opened BinaryNumbers
  import opened MachineWords
  import opened Options
  import opened ByteOrder
  import opened IpHeader
  import opened Packets

  /** What the program writes to its log. */
  datatype LogLine = LogLine(sourceAddr: u32, sourcePort: u16)

  datatype Effect = Effect(ret: u32, log: Option<LogLine>)

  /** `try_xdp_firewall`; an `Err` return has no effect but itself. */
  function TryXdpFirewall(bigEndian: bool, ctx: XdpContext): Option<Effect> {
    match PtrAt(ctx, 0, ETH_HDR_LEN)
    case None => None
    case Some(ethhdr) =>
      if !EtherTypeIsIpv4(bigEndian, Deref(ctx, ethhdr + ETHER_TYPE, 2)) then Some(Effect(XDP_PASS, None))
      else
        match PtrAt(ctx, ETH_HDR_LEN, IPV4_HDR_LEN)
        case None => None
        case Some(ipv4hdr) =>
          var sourceAddr := SourceAddr(bigEndian, ctx, ipv4hdr);
          var sourcePort := SourcePort(bigEndian, ctx, Deref(ctx, ipv4hdr + IPV4_PROTO, 1)[0]);
          LogSource(sourceAddr, sourcePort)
  }

  /** The log line and the return, unless the match on the protocol returned an error. */
  function LogSource(sourceAddr: u32, sourcePort: Option<u16>): Option<Effect> {
    match sourcePort
    case None => None
    case Some(port) => Some(Effect(XDP_PASS, Some(LogLine(sourceAddr, port))))
  }

  function SourceAddr(bigEndian: bool, ctx: XdpContext, ipv4hdr: nat): u32
    requires ctx.data <= ipv4hdr && ipv4hdr + IPV4_HDR_LEN <= ctx.DataEnd()
  {
    FromBe32(bigEndian, Native32(bigEndian, Deref(ctx, ipv4hdr + IPV4_SRC, 4)))
  }

  /** The match on the protocol. Both header structs start with the source port. */
  function SourcePort(bigEndian: bool, ctx: XdpContext, proto: u8): Option<u16> {
    if proto == IPPROTO_TCP then
      match PtrAt(ctx, ETH_HDR_LEN + IPV4_HDR_LEN, TCP_HDR_LEN)
      case None => None
      case Some(tcphdr) => Some(FromBe16(bigEndian, Native16(bigEndian, Deref(ctx, tcphdr, 2))))
    else if proto == IPPROTO_UDP then
      match PtrAt(ctx, ETH_HDR_LEN + IPV4_HDR_LEN, UDP_HDR_LEN)
      case None => None
      case Some(udphdr) => Some(FromBe16(bigEndian, Native16(bigEndian, Deref(ctx, udphdr, 2))))
    else None
  }

  function XdpFirewall(bigEndian: bool, ctx: XdpContext): Effect {
    match TryXdpFirewall(bigEndian, ctx)
    case Some(effect) => effect
    case None => Effect(XDP_ABORTED, None)
  }

  lemma PortOnWire(bigEndian: bool, data: nat, p: Packet, proto: u8)
    ensures SourcePort(bigEndian, XdpContext(data, p), proto)
         == if (|p| >= 54 && proto == 6) || (|p| >= 42 && proto == 17)
            then Some(0x100 * (p[34] as nat) + p[35] as nat)
            else None
  {
    if |p| >= 36 {
      FromBeOfLoad16(bigEndian, Bytes(p, 34, 2));
      assert Bytes(p, 34, 2) == [p[34], p[35]];
    }
  }

  /** The effect in terms of the bytes on the wire: 0 is ABORTED and 2 is PASS, 6 is TCP and 17 is UDP. */
  lemma EffectOnWire(bigEndian: bool, data: nat, p: Packet)
    ensures XdpFirewall(bigEndian, XdpContext(data, p))
         == if |p| < 14 then Effect(0, None)
            else if p[12] != 0x08 || p[13] != 0x00 then Effect(2, None)
            else if (|p| >= 54 && p[23] == 6) || (|p| >= 42 && p[23] == 17) then
              Effect(2, Some(LogLine(Base256(p[26], p[27], p[28], p[29]), 0x100 * (p[34] as nat) + p[35] as nat)))
            else Effect(0, None)
  {
    if |p| >= 34 && p[12] == 0x08 && p[13] == 0x00 {
      Ipv4OnWire(bigEndian, data, p);
      AddressOnWire(bigEndian, data, p);
      PortOnWire(bigEndian, data, p, p[23]);
      LogOnWire(p, SourceAddr(bigEndian, XdpContext(data, p), data + 14),
                SourcePort(bigEndian, XdpContext(data, p), p[23]));
    } else {
      OtherOnWire(bigEndian, data, p);
    }
  }

  lemma OtherOnWire(bigEndian: bool, data: nat, p: Packet)
    requires !(|p| >= 34 && p[12] == 0x08 && p[13] == 0x00)
    ensures TryXdpFirewall(bigEndian, XdpContext(data, p))
         == if |p| >= 14 && (p[12] != 0x08 || p[13] != 0x00) then Some(Effect(2, None)) else None
  {
    if |p| >= 14 {
      EtherTypeOnWire(bigEndian, Bytes(p, 12, 2));
      assert Bytes(p, 12, 2) == [p[12], p[13]];
    }
  }

  lemma LogOnWire(p: Packet, sourceAddr: u32, sourcePort: Option<u16>)
    requires |p| >= 34 && sourceAddr == Base256(p[26], p[27], p[28], p[29])
    requires sourcePort == if (|p| >= 54 && p[23] == 6) || (|p| >= 42 && p[23] == 17)
                           then Some(0x100 * (p[34] as nat) + p[35] as nat) else None
    ensures LogSource(sourceAddr, sourcePort)
         == if (|p| >= 54 && p[23] == 6) || (|p| >= 42 && p[23] == 17) then
              Some(Effect(2, Some(LogLine(Base256(p[26], p[27], p[28], p[29]), 0x100 * (p[34] as nat) + p[35] as nat))))
            else None
  {}

  lemma Ipv4OnWire(bigEndian: bool, data: nat, p: Packet)
    requires |p| >= 34 && p[12] == 0x08 && p[13] == 0x00
    ensures TryXdpFirewall(bigEndian, XdpContext(data, p))
         == LogSource(SourceAddr(bigEndian, XdpContext(data, p), data + 14),
                      SourcePort(bigEndian, XdpContext(data, p), p[23]))
  {
    var ctx := XdpContext(data, p);
    assert Deref(ctx, data + 12, 2) == [p[12], p[13]];
    EtherTypeOnWire(bigEndian, Deref(ctx, data + 12, 2));
    assert Deref(ctx, data + 14 + 9, 1) == [p[23]];
  }

  lemma AddressOnWire(bigEndian: bool, data: nat, p: Packet)
    requires |p| >= 34
    ensures SourceAddr(bigEndian, XdpContext(data, p), data + 14) == Base256(p[26], p[27], p[28], p[29])
  {
    FromBeOfLoad32(bigEndian, Bytes(p, 26, 4));
    assert Bytes(p, 26, 4) == [p[26], p[27], p[28], p[29]];
  }

  /** The effect as a function of the bytes alone. */
  function WireEffect(p: Packet): Effect {
    if |p| < 14 then Effect(0, None)
    else if p[12] != 0x08 || p[13] != 0x00 then Effect(2, None)
    else if (|p| >= 54 && p[23] == 6) || (|p| >= 42 && p[23] == 17) then
      Effect(2, Some(LogLine(Base256(p[26], p[27], p[28], p[29]), 0x100 * (p[34] as nat) + p[35] as nat)))
    else Effect(0, None)
  }

  lemma EffectIsWireEffect(bigEndian: bool, data: nat, p: Packet)
    ensures XdpFirewall(bigEndian, XdpContext(data, p)) == WireEffect(p)
  {
    EffectOnWire(bigEndian, data, p);
  }

  /** A frame passes exactly when it is long enough and either not IPv4, or TCP with 54 bytes, or UDP
      with 42. */
  lemma PassesExactly(bigEndian: bool, data: nat, p: Packet)
    ensures XdpFirewall(bigEndian, XdpContext(data, p)).ret == 2
       <==> && |p| >= 14
            && (p[12] == 0x08 && p[13] == 0x00 ==>
                  (|p| >= 54 && p[23] == 6) || (|p| >= 42 && p[23] == 17))
  {
    EffectOnWire(bigEndian, data, p);
  }

  /** The header length in bytes: four times the low nibble of the first header byte. */
  function HeaderLength(p: Packet): nat
    requires |p| >= 34
  {
    4 * (p[14] % 16)
  }

  /** The low 13 bits of the flags-and-offset field: where in the datagram this fragment belongs. */
  function FragmentOffset(p: Packet): nat
    requires |p| >= 34
  {
    Base256(0, 0, p[20], p[21]) % 0x2000
  }

  /** The two are what the bindings hold: four times `ihl()`, on the targets where that accessor reads
      the low nibble, and the low bits of `frag_off`, field 5 of the struct. */
  lemma HeaderFields(bigEndian: bool, p: Packet)
    requires |p| >= 34
    ensures HeaderLength(p) == 4 * IhlOf(false, [p[14]])
    ensures OffsetOf(IPHDR, 5) == 6
    ensures FragmentOffset(p) == FromBe16(bigEndian, Native16(bigEndian, p[14 + 6..14 + 8])) % 0x2000
    ensures FragmentOffset(p) == 0 <==> p[20] % 0x20 == 0 && p[21] == 0
  {
    AccessorsReadNibbles(false, p[14]);
    IphdrOffsets();
    FromBeOfLoad16(bigEndian, p[20..22]);
    FragmentZero(p);
  }

  lemma LowThirteenBits(high: u8, low: u8)
    ensures Base256(0, 0, high, low) % 0x2000 == Base256(0, 0, high % 0x20, low)
  {
    DivModUnique(Base256(0, 0, high % 0x20, low), 0x2000, high / 0x20);
    assert high as nat == 0x20 * ((high / 0x20) as nat) + high % 0x20;
  }

  datatype Parsed = NotIpv4 | Rejected | Transport(source: Ipv4Addr, port: u16)

  /** Section 3.1 of RFC 791: the options make the header longer than 20 bytes, and only the first
      fragment carries the transport header. */
  function SpecParse(p: Packet): Parsed {
    if |p| < 14 then Rejected
    else if !IsIpv4Frame(p) then NotIpv4
    else if |p| < 34 || HeaderLength(p) < 20 || FragmentOffset(p) != 0 then Rejected
    else
      var at := 14 + HeaderLength(p);
      if (p[23] == IPPROTO_TCP && |p| >= at + TCP_HDR_LEN) || (p[23] == IPPROTO_UDP && |p| >= at + UDP_HDR_LEN)
      then Transport(Ipv4Addr(p[26], p[27], p[28], p[29]), Base256(0, 0, p[at], p[at + 1]))
      else Rejected
  }

  function SpecEffect(parsed: Parsed): Effect {
    match parsed
    case NotIpv4 => Effect(XDP_PASS, None)
    case Rejected => Effect(XDP_ABORTED, None)
    case Transport(source, port) => Effect(XDP_PASS, Some(LogLine(ToU32(source), port)))
  }

  predicate Agrees(bigEndian: bool, ctx: XdpContext) {
    XdpFirewall(bigEndian, ctx) == SpecEffect(SpecParse(ctx.packet))
  }

  predicate WireAgrees(p: Packet) {
    WireEffect(p) == SpecEffect(SpecParse(p))
  }

  lemma WireAgreesExactly(p: Packet)
    ensures WireAgrees(p)
       <==> || |p| < 42 || p[12] != 0x08 || p[13] != 0x00
            || !((|p| >= 54 && p[23] == 6) || p[23] == 17)
            || (p[20] % 0x20 == 0 && p[21] == 0 && p[14] % 16 == 5)
            || (p[20] % 0x20 == 0 && p[21] == 0 && p[14] % 16 > 5
                && |p| >= 14 + 4 * (p[14] % 16) + (if p[23] == 6 then 20 else 8)
                && p[34] == p[14 + 4 * (p[14] % 16)] && p[35] == p[14 + 4 * (p[14] % 16) + 1])
  {
    if |p| >= 42 {
      FragmentZero(p);
      var at := 14 + 4 * (p[14] % 16);
      if |p| >= at + 2 {
        SamePort(p[34], p[35], p[at], p[at + 1]);
      }
    }
  }

  lemma FragmentZero(p: Packet)
    requires |p| >= 34
    ensures FragmentOffset(p) == 0 <==> p[20] % 0x20 == 0 && p[21] == 0
  {
    LowThirteenBits(p[20], p[21]);
  }

  lemma SamePort(a: u8, b: u8, c: u8, d: u8)
    ensures 0x100 * (a as nat) + b as nat == Base256(0, 0, c, d) <==> a == c && b == d
  {}

  /** The program agrees with the specification on a frame exactly when it reads no port there, or
      `ihl()` is 5 and the fragment offset 0, or the transport header is complete behind options that
      happen to start with the bytes of its port. */
  lemma AgreesOnFrameExactly(bigEndian: bool, data: nat, p: Packet)
    ensures Agrees(bigEndian, XdpContext(data, p))
       <==> || |p| < 42 || p[12] != 0x08 || p[13] != 0x00
            || !((|p| >= 54 && p[23] == 6) || p[23] == 17)
            || (p[20] % 0x20 == 0 && p[21] == 0 && IhlOf(false, [p[14]]) == 5)
            || (p[20] % 0x20 == 0 && p[21] == 0 && p[14] % 16 > 5
                && |p| >= 14 + 4 * (p[14] % 16) + (if p[23] == 6 then 20 else 8)
                && p[34] == p[14 + 4 * (p[14] % 16)] && p[35] == p[14 + 4 * (p[14] % 16) + 1])
  {
    EffectIsWireEffect(bigEndian, data, p);
    WireAgreesExactly(p);
    if |p| >= 34 {
      AccessorsReadNibbles(false, p[14]);
    }
  }

  lemma WireAgreesWhenPlain(headers: Packet, payload: seq<u8>)
    requires |headers| == 34
    requires headers[12] == 0x08 && headers[13] == 0x00 && (headers[23] == 6 || headers[23] == 17) ==>
               headers[14] % 16 == 5 && headers[20] % 0x20 == 0 && headers[21] == 0
    ensures WireAgrees(headers + payload)
  {
    WireAgreesExactly(headers + payload);
  }

  lemma WireDisagrees(headers: Packet, payload: seq<u8>)
    requires |headers| == 34 && |payload| == if headers[23] == 6 then 20 else 8
    requires headers[12] == 0x08 && headers[13] == 0x00 && (headers[23] == 6 || headers[23] == 17)
    requires !(headers[14] % 16 == 5 && headers[20] % 0x20 == 0 && headers[21] == 0)
    ensures !WireAgrees(headers + payload)
  {
    WireAgreesExactly(headers + payload);
  }

  /** For any 34 bytes of headers, the program agrees with the specification whatever follows them
      exactly when they are not those of an IPv4 packet with TCP or UDP, or `ihl()` is 5 and the
      fragment offset 0. */
  lemma AgreesExactly(bigEndian: bool, data: nat, headers: Packet)
    requires |headers| == 34
    ensures (forall payload: seq<u8> :: Agrees(bigEndian, XdpContext(data, headers + payload)))
       <==> (headers[12] == 0x08 && headers[13] == 0x00 && (headers[23] == 6 || headers[23] == 17) ==>
               IhlOf(false, [headers[14]]) == 5 && headers[20] % 0x20 == 0 && headers[21] == 0)
  {
    AccessorsReadNibbles(false, headers[14]);
    if headers[12] == 0x08 && headers[13] == 0x00 && (headers[23] == 6 || headers[23] == 17) ==>
         headers[14] % 16 == 5 && headers[20] % 0x20 == 0 && headers[21] == 0 {
      forall payload: seq<u8> ensures Agrees(bigEndian, XdpContext(data, headers + payload)) {
        EffectIsWireEffect(bigEndian, data, headers + payload);
        WireAgreesWhenPlain(headers, payload);
      }
    } else {
      var payload := seq(if headers[23] == 6 then 20 else 8, _ => 0);
      EffectIsWireEffect(bigEndian, data, headers + payload);
      WireDisagrees(headers, payload);
      assert !Agrees(bigEndian, XdpContext(data, headers + payload));
    }
  }

  /** Behind options the program logs the first two option bytes as the port, where the port is in the
      first two bytes after the options. It is right exactly when they are equal. */
  lemma PortBehindOptions(bigEndian: bool, data: nat, p: Packet, at: nat)
    requires |p| >= 34 && p[12] == 0x08 && p[13] == 0x00 && p[20] % 0x20 == 0 && p[21] == 0
    requires at == 14 + 4 * (p[14] % 16) && at > 34
    requires (p[23] == 6 && |p| >= at + 20) || (p[23] == 17 && |p| >= at + 8)
    ensures XdpFirewall(bigEndian, XdpContext(data, p))
         == Effect(2, Some(LogLine(Base256(p[26], p[27], p[28], p[29]), 0x100 * (p[34] as nat) + p[35] as nat)))
    ensures SpecParse(p)
         == Transport(Ipv4Addr(p[26], p[27], p[28], p[29]), 0x100 * (p[at] as nat) + p[at + 1] as nat)
    ensures Agrees(bigEndian, XdpContext(data, p)) <==> p[34] == p[at] && p[35] == p[at + 1]
  {
    EffectOnWire(bigEndian, data, p);
    HeaderFields(bigEndian, p);
    AgreesOnFrameExactly(bigEndian, data, p);
  }

  lemma WireEffectConfined(p: Packet, p': Packet)
    requires |p| >= 54 && |p'| >= 54 && p[..54] == p'[..54]
    ensures WireEffect(p) == WireEffect(p')
  {
    forall k | 0 <= k < 54 ensures p[k] == p'[k] {
      assert p[..54][k] == p'[..54][k];
    }
  }

  lemma WireEffectStable(p: Packet, more: seq<u8>)
    requires WireEffect(p).ret != 0
    ensures WireEffect(p + more) == WireEffect(p)
  {}

  /** The effect depends only on the first 54 bytes and on how much of them there is. */
  lemma ReadsConfined(bigEndian: bool, ctx: XdpContext, ctx': XdpContext)
    requires || ctx.packet == ctx'.packet
             || (|ctx.packet| >= 54 && |ctx'.packet| >= 54 && ctx.packet[..54] == ctx'.packet[..54])
    ensures XdpFirewall(bigEndian, ctx) == XdpFirewall(bigEndian, ctx')
  {
    EffectIsWireEffect(bigEndian, ctx.data, ctx.packet);
    EffectIsWireEffect(bigEndian, ctx'.data, ctx'.packet);
    if ctx.packet != ctx'.packet {
      WireEffectConfined(ctx.packet, ctx'.packet);
    }
  }

  /** Bytes after the ones inspected change nothing: neither a verdict other than ABORTED nor its log. */
  lemma PrefixStable(bigEndian: bool, data: nat, p: Packet, more: seq<u8>)
    requires XdpFirewall(bigEndian, XdpContext(data, p)).ret != 0
    ensures XdpFirewall(bigEndian, XdpContext(data, p + more)) == XdpFirewall(bigEndian, XdpContext(data, p))
  {
    EffectIsWireEffect(bigEndian, data, p);
    EffectIsWireEffect(bigEndian, data, p + more);
    WireEffectStable(p, more);
  }
}
