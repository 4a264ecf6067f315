/** Packets and the two ways in which the programs read them: through a bounds-checked pointer (XDP)
    and through a copying load (TC and cgroup).

    The header structs come from the `network_types` crate, which is not part of this model; their
    sizes and field offsets are those of IEEE 802.3 frames, section 3.1 of RFC 791, section 3.1 of
    RFC 9293 and RFC 768. */
module Packets {
  import opened MachineWords
  import opened Options
  import opened ByteOrder

  const ETH_HDR_LEN := 14
  const ETHER_TYPE := 12
  const IPV4_HDR_LEN := 20
  const IPV4_PROTO := 9
  const IPV4_SRC := 12
  const IPV4_DST := 16
  const TCP_HDR_LEN := 20
  const UDP_HDR_LEN := 8
  const IPPROTO_TCP: u8 := 6
  const IPPROTO_UDP: u8 := 17

  const XDP_ABORTED: u32 := 0
  const XDP_DROP: u32 := 1
  const XDP_PASS: u32 := 2

  type Packet = seq<u8>

  type Blocklist = map<u32, u32>

  function Bytes(p: Packet, offset: nat, len: nat): (s: seq<u8>)
    requires offset + len <= |p|
    ensures |s| == len
  {
    p[offset..offset + len]
  }

  /** The packet of an XDP program: its bytes lie at `data` to `data_end` in memory. */
  datatype XdpContext = XdpContext(data: nat, packet: Packet) {
    function DataEnd(): nat {
      data + |packet|
    }
  }

  /** `ptr_at`: an address, if the `len` bytes from it on are in the packet. */
  function PtrAt(ctx: XdpContext, offset: nat, len: nat): (r: Option<nat>)
    ensures r.Some? <==> offset + len <= |ctx.packet|
    ensures r.Some? ==> ctx.data <= r.value && r.value + len <= ctx.DataEnd()
  {
    var start := ctx.data;
    var end := ctx.DataEnd();
    if start + offset + len > end then None else Some(start + offset)
  }

  /** The memory behind a pointer into the packet. */
  function Deref(ctx: XdpContext, ptr: nat, len: nat): (s: seq<u8>)
    requires ctx.data <= ptr && ptr + len <= ctx.DataEnd()
    ensures |s| == len
  {
    Bytes(ctx.packet, ptr - ctx.data, len)
  }

  /** `ctx.load`: a copy of `len` bytes, failing when they are not all in the packet. */
  function Load(p: Packet, offset: nat, len: nat): (r: Option<seq<u8>>)
    ensures r.Some? <==> offset + len <= |p|
    ensures r.Some? ==> r.value == Bytes(p, offset, len)
  {
    if offset + len <= |p| then Some(Bytes(p, offset, len)) else None
  }

  /** The match on `ether_type`: the stored value against `0x0800` in network order. A type that the
      enum does not list takes the other arm. */
  predicate EtherTypeIsIpv4(bigEndian: bool, stored: seq<u8>)
    requires |stored| == 2
  {
    Native16(bigEndian, stored) == FromBe16(bigEndian, 0x0800)
  }

  /** The comparison in native order amounts to the two bytes on the wire. */
  lemma EtherTypeOnWire(bigEndian: bool, stored: seq<u8>)
    requires |stored| == 2
    ensures EtherTypeIsIpv4(bigEndian, stored) <==> stored == [0x08, 0x00]
  {
    NumberOf2(stored);
  }

  /** Whether a frame announces IPv4, on the wire. */
  predicate IsIpv4Frame(p: Packet) {
    |p| >= ETH_HDR_LEN && p[ETHER_TYPE] == 0x08 && p[ETHER_TYPE + 1] == 0x00
  }
}
