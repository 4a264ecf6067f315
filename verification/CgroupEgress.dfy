/** The cgroup program that drops outgoing IPv4 packets by destination and reports each decision to
    user space through a perf event array, taken here as a lossless append-only log. */
module CgroupEgress {
  import opened MachineWords
  import opened Options
  import opened ByteOrder
  import opened IpHeader
  import opened Packets
  import opened BlocklistMap

  const ETH_P_IP: u32 := 8

  /** `PacketLog`: `#[repr(C)]`, two 4-byte fields, no padding. */
  datatype PacketLog = PacketLog(ipv4Address: u32, action: i32)

  function AsUnsigned(x: i32): u32 {
    if x < 0 then x + 0x1_0000_0000 else x
  }

  function AsSigned(x: u32): i32 {
    if x >= 0x8000_0000 then x - 0x1_0000_0000 else x
  }

  /** The bytes of a record as `EVENTS.output` hands them over. */
  function Encode(bigEndian: bool, entry: PacketLog): (record: seq<u8>)
    ensures |record| == 8
  {
    NativeBytes(bigEndian, entry.ipv4Address, 4) + NativeBytes(bigEndian, AsUnsigned(entry.action), 4)
  }

  /** What user space prints of an event. */
  datatype LogLine = LogLine(destination: Ipv4Addr, action: i32)

  /** User space reads a record unaligned from the start of a buffer that may be longer. */
  function Decode(bigEndian: bool, buffer: seq<u8>): LogLine
    requires |buffer| >= 8
  {
    LogLine(FromU32(Native32(bigEndian, buffer[..4])), AsSigned(Native32(bigEndian, buffer[4..8])))
  }

  /** The layout of a record: the address in its first four bytes, the action in two's complement in the
      next four, both in native order. */
  lemma RecordLayout(bigEndian: bool, entry: PacketLog)
    ensures Native32(bigEndian, Encode(bigEndian, entry)[..4]) == entry.ipv4Address
    ensures Native32(bigEndian, Encode(bigEndian, entry)[4..])
         == if entry.action < 0 then entry.action + 0x1_0000_0000 else entry.action
  {
    assert Encode(bigEndian, entry)[..4] == NativeBytes(bigEndian, entry.ipv4Address, 4);
    assert Encode(bigEndian, entry)[4..] == NativeBytes(bigEndian, AsUnsigned(entry.action), 4);
    NativeRoundTrip(bigEndian, entry.ipv4Address);
    NativeRoundTrip(bigEndian, AsUnsigned(entry.action));
  }

  lemma DecodeOfEncode(bigEndian: bool, entry: PacketLog, padding: seq<u8>)
    ensures Decode(bigEndian, Encode(bigEndian, entry) + padding)
         == LogLine(FromU32(entry.ipv4Address), entry.action)
  {
    var buffer := Encode(bigEndian, entry) + padding;
    assert buffer[..4] == NativeBytes(bigEndian, entry.ipv4Address, 4);
    assert buffer[4..8] == NativeBytes(bigEndian, AsUnsigned(entry.action), 4);
    NativeRoundTrip(bigEndian, entry.ipv4Address);
    NativeRoundTrip(bigEndian, AsUnsigned(entry.action));
  }

  /** An outgoing packet without its Ethernet header; `protocol` is the ethertype as the kernel keeps
      it, two bytes in network order read as a native number. */
  datatype Egress = Egress(protocol: u32, packet: Packet)

  /** 1 lets a packet through, 0 drops it. Other protocols pass, and an unreadable header does not. */
  function Verdict(blocklist: Blocklist, e: Egress): i32 {
    if e.protocol != 8 then 1
    else if |e.packet| < 20 then 0
    else if Base256(e.packet[16], e.packet[17], e.packet[18], e.packet[19]) in blocklist then 0
    else 1
  }

  /** The records that one packet adds to the log. */
  function Emitted(bigEndian: bool, blocklist: Blocklist, e: Egress): seq<seq<u8>> {
    if e.protocol == 8 && |e.packet| >= 20 then
      var destination := Base256(e.packet[16], e.packet[17], e.packet[18], e.packet[19]);
      [Encode(bigEndian, PacketLog(destination, Verdict(blocklist, e)))]
    else []
  }

  class EgressProgram {
    const bigEndian: bool
    var blocklist: Blocklist
    var events: seq<seq<u8>>

    constructor (bigEndian: bool)
      ensures this.bigEndian == bigEndian && blocklist == map[] && events == []
    {
      this.bigEndian := bigEndian;
      blocklist, events := map[], [];
    }

    /** `blocklist.insert` from user space. */
    method UserSpaceInsert(addr: Ipv4Addr, accepts: bool) returns (ok: bool)
      modifies this`blocklist
      ensures ok <==> accepts && (ToU32(addr) in old(blocklist) || |old(blocklist)| < 1024)
      ensures blocklist == Insert(old(blocklist), addr, accepts)
      ensures forall a: Ipv4Addr ::
                ToU32(a) in blocklist <==> ToU32(a) in old(blocklist) || (ok && a == addr)
      ensures |old(blocklist)| <= 1024 ==> |blocklist| <= 1024
    {
      ok := accepts && (ToU32(addr) in blocklist || |blocklist| < MAX_ENTRIES);
      if ok {
        blocklist := blocklist[ToU32(addr) := 0];
      }
      forall a: Ipv4Addr | ToU32(a) == ToU32(addr) ensures a == addr {
        ToU32Injective(a, addr);
      }
    }

    predicate BlockIp(address: u32)
      reads this`blocklist
    {
      address in blocklist
    }

    method TryCgroupSkbEgress(e: Egress) returns (r: Option<i32>)
      modifies this`events
      ensures r == if e.protocol == 8 && |e.packet| < 20 then None else Some(Verdict(blocklist, e))
      ensures events == old(events) + Emitted(bigEndian, blocklist, e)
      ensures |events| == |old(events)| + if e.protocol == 8 && |e.packet| >= 20 then 1 else 0
    {
      if e.protocol != ETH_P_IP {
        return Some(1);
      }
      IphdrOffsets();
      var loaded := Load(e.packet, OffsetOf(IPHDR, DADDR), 4);
      if loaded.None? {
        return None;
      }
      var destination := FromBe32(bigEndian, Native32(bigEndian, loaded.value));
      FromBeOfLoad32(bigEndian, loaded.value);
      var action: i32 := if BlockIp(destination) then 0 else 1;
      var logEntry := PacketLog(destination, action);
      events := events + [Encode(bigEndian, logEntry)];
      return Some(action);
    }

    method CgroupSkbEgress(e: Egress) returns (ret: i32)
      modifies this`events
      ensures ret == Verdict(blocklist, e)
      ensures ret == 0 || ret == 1
      ensures ret == 1
         <==> || e.protocol != 8
              || (|e.packet| >= 20
                  && Base256(e.packet[16], e.packet[17], e.packet[18], e.packet[19]) !in blocklist)
      ensures events == old(events) + Emitted(bigEndian, blocklist, e)
      ensures |events| == |old(events)| + if e.protocol == 8 && |e.packet| >= 20 then 1 else 0
    {
      var r := TryCgroupSkbEgress(e);
      ret := if r.Some? then r.value else 0;
    }
  }

  /** The log after a run that interleaves inserts and packets. */
  function EventsAfter(bigEndian: bool, steps: seq<Step<Egress>>): seq<seq<u8>> {
    if steps == [] then []
    else
      var n := |steps| - 1;
      var before := EventsAfter(bigEndian, steps[..n]);
      match steps[n]
      case UserInsert(_, _) => before
      case Arrival(e) => before + Emitted(bigEndian, BlocklistAfter(steps[..n]), e)
  }

  /** What the log should say, without addresses as numbers, maps or record layouts: for each IPv4
      packet with a whole header, in order, the destination octets and whether they had been inserted
      by then. */
  ghost function Decisions(steps: seq<Step<Egress>>): seq<LogLine> {
    if steps == [] then []
    else
      var n := |steps| - 1;
      var before := Decisions(steps[..n]);
      if steps[n].Arrival? && steps[n].packet.protocol == 8 && |steps[n].packet.packet| >= 20 then
        before + [DecisionAt(steps, n)]
      else before
  }

  ghost function DecisionAt(steps: seq<Step<Egress>>, i: nat): LogLine
    requires i < |steps| && steps[i].Arrival? && |steps[i].packet.packet| >= 20
  {
    var p := steps[i].packet.packet;
    var destination := Ipv4Addr(p[16], p[17], p[18], p[19]);
    LogLine(destination, if exists j :: 0 <= j < i && Inserted(steps, j, destination) then 0 else 1)
  }

  /** A decision does not depend on what happens after it. */
  lemma DecisionEarlier(steps: seq<Step<Egress>>, n: nat, i: nat)
    requires i < n <= |steps| && steps[i].Arrival? && |steps[i].packet.packet| >= 20
    ensures DecisionAt(steps[..n], i) == DecisionAt(steps, i)
  {
    var destination := DecisionAt(steps, i).destination;
    forall j | 0 <= j < i ensures Inserted(steps[..n], j, destination) <==> Inserted(steps, j, destination) {
      InsertedEarlier(steps, n, j, destination);
    }
  }

  /** A packet's verdict over a run, by its octets: it passes exactly when it is not IPv4, or has a whole
      header and a destination not inserted by then. */
  lemma VerdictInRun(steps: seq<Step<Egress>>, i: nat, e: Egress)
    requires i < |steps| && steps[i] == Arrival(e)
    ensures Verdict(BlocklistAfter(steps[..i]), e)
         == if || e.protocol != 8
               || (|e.packet| >= 20
                   && !exists j :: 0 <= j < i
                        && Inserted(steps, j, Ipv4Addr(e.packet[16], e.packet[17], e.packet[18], e.packet[19])))
            then 1 else 0
  {
    if |e.packet| >= 20 {
      var destination := Ipv4Addr(e.packet[16], e.packet[17], e.packet[18], e.packet[19]);
      LookupExact(steps[..i], destination);
      forall j | 0 <= j < i ensures Inserted(steps[..i], j, destination) <==> Inserted(steps, j, destination) {
        InsertedEarlier(steps, i, j, destination);
      }
    }
  }

  /** Whether the records decode to the lines, one for one. */
  ghost predicate Decodes(bigEndian: bool, events: seq<seq<u8>>, lines: seq<LogLine>) {
    && |events| == |lines|
    && forall i :: 0 <= i < |events| ==> |events[i]| == 8 && Decode(bigEndian, events[i]) == lines[i]
  }

  lemma DecodesAppend(bigEndian: bool, events: seq<seq<u8>>, lines: seq<LogLine>, record: seq<u8>, line: LogLine)
    requires Decodes(bigEndian, events, lines) && |record| == 8 && Decode(bigEndian, record) == line
    ensures Decodes(bigEndian, events + [record], lines + [line])
  {}

  /** Every record of the log decodes to its decision, and there are no others. */
  lemma {:induction false} EventsDecode(bigEndian: bool, steps: seq<Step<Egress>>)
    ensures Decodes(bigEndian, EventsAfter(bigEndian, steps), Decisions(steps))
  {
    if steps != [] {
      var n := |steps| - 1;
      EventsDecode(bigEndian, steps[..n]);
      if steps[n].Arrival? && steps[n].packet.protocol == 8 && |steps[n].packet.packet| >= 20 {
        var emitted := Emitted(bigEndian, BlocklistAfter(steps[..n]), steps[n].packet);
        EmittedDecodes(bigEndian, steps, n, steps[n].packet);
        DecodesAppend(bigEndian, EventsAfter(bigEndian, steps[..n]), Decisions(steps[..n]), emitted[0], DecisionAt(steps, n));
        assert emitted == [emitted[0]];
      } else {
        assert EventsAfter(bigEndian, steps) == EventsAfter(bigEndian, steps[..n]);
      }
    }
  }

  lemma RecordOfAddr(bigEndian: bool, addr: Ipv4Addr, action: i32)
    ensures Decode(bigEndian, Encode(bigEndian, PacketLog(ToU32(addr), action))) == LogLine(addr, action)
  {
    var record := Encode(bigEndian, PacketLog(ToU32(addr), action));
    DecodeOfEncode(bigEndian, PacketLog(ToU32(addr), action), []);
    assert record + [] == record;
    AddrRoundTrip(addr);
  }

  lemma EmittedDecodes(bigEndian: bool, steps: seq<Step<Egress>>, i: nat, e: Egress)
    requires i < |steps| && steps[i] == Arrival(e) && e.protocol == 8 && |e.packet| >= 20
    ensures var emitted := Emitted(bigEndian, BlocklistAfter(steps[..i]), e);
            |emitted| == 1 && |emitted[0]| == 8 && Decode(bigEndian, emitted[0]) == DecisionAt(steps, i)
  {
    VerdictInRun(steps, i, e);
    RecordOfAddr(bigEndian, Ipv4Addr(e.packet[16], e.packet[17], e.packet[18], e.packet[19]),
                 Verdict(BlocklistAfter(steps[..i]), e));
  }

  /** Whether `origins` are, in order, all the steps that decide an IPv4 packet with a whole header. */
  ghost predicate AreOrigins(steps: seq<Step<Egress>>, origins: seq<nat>) {
    && (forall j, k :: 0 <= j < k < |origins| ==> origins[j] < origins[k])
    && (forall i :: i in origins <==>
          0 <= i < |steps| && steps[i].Arrival? && steps[i].packet.protocol == 8 && |steps[i].packet.packet| >= 20)
  }

  ghost function OriginsOf(steps: seq<Step<Egress>>): seq<nat> {
    if steps == [] then []
    else
      var n := |steps| - 1;
      var earlier := OriginsOf(steps[..n]);
      if steps[n].Arrival? && steps[n].packet.protocol == 8 && |steps[n].packet.packet| >= 20 then earlier + [n]
      else earlier
  }

  lemma {:induction false} OriginsExact(steps: seq<Step<Egress>>)
    ensures AreOrigins(steps, OriginsOf(steps))
  {
    if steps != [] {
      OriginsExact(steps[..|steps| - 1]);
      OriginsStep(steps, OriginsOf(steps[..|steps| - 1]), OriginsOf(steps));
    }
  }

  lemma OriginsStep(steps: seq<Step<Egress>>, earlier: seq<nat>, origins: seq<nat>)
    requires steps != [] && AreOrigins(steps[..|steps| - 1], earlier)
    requires var last := steps[|steps| - 1];
             origins == if last.Arrival? && last.packet.protocol == 8 && |last.packet.packet| >= 20
                        then earlier + [|steps| - 1] else earlier
    ensures AreOrigins(steps, origins)
  {
    var n := |steps| - 1;
    forall k | 0 <= k < |earlier| ensures earlier[k] < n {
      assert earlier[k] in earlier;
    }
    forall i ensures i in origins <==>
               0 <= i < |steps| && steps[i].Arrival? && steps[i].packet.protocol == 8 && |steps[i].packet.packet| >= 20
    {
      assert i in earlier <==> 0 <= i < n && steps[..n][i].Arrival? && steps[..n][i].packet.protocol == 8
                               && |steps[..n][i].packet.packet| >= 20;
    }
  }

  /** Whether line `k` is the decision on step `origins[k]`, for every line. */
  ghost predicate LinesFrom(steps: seq<Step<Egress>>, lines: seq<LogLine>, origins: seq<nat>) {
    && |lines| == |origins|
    && forall k :: 0 <= k < |origins| ==>
         && origins[k] < |steps| && steps[origins[k]].Arrival? && |steps[origins[k]].packet.packet| >= 20
         && lines[k] == DecisionAt(steps, origins[k])
  }

  lemma LinesKept(steps: seq<Step<Egress>>, n: nat, lines: seq<LogLine>, origins: seq<nat>)
    requires n <= |steps| && LinesFrom(steps[..n], lines, origins)
    ensures LinesFrom(steps, lines, origins)
  {
    forall k | 0 <= k < |origins| ensures origins[k] < n && lines[k] == DecisionAt(steps, origins[k]) {
      DecisionEarlier(steps, n, origins[k]);
    }
  }

  lemma LinesAppend(steps: seq<Step<Egress>>, lines: seq<LogLine>, origins: seq<nat>, n: nat, line: LogLine)
    requires LinesFrom(steps, lines, origins)
    requires n < |steps| && steps[n].Arrival? && |steps[n].packet.packet| >= 20 && line == DecisionAt(steps, n)
    ensures LinesFrom(steps, lines + [line], origins + [n])
  {}

  lemma LinesGrow(steps: seq<Step<Egress>>, earlier: seq<nat>, origins: seq<nat>)
    requires steps != []
    requires LinesFrom(steps[..|steps| - 1], Decisions(steps[..|steps| - 1]), earlier)
    requires var last := steps[|steps| - 1];
             origins == if last.Arrival? && last.packet.protocol == 8 && |last.packet.packet| >= 20
                        then earlier + [|steps| - 1] else earlier
    ensures LinesFrom(steps, Decisions(steps), origins)
  {
    var n := |steps| - 1;
    LinesKept(steps, n, Decisions(steps[..n]), earlier);
    if steps[n].Arrival? && steps[n].packet.protocol == 8 && |steps[n].packet.packet| >= 20 {
      LinesAppend(steps, Decisions(steps[..n]), earlier, n, DecisionAt(steps, n));
    }
  }

  lemma {:induction false} DecisionsFrom(steps: seq<Step<Egress>>)
    ensures LinesFrom(steps, Decisions(steps), OriginsOf(steps))
  {
    if steps != [] {
      DecisionsFrom(steps[..|steps| - 1]);
      LinesGrow(steps, OriginsOf(steps[..|steps| - 1]), OriginsOf(steps));
    }
  }

  /** The decisions come from the IPv4 packets with a whole header, all of them, in order. */
  lemma DecisionsExact(steps: seq<Step<Egress>>) returns (origins: seq<nat>)
    ensures AreOrigins(steps, origins) && LinesFrom(steps, Decisions(steps), origins)
  {
    origins := OriginsOf(steps);
    OriginsExact(steps);
    DecisionsFrom(steps);
  }

  /** User space prints the first `read` of the buffers that the event array filled. */
  method ReadEvents(bigEndian: bool, buffers: seq<seq<u8>>, read: nat) returns (lines: seq<LogLine>)
    requires forall i :: 0 <= i < |buffers| && i < read ==> |buffers[i]| >= 8
    ensures |lines| == if read < |buffers| then read else |buffers|
    ensures forall i :: 0 <= i < |lines| ==> lines[i] == Decode(bigEndian, buffers[i])
  {
    lines := [];
    var n := if read < |buffers| then read else |buffers|;
    for i := 0 to n
      invariant |lines| == i
      invariant forall j :: 0 <= j < i ==> lines[j] == Decode(bigEndian, buffers[j])
    {
      lines := lines + [Decode(bigEndian, buffers[i])];
    }
  }

  /** What step `i` of a run returns: a verdict, if it is a packet. */
  ghost function VerdictAt(steps: seq<Step<Egress>>, i: nat): Option<i32>
    requires i < |steps|
  {
    match steps[i]
    case UserInsert(_, _) => None
    case Arrival(e) => Some(Verdict(BlocklistAfter(steps[..i]), e))
  }

  ghost predicate AreVerdicts(steps: seq<Step<Egress>>, verdicts: seq<Option<i32>>) {
    && |verdicts| <= |steps|
    && forall i :: 0 <= i < |verdicts| ==> verdicts[i] == VerdictAt(steps, i)
  }

  lemma OneMoreVerdict(steps: seq<Step<Egress>>, verdicts: seq<Option<i32>>, v: Option<i32>)
    requires AreVerdicts(steps, verdicts) && |verdicts| < |steps| && v == VerdictAt(steps, |verdicts|)
    ensures AreVerdicts(steps, verdicts + [v])
  {}

  /** One step of a run. */
  method TakeStep(program: EgressProgram, steps: seq<Step<Egress>>, i: nat) returns (v: Option<i32>)
    requires i < |steps|
    requires program.blocklist == BlocklistAfter(steps[..i])
    requires program.events == EventsAfter(program.bigEndian, steps[..i])
    modifies program
    ensures program.blocklist == BlocklistAfter(steps[..i + 1])
    ensures program.events == EventsAfter(program.bigEndian, steps[..i + 1])
    ensures v == VerdictAt(steps, i)
  {
    assert steps[..i + 1][..i] == steps[..i];
    match steps[i]
    case UserInsert(addr, accepts) =>
      var ok := program.UserSpaceInsert(addr, accepts);
      v := None;
    case Arrival(e) =>
      var ret := program.CgroupSkbEgress(e);
      v := Some(ret);
  }

  /** A whole run: a fresh program takes every insert and every packet. */
  method RunProgram(bigEndian: bool, steps: seq<Step<Egress>>)
    returns (program: EgressProgram, verdicts: seq<Option<i32>>)
    ensures fresh(program) && program.bigEndian == bigEndian
    ensures program.blocklist == BlocklistAfter(steps) && |program.blocklist| <= 1024
    ensures program.events == EventsAfter(bigEndian, steps)
    ensures |verdicts| == |steps|
    ensures AreVerdicts(steps, verdicts)
  {
    program := new EgressProgram(bigEndian);
    verdicts := [];
    for i := 0 to |steps|
      invariant program.blocklist == BlocklistAfter(steps[..i])
      invariant program.events == EventsAfter(bigEndian, steps[..i])
      invariant |verdicts| == i && AreVerdicts(steps, verdicts)
    {
      var v := TakeStep(program, steps, i);
      OneMoreVerdict(steps, verdicts, v);
      verdicts := verdicts + [v];
    }
    assert steps[..|steps|] == steps;
    BlocklistBounded(steps);
  }

  /** What a whole run returns and prints, by packet bytes alone. A packet passes exactly when it is not
      IPv4, or its header is whole and its destination octets had not been inserted. User space prints a
      line for each IPv4 packet with a whole header, in order, and for nothing else: those octets and 0
      or 1. `origins` are the steps the lines come from. */
  method RunAndPrint(bigEndian: bool, steps: seq<Step<Egress>>)
    returns (verdicts: seq<Option<i32>>, lines: seq<LogLine>, ghost origins: seq<nat>)
    ensures |verdicts| == |steps|
    ensures forall i :: 0 <= i < |steps| && steps[i].Arrival? ==>
              var e := steps[i].packet;
              verdicts[i] == Some(
                if || e.protocol != 8
                   || (|e.packet| >= 20
                       && !exists j :: 0 <= j < i
                            && Inserted(steps, j, Ipv4Addr(e.packet[16], e.packet[17], e.packet[18], e.packet[19])))
                then 1 else 0)
    ensures |origins| == |lines|
    ensures forall j, k :: 0 <= j < k < |origins| ==> origins[j] < origins[k]
    ensures forall i :: i in origins <==>
              0 <= i < |steps| && steps[i].Arrival? && steps[i].packet.protocol == 8 && |steps[i].packet.packet| >= 20
    ensures forall k :: 0 <= k < |lines| ==>
              && origins[k] in origins
              && var p := steps[origins[k]].packet.packet;
                 && lines[k].destination == Ipv4Addr(p[16], p[17], p[18], p[19])
                 && lines[k].action == if exists j :: 0 <= j < origins[k] && Inserted(steps, j, Ipv4Addr(p[16], p[17], p[18], p[19]))
                                       then 0 else 1
  {
    var program;
    program, verdicts := RunProgram(bigEndian, steps);
    forall i | 0 <= i < |steps| && steps[i].Arrival?
      ensures verdicts[i] == Some(Verdict(BlocklistAfter(steps[..i]), steps[i].packet))
    {
      assert verdicts[i] == VerdictAt(steps, i);
    }
    forall i | 0 <= i < |steps| && steps[i].Arrival? {
      VerdictInRun(steps, i, steps[i].packet);
    }
    EventsDecode(bigEndian, steps);
    lines := ReadEvents(bigEndian, program.events, |program.events|);
    origins := DecisionsExact(steps);
  }
}
