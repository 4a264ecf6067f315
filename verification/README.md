# Verified model of the aya book's example programs

The Aya book's examples hold two pieces of code with something to prove: the bitfield storage unit that
bindgen generates for C bitfields, and four packet programs for the eBPF hooks XDP, TC and cgroup. This
project models both in Dafny and proves what they promise, on little-endian and on big-endian targets.

**The bitfield unit** is a byte buffer whose bits are read and written one at a time. A bit's place in its
byte, and a field's place in the word, both depend on the target. The model is a class over an array of
bytes (`BitfieldUnit.dfy`), with the source's loops and masks, in debug and in release builds. A Rust
panic is an outcome, so `get` and `set` take every argument their types admit: any offset and any width
up to 255. Their contracts tie them to two functions on byte sequences, `GetField` and `SetField`
(`Fields.dfy`), which speak of a run of bits in the buffer's bit view and of nothing else. What the unit
is for is proved about those:

- `FieldLaws.dfy`: reading after writing, writing after reading, frames, commutation, adjacent fields,
  and the mirror symmetry between the two kinds of target;
- `FieldNumbers.dfy`: access as division and remainder by powers of two on the one number that the whole
  buffer holds;
- `FieldRuns.dfy`: whole runs of writes against a map from fields to values, and rebuilding a buffer
  field by field;
- `UnitRuns.dfy`: the same for programs that make the calls on a unit, with the exact condition for a
  run not to panic;
- `IpHeader.dfy`: the `ihl` and `version` nibbles of the IPv4 header and their wire layout.

**The packet programs** (`XdpDrop.dfy`, `XdpLog.dfy`, `TcEgress.dfy`, `CgroupEgress.dfy`) parse packets of
any length and look addresses up in a blocklist that user space fills (`Blocklist.dfy`). The theorems
compare each program with the bytes on the wire, whole runs of inserts and packets with what was
inserted, the logging program with a parser that follows RFC 791, and the programs with each other
(`FilterEquivalence.dfy`). `ByteOrder.dfy` has the base-256 arithmetic this needs.

## Results worth knowing

- The assertions in `get` and `set` round the end of the field down to a byte. They let through exactly
  the fields that end in the first seven bits past the buffer, and on those the loop then runs off the
  end (`ChecksMissExactly`).
- A `set` that runs off the end has already written every bit that exists on a little-endian target, and
  nothing on a big-endian one (`Set`).
- Writing back what was read is harmless on every buffer exactly for widths up to 64 (`WriteBackExact`).
- `ihl()` and `version()` agree with the wire layout exactly on little-endian targets and on bytes with
  equal nibbles (`AccessorsMatchWire`).
- The TC and the cgroup program drop the same frames on every little-endian target. On a big-endian one
  they part, because the cgroup program compares the protocol with the native number 8
  (`TcMatchesCgroup`).
- The logging program reads the port at a fixed offset. It agrees with RFC 791 on everything that follows
  a header exactly when that has no options and is not a later fragment (`AgreesExactly`); behind options
  it logs the first two option bytes as the port (`PortBehindOptions`). `AgreesOnFrameExactly` has the
  condition for a single frame.

## Assumptions

- Words are bounded naturals, with bitwise operators defined digit by digit; truncation and the masking
  of shift amounts in release builds are written out. `usize` is a natural: offsets and packet addresses
  do not wrap.
- Header structs have the sizes and offsets of Ethernet (14 bytes), section 3.1 of RFC 791 (20 bytes),
  section 3.1 of RFC 9293 (20 bytes) and RFC 768 (8 bytes). An ethertype or protocol byte that the
  header enums do not list takes the other arm of a match.
- `XDP_ABORTED`, `XDP_DROP` and `XDP_PASS` are 0, 1 and 2; `TC_ACT_SHOT` and `TC_ACT_PIPE` are 2 and 3.
- The kernel's hash map holds at most 1024 entries, starts empty, and may refuse an insert for lack of
  memory, which a step of a run says. A load fails exactly when it reaches past the packet. The event
  array neither loses nor reorders records. User space and kernel share a byte order.

## Model

| member | source | states |
|---|---|---|
| `BitfieldUnits.BitfieldUnit.constructor` | examples/cgroup-skb-egress/cgroup-skb-egress-ebpf/src/bindings.rs:10-12 | the unit wraps the given storage |
| `BitfieldUnits.BitfieldUnit.GetBit` | examples/cgroup-skb-egress/cgroup-skb-egress-ebpf/src/bindings.rs:19-30 | the masked byte test reads the bit of that index in the buffer's bit view; it panics exactly past the end |
| `BitfieldUnits.BitfieldUnit.SetBit` | examples/cgroup-skb-egress/cgroup-skb-egress-ebpf/src/bindings.rs:32-47 | the masked byte update changes that one bit of the view and no other; a panic changes nothing |
| `BitfieldUnits.BitfieldUnit.Get` | examples/cgroup-skb-egress/cgroup-skb-egress-ebpf/src/bindings.rs:49-68 | returns exactly on the exact domain, and then the word whose digits are the field's bits in the target's order |
| `BitfieldUnits.BitfieldUnit.Set` | examples/cgroup-skb-egress/cgroup-skb-egress-ebpf/src/bindings.rs:70-87 | returns exactly on the exact domain, having replaced the field's bits and nothing else; a panic leaves the buffer as `Leftover` says |
| `BitfieldUnits.ChecksMissExactly` | examples/cgroup-skb-egress/cgroup-skb-egress-ebpf/src/bindings.rs:50-55 | the debug assertions admit the exact domain and besides it exactly the fields ending 1 to 7 bits past the buffer |
| `BitfieldUnits.GetFinished` | examples/cgroup-skb-egress/cgroup-skb-egress-ebpf/src/bindings.rs:56-67 | the word accumulated by `val \|= 1 << index` over all bits is the field, also where shift amounts wrap at 64 |
| `BitfieldUnits.SetFinished` | examples/cgroup-skb-egress/cgroup-skb-egress-ebpf/src/bindings.rs:77-86 | a loop that wrote every digit has spliced the field into the buffer |
| `BitfieldUnits.SetStopped` | examples/cgroup-skb-egress/cgroup-skb-egress-ebpf/src/bindings.rs:77-86 | a loop stopped by the end of the buffer was called outside the exact domain, and what it leaves behind |
| `MachineWords.MaskTest` | examples/cgroup-skb-egress/cgroup-skb-egress-ebpf/src/bindings.rs:28-29 | `n & mask == mask` on a one-bit mask reads that binary digit of `n` |
| `MachineWords.SetMask` | examples/cgroup-skb-egress/cgroup-skb-egress-ebpf/src/bindings.rs:41-43 | or-ing a one-bit mask sets that digit of a byte and keeps the others |
| `MachineWords.ClearMask` | examples/cgroup-skb-egress/cgroup-skb-egress-ebpf/src/bindings.rs:44-46 | and-ing its complement clears that digit and keeps the others |
| `StorageBits.ViewInjective` | examples/cgroup-skb-egress/cgroup-skb-egress-ebpf/src/bindings.rs:19-30 | a buffer's bits, as `get_bit` numbers them, determine its bytes |
| `StorageBits.ViewDuality` | examples/cgroup-skb-egress/cgroup-skb-egress-ebpf/src/bindings.rs:23-27 | the big-endian numbering is the little-endian numbering of the byte-reversed buffer from the far end |
| `FieldLaws.GetAfterSet` | examples/cgroup-skb-egress/cgroup-skb-egress-ebpf/src/bindings.rs:49-87 | `get` of a field just written is the value mod 2^width, at every width and on both targets |
| `FieldLaws.SetAfterGet` | examples/cgroup-skb-egress/cgroup-skb-egress-ebpf/src/bindings.rs:49-87 | `set` of what `get` returned leaves every byte as it was, for widths up to 64 |
| `FieldLaws.WriteBackExact` | examples/cgroup-skb-egress/cgroup-skb-egress-ebpf/src/bindings.rs:49-87 | that holds on every buffer if and only if the width is at most 64, the bound that is asserted |
| `FieldLaws.WideWriteBackFails` | examples/cgroup-skb-egress/cgroup-skb-egress-ebpf/src/bindings.rs:57-66 | for each wider field a buffer on which it fails |
| `FieldLaws.SetAfterSet` | examples/cgroup-skb-egress/cgroup-skb-egress-ebpf/src/bindings.rs:70-87 | of two writes to one field the second alone counts |
| `FieldLaws.SetFrame` | examples/cgroup-skb-egress/cgroup-skb-egress-ebpf/src/bindings.rs:49-87 | a write leaves what `get` returns for any disjoint field unchanged, even one that shares a byte |
| `FieldLaws.SetCommutes` | examples/cgroup-skb-egress/cgroup-skb-egress-ebpf/src/bindings.rs:70-87 | writes to disjoint fields end in the same bytes in either order |
| `FieldLaws.GetDuality` | examples/cgroup-skb-egress/cgroup-skb-egress-ebpf/src/bindings.rs:49-68 | a big-endian `get` is a little-endian `get` of the byte-reversed buffer at the mirrored offset |
| `FieldLaws.SetDuality` | examples/cgroup-skb-egress/cgroup-skb-egress-ebpf/src/bindings.rs:70-87 | a big-endian `set` is the byte reversal of the mirrored little-endian `set` |
| `FieldLaws.GetConcatLittle` | examples/cgroup-skb-egress/cgroup-skb-egress-ebpf/src/bindings.rs:49-68 | little-endian: two adjacent fields read as one, the first giving the low digits |
| `FieldLaws.GetConcatBig` | examples/cgroup-skb-egress/cgroup-skb-egress-ebpf/src/bindings.rs:49-68 | big-endian: the first gives the high digits |
| `FieldLaws.SetConcatLittle` | examples/cgroup-skb-egress/cgroup-skb-egress-ebpf/src/bindings.rs:70-87 | little-endian: one wide write equals two adjacent ones of the quotient and remainder |
| `FieldLaws.SetConcatBig` | examples/cgroup-skb-egress/cgroup-skb-egress-ebpf/src/bindings.rs:70-87 | big-endian: the same with the halves exchanged |
| `FieldNumbers.ViewIsNumber` | examples/cgroup-skb-egress/cgroup-skb-egress-ebpf/src/bindings.rs:19-30 | the bits in order of significance are the binary expansion of the number the buffer holds |
| `FieldNumbers.GetIsDigits` | examples/cgroup-skb-egress/cgroup-skb-egress-ebpf/src/bindings.rs:49-68 | `get` is (N / 2^low) mod 2^width, low being the offset or, big-endian, the bits after the field |
| `FieldNumbers.SetReplacesDigits` | examples/cgroup-skb-egress/cgroup-skb-egress-ebpf/src/bindings.rs:70-87 | `set` turns N into N - ((N / 2^low) mod 2^width) * 2^low + (val mod 2^width) * 2^low |
| `FieldRuns.BitAfterRun` | examples/cgroup-skb-egress/cgroup-skb-egress-ebpf/src/bindings.rs:70-87 | after any in-range writes, overlapping and of any width, each bit is the digit of the last write that covers it, or its first value |
| `FieldRuns.RunRefinesMap` | examples/cgroup-skb-egress/cgroup-skb-egress-ebpf/src/bindings.rs:49-87 | the bytes that in-range writes to disjoint fields compute hold in each field its last value mod 2^width, or its first content |
| `UnitRuns.RunSets` | examples/cgroup-skb-egress/cgroup-skb-egress-ebpf/src/bindings.rs:70-87 | a run of `set` calls on a unit returns if and only if every call is in the exact domain of its build, with those bytes; a panic leaves the writes before it and the remnant of that one |
| `UnitRuns.SetsThenGet` | examples/cgroup-skb-egress/cgroup-skb-egress-ebpf/src/bindings.rs:49-87 | and a `get` after the run then returns the last value written to its field mod 2^width, or the first content: the unit is a map, in both builds and on both targets |
| `FieldRuns.RunFromZeros` | examples/cgroup-skb-egress/cgroup-skb-egress-ebpf/src/bindings.rs:49-87 | from zeroed bytes, a field in range holds the last value written or 0 |
| `FieldRuns.RunFrame` | examples/cgroup-skb-egress/cgroup-skb-egress-ebpf/src/bindings.rs:49-87 | a run changes no bit outside the fields it writes |
| `FieldRuns.RunsEqualExactly` | examples/cgroup-skb-egress/cgroup-skb-egress-ebpf/src/bindings.rs:49-87 | two runs end in the same bytes if and only if they leave the same value in every field |
| `FieldRuns.RebuildRoundTrip` | examples/cgroup-skb-egress/cgroup-skb-egress-ebpf/src/bindings.rs:49-87 | copying any cut into fields of at most 64 bits gives the bytes back, whatever the target buffer held |
| `UnitRuns.CopyUnit` | examples/cgroup-skb-egress/cgroup-skb-egress-ebpf/src/bindings.rs:49-87 | copying fields from unit to unit by `get` and `set` returns if and only if every field is in the exact domain; with widths 1 to 64 that cover the buffer it returns in every build and the copy is exact |
| `IpHeader.AccessorsReadNibbles` | examples/cgroup-skb-egress/cgroup-skb-egress-ebpf/src/bindings.rs:112-129 | which nibble `ihl()` and `version()` return on each kind of target |
| `IpHeader.AccessorsMatchWire` | examples/cgroup-skb-egress/cgroup-skb-egress-ebpf/src/bindings.rs:112-129 | they agree with section 3.1 of RFC 791 if and only if the target is little-endian or the nibbles are equal |
| `IpHeader.SettersIndependent` | examples/cgroup-skb-egress/cgroup-skb-egress-ebpf/src/bindings.rs:118-136 | each setter stores its argument mod 16 and leaves the other nibble |
| `IpHeader.AccessorsAfterRun` | examples/cgroup-skb-egress/cgroup-skb-egress-ebpf/src/bindings.rs:112-153 | the byte that the writes of `new_bitfield_1` and any setters compute reads back as the last value of each nibble mod 16 |
| `IpHeader.ByteAfterRun` | examples/cgroup-skb-egress/cgroup-skb-egress-ebpf/src/bindings.rs:118-153 | and the byte is the two nibbles, 16 * version + ihl on a little-endian target |
| `IpHeader.NewBitfieldByte` | examples/cgroup-skb-egress/cgroup-skb-egress-ebpf/src/bindings.rs:138-153 | the two writes of `new_bitfield_1` make the header byte of their arguments |
| `IpHeader.HeaderByteRebuild` | examples/cgroup-skb-egress/cgroup-skb-egress-ebpf/src/bindings.rs:112-153 | `new_bitfield_1` of what the accessors return gives the byte back |
| `IpHeader.Iphdr.Ihl` | examples/cgroup-skb-egress/cgroup-skb-egress-ebpf/src/bindings.rs:112-116 | never panics and reads the field at bit 0 |
| `IpHeader.Iphdr.Version` | examples/cgroup-skb-egress/cgroup-skb-egress-ebpf/src/bindings.rs:125-129 | never panics and reads the field at bit 4 |
| `IpHeader.Iphdr.SetIhl` | examples/cgroup-skb-egress/cgroup-skb-egress-ebpf/src/bindings.rs:118-123 | stores the value mod 16, keeps the version |
| `IpHeader.Iphdr.SetVersion` | examples/cgroup-skb-egress/cgroup-skb-egress-ebpf/src/bindings.rs:131-136 | stores the value mod 16, keeps the header length |
| `IpHeader.Iphdr.NewBitfield1` | examples/cgroup-skb-egress/cgroup-skb-egress-ebpf/src/bindings.rs:138-153 | a fresh one-byte unit holding the two nibbles |
| `IpHeader.RunSetters` | examples/cgroup-skb-egress/cgroup-skb-egress-ebpf/src/bindings.rs:118-153 | a header made by `new_bitfield_1` and changed by any calls of its setters holds the byte of those writes |
| `IpHeader.SettersThenRead` | examples/cgroup-skb-egress/cgroup-skb-egress-ebpf/src/bindings.rs:112-153 | its accessors then return the last value of each nibble mod 16 without panicking, and the byte is 16 * version + ihl on a little-endian target |
| `IpHeader.IphdrOffsets` | examples/cgroup-skb-egress/cgroup-skb-egress-ebpf/src/bindings.rs:95-109 | C layout puts fragment offset, protocol, source and destination at bytes 6, 9, 12 and 16 |
| `ByteOrder.FromBeOfLoad32` | examples/xdp-drop/xdp-drop-ebpf/src/main.rs:63 | `u32::from_be` of a native load of octets a, b, c, d is 2^24 a + 2^16 b + 2^8 c + d, on either target |
| `ByteOrder.FromBeOfLoad16` | examples/xdp-log/xdp-log-ebpf/src/main.rs:55-60 | `u16::from_be` of a native load of two bytes is 256 times the first plus the second, on either target |
| `ByteOrder.AddrOnWire` | examples/xdp-drop/xdp-drop/src/main.rs:53 | the map key of `Ipv4Addr::new(a, b, c, d)` is that same number, and gives the address back |
| `ByteOrder.ToU32Injective` | examples/xdp-drop/xdp-drop/src/main.rs:53-56 | different addresses have different map keys |
| `ByteOrder.AddrRoundTrip` | examples/cgroup-skb-egress/cgroup-skb-egress/src/main.rs:77 | an address survives the way to a number and back |
| `ByteOrder.NativeRoundTrip` | examples/cgroup-skb-egress/cgroup-skb-egress/src/main.rs:75-76 | a native load undoes a native store |
| `Packets.PtrAt` | examples/xdp-drop/xdp-drop-ebpf/src/main.rs:37-48 | succeeds exactly when the window fits, and the window then lies between data and data_end |
| `Packets.EtherTypeOnWire` | examples/xdp-drop/xdp-drop-ebpf/src/main.rs:57-60 | the native match on the ethertype is the two bytes 08 00, on either target |
| `BlocklistMap.LookupExact` | examples/xdp-drop/xdp-drop-ebpf/src/main.rs:51-53 | a lookup finds an address if and only if an earlier insert of its octets succeeded |
| `BlocklistMap.InsertExactly` | examples/xdp-drop/xdp-drop/src/main.rs:56 | over any run, an insert the kernel has memory for succeeds if and only if its address was inserted before or fewer than 1024 different addresses were |
| `BlocklistMap.SizeExact` | examples/xdp-drop/xdp-drop-ebpf/src/main.rs:24-26 | the map has one entry for each different address inserted |
| `BlocklistMap.FirstInsertFound` | examples/xdp-drop/xdp-drop/src/main.rs:53-56 | the address that the loader inserts first is found |
| `BlocklistMap.BlocklistBounded` | examples/xdp-drop/xdp-drop-ebpf/src/main.rs:24-26 | the map never exceeds 1024 entries over any run |
| `XdpDrop.VerdictOnWire` | examples/xdp-drop/xdp-drop-ebpf/src/main.rs:28-74 | the verdict 0, 1 or 2 for every frame, byte order and memory address, by bytes 12, 13 and 26 to 29 |
| `XdpDrop.DroppedExactly` | examples/xdp-drop/xdp-drop-ebpf/src/main.rs:51-74 | over any run, an IPv4 frame of 34 bytes or more is dropped if and only if the address of its bytes 26, 27, 28, 29 was inserted earlier, successfully |
| `XdpDrop.ReadsConfined` | examples/xdp-drop/xdp-drop-ebpf/src/main.rs:37-74 | frames that share their first 34 bytes get the same verdict |
| `XdpDrop.PrefixStable` | examples/xdp-drop/xdp-drop-ebpf/src/main.rs:37-74 | a verdict other than ABORTED survives any bytes appended |
| `XdpLog.EffectOnWire` | examples/xdp-log/xdp-log-ebpf/src/main.rs:21-69 | verdict and log line for every frame: the address is bytes 26 to 29, the port 256 times byte 34 plus byte 35 |
| `XdpLog.PassesExactly` | examples/xdp-log/xdp-log-ebpf/src/main.rs:41-69 | passes if and only if 14 bytes or more and not IPv4, or protocol 6 with 54, or protocol 17 with 42 |
| `XdpLog.HeaderFields` | examples/cgroup-skb-egress/cgroup-skb-egress-ebpf/src/bindings.rs:101-116 | the specification's header length is four times `ihl()`, and its fragment offset the low 13 bits of `from_be` of the `frag_off` field, at byte 6 of the header |
| `XdpLog.AgreesOnFrameExactly` | examples/xdp-log/xdp-log-ebpf/src/main.rs:41-69 | on a frame, verdict, address and port are those of a parser that honours header length and fragment offset if and only if no port is read, or `ihl()` is 5 and the offset 0, or bytes 34 and 35 equal the port behind the options |
| `XdpLog.AgreesExactly` | examples/xdp-log/xdp-log-ebpf/src/main.rs:51-63 | for any 34 header bytes, it agrees on all continuations if and only if `ihl()` is 5 and the offset 0, or no port is read |
| `XdpLog.PortBehindOptions` | examples/xdp-log/xdp-log-ebpf/src/main.rs:51-63 | behind options the logged port is bytes 34 and 35, the specified one the two bytes after the options, and the program is right if and only if they are equal |
| `XdpLog.ReadsConfined` | examples/xdp-log/xdp-log-ebpf/src/main.rs:29-69 | frames that share their first 54 bytes get the same verdict and log |
| `XdpLog.PrefixStable` | examples/xdp-log/xdp-log-ebpf/src/main.rs:29-69 | a passing verdict and its log survive any bytes appended |
| `TcEgress.VerdictOnWire` | examples/tc-egress/tc-egress-ebpf/src/main.rs:20-50 | the action 2 or 3 for every frame and byte order, by bytes 12, 13 and 30 to 33, unreadable headers included |
| `CgroupEgress.EgressProgram.UserSpaceInsert` | examples/cgroup-skb-egress/cgroup-skb-egress/src/main.rs:56-59 | succeeds if and only if accepted and the address is known or fewer than 1024 are; then exactly that address is findable besides those before, else nothing changes |
| `CgroupEgress.EgressProgram.TryCgroupSkbEgress` | examples/cgroup-skb-egress/cgroup-skb-egress-ebpf/src/main.rs:39-56 | fails exactly on IPv4 packets below 20 bytes; appends one record exactly for IPv4 packets of 20 bytes or more, and none else |
| `CgroupEgress.EgressProgram.CgroupSkbEgress` | examples/cgroup-skb-egress/cgroup-skb-egress-ebpf/src/main.rs:27-32 | returns 1 if and only if the protocol is not 8, or the packet has 20 bytes and octets 16 to 19 are not in the map, and 0 otherwise |
| `CgroupEgress.RecordLayout` | examples/cgroup-skb-egress/cgroup-skb-egress-common/src/lib.rs:3-8 | the address is in the first four bytes of a record, the action in two's complement in the next four, in native order |
| `CgroupEgress.DecodeOfEncode` | examples/cgroup-skb-egress/cgroup-skb-egress-common/src/lib.rs:3-8 | a record read back from a buffer of any greater length gives the address octets and the signed action |
| `CgroupEgress.VerdictInRun` | examples/cgroup-skb-egress/cgroup-skb-egress-ebpf/src/main.rs:39-56 | over any run a packet passes if and only if it is not IPv4, or has 20 bytes and the address of its bytes 16 to 19 had not been inserted by then |
| `CgroupEgress.EventsDecode` | examples/cgroup-skb-egress/cgroup-skb-egress/src/main.rs:73-79 | the records of a run decode, one for one, to the decisions |
| `CgroupEgress.DecisionsExact` | examples/cgroup-skb-egress/cgroup-skb-egress-ebpf/src/main.rs:50-54 | the decisions are those on the IPv4 packets of 20 bytes or more, all of them, once each and in order |
| `CgroupEgress.ReadEvents` | examples/cgroup-skb-egress/cgroup-skb-egress/src/main.rs:72-79 | user space prints each filled buffer decoded, in order |
| `CgroupEgress.RunProgram` | examples/cgroup-skb-egress/cgroup-skb-egress-ebpf/src/main.rs:27-56 | a fresh program driven through any interleaving of inserts and packets has the map, the log and the verdicts of that run |
| `CgroupEgress.RunAndPrint` | examples/cgroup-skb-egress/cgroup-skb-egress-ebpf/src/main.rs:27-56 | and what it returns and user space prints, by packet bytes: each verdict, and one line for each IPv4 packet of 20 bytes or more, in order, with its bytes 16 to 19 and whether they had been inserted |
| `FilterEquivalence.ProtocolIsIpv4` | examples/cgroup-skb-egress/cgroup-skb-egress-ebpf/src/main.rs:40-43 | which wire type the comparison with 8 takes for IPv4 on each target |
| `FilterEquivalence.TcMatchesCgroup` | examples/tc-egress/tc-egress-ebpf/src/main.rs:20-50 | TC and cgroup drop the same frame if and only if the target is little-endian, or the type is neither 0800 nor 0008, or the rest would not be dropped by bytes 30 to 33 |
| `FilterEquivalence.Reflection` | examples/tc-egress/tc-egress-ebpf/src/main.rs:31-50 | `xdp-drop` refuses a frame if and only if `tc-egress` drops it with its addresses exchanged |
| `FilterEquivalence.ReflectionConverse` | examples/tc-egress/tc-egress-ebpf/src/main.rs:31-50 | and `tc-egress` drops a frame if and only if `xdp-drop` refuses it with its addresses exchanged |

## Left out

- Wrap-around of `usize` in `i + bit_offset` and in `start + offset + len`: addresses and offsets are naturals.
- The `info!` lines of `xdp-drop` and `tc-egress`, which repeat address and verdict; the log line of `xdp-log` is modelled.
- Loading and attaching the programs, the asynchronous event loop, Ctrl-C handling and the text formatting of log lines.
- Loss, reordering and per-CPU buffering of perf events.
- Undefined behaviour of reading an ethertype or protocol value outside the header crate's enum.
- The `kprobetcp`, `lsm-nice`, `aya-tool` and `xdp-hello` examples and the `xtask` build tools: kernel pointer reads, two-line branches and process spawning.
- The fields of `iphdr` other than its bitfield: the programs read them through offsets, which `IphdrOffsets` gives.
- The derived traits of the bitfield unit (ordering, hashing, equality), which see only the storage bytes.
