/** The blocklist shared by user space, which inserts addresses, and the packet programs, which look
    them up: a kernel hash map of at most 1024 entries, whose insert may fail for other reasons too. */
module BlocklistMap {
  import opened ByteOrder
  import opened Packets

  const MAX_ENTRIES := 1024

  /** One thing that happens in a run: user space inserts an address, or a packet arrives. `accepts`
      says whether the kernel has the memory for the insert. */
  datatype Step<P> = UserInsert(addr: Ipv4Addr, accepts: bool) | Arrival(packet: P)

  predicate InsertSucceeds(blocklist: Blocklist, addr: Ipv4Addr, accepts: bool) {
    accepts && (ToU32(addr) in blocklist || |blocklist| < MAX_ENTRIES)
  }

  function Insert(blocklist: Blocklist, addr: Ipv4Addr, accepts: bool): Blocklist {
    if InsertSucceeds(blocklist, addr, accepts) then blocklist[ToU32(addr) := 0] else blocklist
  }

  function BlocklistAfter<P>(steps: seq<Step<P>>): Blocklist {
    if steps == [] then map[]
    else
      var before := BlocklistAfter(steps[..|steps| - 1]);
      match steps[|steps| - 1]
      case UserInsert(addr, accepts) => Insert(before, addr, accepts)
      case Arrival(_) => before
  }

  /** Step `j` inserted `addr`, successfully. */
  predicate Inserted<P>(steps: seq<Step<P>>, j: nat, addr: Ipv4Addr) {
    && j < |steps| && steps[j].UserInsert? && steps[j].addr == addr
    && InsertSucceeds(BlocklistAfter(steps[..j]), addr, steps[j].accepts)
  }

  lemma InsertedEarlier<P>(steps: seq<Step<P>>, n: nat, j: nat, addr: Ipv4Addr)
    requires n <= |steps| && j < n
    ensures Inserted(steps[..n], j, addr) <==> Inserted(steps, j, addr)
  {
    assert steps[..n][..j] == steps[..j];
  }

  /** A lookup finds an address exactly when some earlier insert of that address succeeded. */
  lemma {:induction false} LookupExact<P>(steps: seq<Step<P>>, addr: Ipv4Addr)
    ensures ToU32(addr) in BlocklistAfter(steps) <==> exists j :: 0 <= j < |steps| && Inserted(steps, j, addr)
  {
    if steps != [] {
      var n := |steps| - 1;
      LookupExact(steps[..n], addr);
      forall j | 0 <= j < n ensures Inserted(steps[..n], j, addr) <==> Inserted(steps, j, addr) {
        InsertedEarlier(steps, n, j, addr);
      }
      if steps[n].UserInsert? && ToU32(steps[n].addr) == ToU32(addr) {
        ToU32Injective(steps[n].addr, addr);
      }
      if ToU32(addr) in BlocklistAfter(steps) && ToU32(addr) !in BlocklistAfter(steps[..n]) {
        assert Inserted(steps, n, addr);
      }
      if ToU32(addr) in BlocklistAfter(steps[..n]) {
        var j :| 0 <= j < n && Inserted(steps[..n], j, addr);
        assert Inserted(steps, j, addr);
      }
    }
  }

  /** The addresses that were inserted, each counted once. */
  ghost function Addresses<P>(steps: seq<Step<P>>): set<Ipv4Addr> {
    set j | 0 <= j < |steps| && steps[j].UserInsert? && Inserted(steps, j, steps[j].addr) :: steps[j].addr
  }

  lemma AddressesExact<P>(steps: seq<Step<P>>, addr: Ipv4Addr)
    ensures addr in Addresses(steps) <==> exists j :: 0 <= j < |steps| && Inserted(steps, j, addr)
  {
    if j :| 0 <= j < |steps| && Inserted(steps, j, addr) {
      assert steps[j].addr == addr;
    }
  }

  lemma LookupIsMember<P>(steps: seq<Step<P>>, addr: Ipv4Addr)
    ensures ToU32(addr) in BlocklistAfter(steps) <==> addr in Addresses(steps)
  {
    LookupExact(steps, addr);
    AddressesExact(steps, addr);
  }

  lemma AddressesStep<P>(steps: seq<Step<P>>)
    requires steps != []
    ensures var n := |steps| - 1;
            Addresses(steps) ==
            if steps[n].UserInsert? && Inserted(steps, n, steps[n].addr)
            then Addresses(steps[..n]) + {steps[n].addr}
            else Addresses(steps[..n])
  {
    var n := |steps| - 1;
    forall addr: Ipv4Addr
      ensures addr in Addresses(steps) <==> addr in Addresses(steps[..n]) || Inserted(steps, n, addr)
    {
      AddressesExact(steps, addr);
      AddressesExact(steps[..n], addr);
      forall j | 0 <= j < n ensures Inserted(steps[..n], j, addr) <==> Inserted(steps, j, addr) {
        InsertedEarlier(steps, n, j, addr);
      }
    }
  }

  lemma InsertSize(blocklist: Blocklist, addr: Ipv4Addr, accepts: bool)
    ensures |Insert(blocklist, addr, accepts)|
         == |blocklist| + if InsertSucceeds(blocklist, addr, accepts) && ToU32(addr) !in blocklist then 1 else 0
  {
    var after := Insert(blocklist, addr, accepts);
    if InsertSucceeds(blocklist, addr, accepts) {
      assert after.Keys == blocklist.Keys + {ToU32(addr)};
    }
  }

  lemma AddedSize<T>(s: set<T>, x: T)
    ensures |s + {x}| == |s| + if x in s then 0 else 1
  {
    if x in s {
      assert s + {x} == s;
    }
  }

  /** The map has one entry for each address. */
  lemma {:induction false} SizeExact<P>(steps: seq<Step<P>>)
    ensures |BlocklistAfter(steps)| == |Addresses(steps)|
  {
    if steps != [] {
      var n := |steps| - 1;
      SizeExact(steps[..n]);
      AddressesStep(steps);
      if steps[n].UserInsert? {
        var addr, before := steps[n].addr, BlocklistAfter(steps[..n]);
        LookupIsMember(steps[..n], addr);
        InsertSize(before, addr, steps[n].accepts);
        AddedSize(Addresses(steps[..n]), addr);
        assert BlocklistAfter(steps) == Insert(before, addr, steps[n].accepts);
        assert Inserted(steps, n, addr) <==> InsertSucceeds(before, addr, steps[n].accepts);
      } else {
        assert BlocklistAfter(steps) == BlocklistAfter(steps[..n]);
      }
    }
  }

  /** Over any run, an insert that the kernel has memory for succeeds exactly when its address was
      inserted before or fewer than 1024 different addresses were; without memory none does. */
  lemma InsertExactly<P>(steps: seq<Step<P>>, i: nat, addr: Ipv4Addr, accepts: bool)
    requires i < |steps| && steps[i] == UserInsert(addr, accepts)
    ensures Inserted(steps, i, addr)
       <==> && accepts
            && ((exists j :: 0 <= j < i && Inserted(steps, j, addr)) || |Addresses(steps[..i])| < 1024)
  {
    SizeExact(steps[..i]);
    LookupExact(steps[..i], addr);
    forall j | 0 <= j < i ensures Inserted(steps[..i], j, addr) <==> Inserted(steps, j, addr) {
      InsertedEarlier(steps, i, j, addr);
    }
  }

  /** In particular the first insert of a run succeeds, and its address is then found. */
  lemma FirstInsertFound<P>(addr: Ipv4Addr)
    ensures ToU32(addr) in BlocklistAfter<P>([UserInsert(addr, true)])
  {
    var steps: seq<Step<P>> := [UserInsert(addr, true)];
    assert steps[..0] == [];
    InsertExactly(steps, 0, addr, true);
    LookupExact(steps, addr);
  }

  lemma {:induction false} BlocklistBounded<P>(steps: seq<Step<P>>)
    ensures |BlocklistAfter(steps)| <= 1024
  {
    if steps != [] {
      BlocklistBounded(steps[..|steps| - 1]);
    }
  }
}
