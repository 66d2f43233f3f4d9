/** What consecutive scans do to the registry as a whole: which entries survive a rescan, which
    are gone, and that rescanning an unchanged enumeration changes nothing. */
module RegistryRuns {
  import opened Bytes
  import opened LinkedLists
  import opened Reconciliation
  import opened BusRegistry

  /** The registry's contents: the busses in order, and the devices of each. */
  datatype Snapshot = Snapshot(busses: seq<Node<Bus>>, devices: seq<seq<Node<Dev>>>)

  ghost function View(reg: Registry): Snapshot
    reads reg.busses, reg.Lists()
  {
    Snapshot(reg.busses.nodes, reg.Devices())
  }

  /** Registry.Valid on the contents: unique locations, unique numbers on each bus. */
  ghost predicate Good(s: Snapshot) {
    && |s.devices| == |s.busses| && DistinctKeys(s.busses)
    && forall i {:trigger s.busses[i]} :: 0 <= i < |s.busses| ==>
         DistinctKeys(s.devices[i]) && GoodDevices(s.busses[i], s.devices[i])
  }

  ghost predicate GoodDevices(b: Node<Bus>, devices: seq<Node<Dev>>) {
    forall k {:trigger devices[k]} :: 0 <= k < |devices| ==> GoodDevice(b, devices[k])
  }

  lemma ValidIsGood(reg: Registry)
    requires reg.Valid()
    ensures Good(View(reg))
  {
    forall i | 0 <= i < |reg.busses.nodes|
      ensures GoodBus(reg.busses.nodes[i])
    {
      assert reg.busses.nodes[i] in reg.busses.nodes;
    }
  }

  /** The devices known for a bus; none for a bus that is not known. */
  ghost function Prior(busses: seq<Node<Bus>>, devices: seq<seq<Node<Dev>>>, b: Node<Bus>): seq<Node<Dev>>
    requires |busses| == |devices|
  {
    if busses == [] then []
    else if busses[0] == b then devices[0]
    else Prior(busses[1..], devices[1..], b)
  }

  lemma {:induction false} PriorAt(busses: seq<Node<Bus>>, devices: seq<seq<Node<Dev>>>, j: nat)
    requires |busses| == |devices| && j < |busses| && DistinctKeys(busses)
    ensures Prior(busses, devices, busses[j]) == devices[j]
  {
    if j > 0 {
      assert busses[0].key != busses[j].key;
      PriorAt(busses[1..], devices[1..], j - 1);
    }
  }

  lemma {:induction false} PriorOfNew(busses: seq<Node<Bus>>, devices: seq<seq<Node<Dev>>>, b: Node<Bus>)
    requires |busses| == |devices| && b !in busses
    ensures Prior(busses, devices, b) == []
  {
    if busses != [] {
      PriorOfNew(busses[1..], devices[1..], b);
    }
  }

  /** usb_find_busses then usb_find_devices, each with the enumeration it got; a failed
      enumeration leaves its level alone. */
  ghost predicate Rescanned(s: Snapshot, eb: Enumeration, ed: Enumeration, s': Snapshot)
    requires Good(s)
  {
    && |s'.devices| == |s'.busses|
    && (if eb.Listed? then BussesReconciled(s.busses, eb.devs, s'.busses) else s'.busses == s.busses)
    && forall i {:trigger s'.busses[i]} :: 0 <= i < |s'.busses| ==>
         var prior := Prior(s.busses, s.devices, s'.busses[i]);
         if ed.Listed? then DevicesReconciled(s'.busses[i], prior, ed.devs, s'.devices[i])
         else s'.devices[i] == prior
  }

  /** The effect of usb_find_busses alone, and of usb_find_devices alone. */
  ghost predicate BusStage(s: Snapshot, e: Enumeration, mid: Snapshot)
    requires Good(s)
  {
    && |mid.devices| == |mid.busses|
    && (if e.Listed? then BussesReconciled(s.busses, e.devs, mid.busses) else mid.busses == s.busses)
    && forall i {:trigger mid.busses[i]} :: 0 <= i < |mid.busses| ==>
         mid.devices[i] == Prior(s.busses, s.devices, mid.busses[i])
  }

  ghost predicate DeviceStage(mid: Snapshot, e: Enumeration, s': Snapshot)
    requires |mid.devices| == |mid.busses|
  {
    && s'.busses == mid.busses && |s'.devices| == |mid.devices|
    && forall i {:trigger mid.busses[i]} :: 0 <= i < |mid.busses| ==>
         if e.Listed? then DevicesReconciled(mid.busses[i], mid.devices[i], e.devs, s'.devices[i])
         else s'.devices[i] == mid.devices[i]
  }

  lemma StagesCompose(s: Snapshot, eb: Enumeration, mid: Snapshot, ed: Enumeration, s': Snapshot)
    requires Good(s) && BusStage(s, eb, mid) && DeviceStage(mid, ed, s')
    ensures Rescanned(s, eb, ed, s')
  {
    forall i | 0 <= i < |s'.busses|
      ensures var prior := Prior(s.busses, s.devices, s'.busses[i]);
              if ed.Listed? then DevicesReconciled(s'.busses[i], prior, ed.devs, s'.devices[i])
              else s'.devices[i] == prior
    {
      assert mid.busses[i] == s'.busses[i];
    }
  }

  /** The pair is still listed, as far as the two enumerations say. */
  ghost predicate StillThere(eb: Enumeration, ed: Enumeration, location: Byte, address: Byte) {
    && (eb.Listed? ==> location in BusNumbers(eb.devs))
    && (ed.Listed? ==> address in Addresses(OnBus(ed.devs, location)))
  }

  /** In the terms of libusb's two lists: one entry on that bus, and one with both numbers. */
  lemma StillThereIs(eb: Enumeration, ed: Enumeration, location: Byte, address: Byte)
    ensures StillThere(eb, ed, location, address) <==>
              && (eb.Listed? ==> exists l :: l in eb.devs && l.bus == location)
              && (ed.Listed? ==> exists l :: l in ed.devs && l.bus == location && l.address == address)
  {
    if ed.Listed? {
      OnBusMembers(ed.devs, location);
      forall l | l in ed.devs && l.bus == location && l.address == address
        ensures l in OnBus(ed.devs, location)
      {
        OnBusComplete(ed.devs, location, l);
      }
    }
  }

  lemma {:induction false} OnBusComplete(devs: seq<LibDev>, location: Byte, l: LibDev)
    requires l in devs && l.bus == location
    ensures l in OnBus(devs, location)
  {
    var n := |devs| - 1;
    assert devs == devs[..n] + [devs[n]];
    if devs[n] != l {
      OnBusComplete(devs[..n], location, l);
    }
  }

  /** A bus present after reconciling is one the enumeration mentions. */
  lemma ReconciledBusIsListed(before: seq<Node<Bus>>, devs: seq<LibDev>, after: seq<Node<Bus>>, i: nat)
    requires BussesReconciled(before, devs, after) && i < |after|
    ensures after[i].key in BusNumbers(devs)
  {
    hide Missing, FirstSeen, Keep, Keys;
    var added := Missing(FirstSeen(devs), Keys(before));
    MissingMembers(FirstSeen(devs), Keys(before));
    if i < |added| {
      assert added[i] in FirstSeen(devs);
    } else {
      KeepMembers(before, BusNumbers(devs));
      assert after[i] == after[|added|..][i - |added|];
    }
  }

  /** A device present after reconciling is one the enumeration mentions. */
  lemma ReconciledDeviceIsListed(b: Node<Bus>, before: seq<Node<Dev>>, devs: seq<LibDev>, after: seq<Node<Dev>>, k: nat)
    requires UniquePairs(devs) && DevicesReconciled(b, before, devs, after) && k < |after|
    ensures after[k].key in Addresses(OnBus(devs, b.key))
  {
    var libs := OnBus(devs, b.key);
    var added := Arrivals(libs, Keys(before));
    OnBusDistinct(devs, b.key);
    ArrivalsMembers(libs, Keys(before));
    if k < |added| {
      assert after[k] == after[..|added|][k] && added[k] in libs;
    } else {
      KeepMembers(before, Addresses(libs));
      assert after[k] == after[|added|..][k - |added|];
    }
  }

  /** A bus that is still listed is still in the registry: the same node. */
  lemma BusSurvives(s: Snapshot, eb: Enumeration, ed: Enumeration, s': Snapshot, j: nat) returns (i: nat)
    requires Good(s) && Rescanned(s, eb, ed, s') && j < |s.busses|
    requires eb.Listed? ==> s.busses[j].key in BusNumbers(eb.devs)
    ensures i < |s'.busses| && s'.busses[i] == s.busses[j]
  {
    hide DevicesReconciled, GoodDevices, Prior, FirstSeen, Missing;
    if eb.Listed? {
      var kept := Keep(s.busses, BusNumbers(eb.devs));
      KeepMembers(s.busses, BusNumbers(eb.devs));
      assert s.busses[j].key in BusNumbers(eb.devs) && s.busses[j] in kept;
      var at :| 0 <= at < |kept| && kept[at] == s.busses[j];
      var n := |Missing(FirstSeen(eb.devs), Keys(s.busses))|;
      assert s'.busses[n..][at] == s'.busses[n + at];
      i := n + at;
    } else {
      i := j;
    }
  }

  /** A device whose pair is still listed is still in the registry: the same node, on the same
      bus, whatever else was plugged or unplugged. */
  lemma DeviceSurvives(s: Snapshot, eb: Enumeration, ed: Enumeration, s': Snapshot, j: nat, k: nat)
    returns (i: nat, l: nat)
    requires Good(s) && Rescanned(s, eb, ed, s') && j < |s.busses| && k < |s.devices[j]|
    requires StillThere(eb, ed, s.busses[j].key, s.devices[j][k].key)
    ensures i < |s'.busses| && s'.busses[i] == s.busses[j]
    ensures l < |s'.devices[i]| && s'.devices[i][l] == s.devices[j][k]
  {
    i := BusSurvives(s, eb, ed, s', j);
    PriorAt(s.busses, s.devices, j);
    var prior := s.devices[j];
    if ed.Listed? {
      var libs := OnBus(ed.devs, s.busses[j].key);
      var kept := Keep(prior, Addresses(libs));
      KeepMembers(prior, Addresses(libs));
      assert prior[k].key in Addresses(libs) && prior[k] in kept;
      var at :| 0 <= at < |kept| && kept[at] == prior[k];
      var n := |Arrivals(libs, Keys(prior))|;
      assert s'.devices[i][n..][at] == s'.devices[i][n + at];
      l := n + at;
    } else {
      l := k;
    }
  }

  /** A pair that is no longer listed is no longer in the registry, under any node. */
  lemma DeviceVanishes(s: Snapshot, eb: Enumeration, ed: Enumeration, s': Snapshot, location: Byte, address: Byte)
    requires Good(s) && Rescanned(s, eb, ed, s') && (ed.Listed? ==> UniquePairs(ed.devs))
    requires !StillThere(eb, ed, location, address)
    ensures forall i, l {:trigger s'.devices[i][l]} :: 0 <= i < |s'.busses| && 0 <= l < |s'.devices[i]| ==>
              s'.busses[i].key != location || s'.devices[i][l].key != address
  {
    forall i, l | 0 <= i < |s'.busses| && 0 <= l < |s'.devices[i]|
      ensures s'.busses[i].key != location || s'.devices[i][l].key != address
    {
      if eb.Listed? && location !in BusNumbers(eb.devs) {
        ReconciledBusIsListed(s.busses, eb.devs, s'.busses, i);
      } else {
        var b, prior := s'.busses[i], Prior(s.busses, s.devices, s'.busses[i]);
        ReconciledDeviceIsListed(b, prior, ed.devs, s'.devices[i], l);
      }
    }
  }

  // ---- what reconciling means, in the terms of libusb's list ----

  /** A bus after a scan is one that the list mentions. */
  lemma EntryOfBus(before: seq<Node<Bus>>, devs: seq<LibDev>, after: seq<Node<Bus>>, i: nat) returns (l: LibDev)
    requires BussesReconciled(before, devs, after) && i < |after|
    ensures l in devs && l.bus == after[i].key
  {
    ReconciledBusIsListed(before, devs, after, i);
    l :| l in devs && l.bus == after[i].key;
  }

  /** Every bus that the list mentions is there after a scan, and one known before is the same
      node. */
  lemma BussesMean(before: seq<Node<Bus>>, devs: seq<LibDev>, after: seq<Node<Bus>>)
    requires DistinctKeys(before) && BussesReconciled(before, devs, after)
    ensures forall l :: l in devs ==> exists i :: 0 <= i < |after| && after[i].key == l.bus
    ensures forall b, l :: b in before && l in devs && l.bus == b.key ==> b in after
  {
    hide FirstSeen, Missing, Keep;
    forall l | l in devs
      ensures exists i :: 0 <= i < |after| && after[i].key == l.bus
    {
      assert l.bus in BusNumbers(devs);
      ListedBusIsKnown(before, devs, after);
    }
    forall b, l | b in before && l in devs && l.bus == b.key
      ensures b in after
    {
      KeepMembers(before, BusNumbers(devs));
      var i :| 0 <= i < |before| && before[i] == b;
      assert before[i].key in BusNumbers(devs);
      InRest(after, |Missing(FirstSeen(devs), Keys(before))|, b);
    }
  }

  lemma InRest<T>(s: seq<T>, n: nat, x: T)
    requires n <= |s| && x in s[n..]
    ensures x in s
  {
  }

  lemma {:induction false} KeepInOrder<T>(nodes: seq<Node<T>>, ks: set<Byte>, i: nat, i': nat) returns (j: nat, j': nat)
    requires i <= i' < |Keep(nodes, ks)|
    ensures j <= j' < |nodes| && (i < i' ==> j < j') && Keep(nodes, ks)[i] == nodes[j] && Keep(nodes, ks)[i'] == nodes[j']
  {
    var n := |nodes| - 1;
    var init := nodes[..n];
    if i' < |Keep(init, ks)| {
      j, j' := KeepInOrder(init, ks, i, i');
    } else if i < |Keep(init, ks)| {
      j, j' := KeepInOrder(init, ks, i, i);
      j' := n;
    } else {
      j, j' := n, n;
    }
  }

  lemma {:induction false} MissingInOrder(xs: seq<Byte>, ks: set<Byte>, i: nat, i': nat) returns (j: nat, j': nat)
    requires i < i' < |Missing(xs, ks)|
    ensures j < j' < |xs| && Missing(xs, ks)[i] == xs[j] && Missing(xs, ks)[i'] == xs[j']
  {
    var rest := Missing(xs[1..], ks);
    if xs[0] in ks {
      j, j' := MissingInOrder(xs[1..], ks, i, i');
      j, j' := j + 1, j' + 1;
    } else if i > 0 {
      j, j' := MissingInOrder(xs[1..], ks, i - 1, i' - 1);
      j, j' := j + 1, j' + 1;
    } else {
      MissingMembers(xs[1..], ks);
      assert rest[i' - 1] in xs[1..];
      var at :| 0 <= at < |xs| - 1 && xs[1..][at] == rest[i' - 1];
      j, j' := 0, at + 1;
    }
  }

  /** The list mentions the earlier location before it mentions the later one. */
  lemma {:induction false} FirstSeenInOrder(devs: seq<LibDev>, i: nat, i': nat) returns (k: nat)
    requires i < i' < |FirstSeen(devs)|
    ensures k < |devs| && devs[k].bus == FirstSeen(devs)[i]
    ensures forall m :: 0 <= m <= k ==> devs[m].bus != FirstSeen(devs)[i']
  {
    hide FirstSeen;
    SeenSomething(devs);
    var n := |devs| - 1;
    var init := devs[..n];
    SeenStep(devs, n);
    assert devs[..n + 1] == devs;
    if i' < |FirstSeen(init)| {
      k := FirstSeenInOrder(init, i, i');
    } else {
      k := FirstMention(init, FirstSeen(init)[i], devs[n].bus);
    }
  }

  lemma SeenSomething(devs: seq<LibDev>)
    requires |FirstSeen(devs)| > 0
    ensures |devs| > 0
  {
  }

  /** A location seen so far, with one that was not. */
  lemma FirstMention(devs: seq<LibDev>, location: Byte, unseen: Byte) returns (k: nat)
    requires location in FirstSeen(devs) && unseen !in FirstSeen(devs)
    ensures k < |devs| && devs[k].bus == location && forall m :: 0 <= m < |devs| ==> devs[m].bus != unseen
  {
    hide FirstSeen;
    assert location in BusNumbers(devs) && unseen !in BusNumbers(devs);
    k :| 0 <= k < |devs| && devs[k].bus == location;
    forall m | 0 <= m < |devs|
      ensures devs[m].bus != unseen
    {
      assert devs[m] in devs && devs[m].bus in BusNumbers(devs);
    }
  }

  /** The order of the busses after a scan: the new ones come first, in the order in which the list
      mentions them, and those known before follow in the order they had. */
  lemma BussesInOrder(before: seq<Node<Bus>>, devs: seq<LibDev>, after: seq<Node<Bus>>, i: nat, i': nat) returns (j: nat, j': nat)
    requires BussesReconciled(before, devs, after) && i < i' < |after|
    ensures after[i] in before ==> j < j' < |before| && after[i] == before[j] && after[i'] == before[j']
    ensures after[i'] !in before ==>
      && after[i] !in before && j < |devs| && devs[j].bus == after[i].key
      && forall m :: 0 <= m <= j ==> devs[m].bus != after[i'].key
  {
    hide FirstSeen, Missing, Keep;
    var added, kept := Missing(FirstSeen(devs), Keys(before)), Keep(before, BusNumbers(devs));
    MissingMembers(FirstSeen(devs), Keys(before));
    KeepMembers(before, BusNumbers(devs));
    NewAreNew(before, after, |added|);
    j, j' := 0, 0;
    if i >= |added| {
      assert after[|added|..][i - |added|] == after[i] && after[|added|..][i' - |added|] == after[i'];
      j, j' := KeepInOrder(before, BusNumbers(devs), i - |added|, i' - |added|);
    } else if i' < |added| {
      var a, a' := MissingInOrder(FirstSeen(devs), Keys(before), i, i');
      j := FirstSeenInOrder(devs, a, a');
    } else {
      assert after[i'] == kept[i' - |added|];
    }
  }

  lemma NewAreNew<T>(before: seq<Node<T>>, after: seq<Node<T>>, n: nat)
    requires n <= |after| && forall i {:trigger after[i]} :: 0 <= i < n ==> after[i].key !in Keys(before)
    ensures forall i {:trigger after[i]} :: 0 <= i < n ==> after[i] !in before
  {
  }

  /** Every listed device of a bus that initialises is there after a scan, and one known before is
      the same node, whether or not it would initialise again. */
  lemma DevicesMean(bus: Node<Bus>, before: seq<Node<Dev>>, devs: seq<LibDev>, after: seq<Node<Dev>>)
    requires UniquePairs(devs) && DistinctKeys(before) && DevicesReconciled(bus, before, devs, after)
    ensures forall l :: l in devs && l.bus == bus.key && l.init.Ready? ==> exists i :: 0 <= i < |after| && after[i].key == l.address
    ensures forall d, l :: d in before && l in devs && l.bus == bus.key && l.address == d.key ==> d in after
  {
    hide OnBus, Arrivals, Keep, UniquePairs;
    var libs := OnBus(devs, bus.key);
    OnBusMembers(devs, bus.key);
    forall l | l in devs && l.bus == bus.key && l.init.Ready?
      ensures exists i :: 0 <= i < |after| && after[i].key == l.address
    {
      OnBusComplete(devs, bus.key, l);
      var k :| 0 <= k < |libs| && libs[k] == l;
      ListedDeviceIsKnown(bus, before, devs, after, k);
    }
    forall d, l | d in before && l in devs && l.bus == bus.key && l.address == d.key
      ensures d in after
    {
      OnBusComplete(devs, bus.key, l);
      assert l.address in Addresses(libs);
      KeepMembers(before, Addresses(libs));
      var i :| 0 <= i < |before| && before[i] == d;
      assert before[i].key in Addresses(libs);
      InRest(after, |Arrivals(libs, Keys(before))|, d);
    }
  }

  /** A device after a scan is listed for its bus, and if it is new, it initialises. */
  lemma EntryOfDevice(bus: Node<Bus>, before: seq<Node<Dev>>, devs: seq<LibDev>, after: seq<Node<Dev>>, i: nat) returns (l: LibDev)
    requires UniquePairs(devs) && DevicesReconciled(bus, before, devs, after) && i < |after|
    ensures l in devs && l.bus == bus.key && l.address == after[i].key
    ensures after[i] in before || (l.init.Ready? && after[i].val == Dev(bus, l))
  {
    hide OnBus, Arrivals, Keep, UniquePairs;
    var libs := OnBus(devs, bus.key);
    var added := Arrivals(libs, Keys(before));
    OnBusDistinct(devs, bus.key);
    OnBusMembers(devs, bus.key);
    ArrivalsMembers(libs, Keys(before));
    if i < |added| {
      l := added[i];
      assert after[i] == after[..|added|][i] && l in libs;
      var k :| 0 <= k < |libs| && libs[k] == l;
    } else {
      KeepMembers(before, Addresses(libs));
      assert after[i] == after[|added|..][i - |added|];
      l :| l in libs && l.address == after[i].key;
      var k :| 0 <= k < |libs| && libs[k] == l;
    }
  }

  lemma {:induction false} OnBusInOrder(devs: seq<LibDev>, location: Byte, i: nat, i': nat) returns (j: nat, j': nat)
    requires i <= i' < |OnBus(devs, location)|
    ensures j <= j' < |devs| && (i < i' ==> j < j') && OnBus(devs, location)[i] == devs[j] && OnBus(devs, location)[i'] == devs[j']
  {
    var n := |devs| - 1;
    var init := devs[..n];
    if i' < |OnBus(init, location)| {
      j, j' := OnBusInOrder(init, location, i, i');
    } else if i < |OnBus(init, location)| {
      j, j' := OnBusInOrder(init, location, i, i);
      j' := n;
    } else {
      j, j' := n, n;
    }
  }

  lemma {:induction false} ArrivalsInOrder(libs: seq<LibDev>, known: set<Byte>, i: nat, i': nat) returns (j: nat, j': nat)
    requires i <= i' < |Arrivals(libs, known)|
    ensures j <= j' < |libs| && (i < i' ==> j < j') && Arrivals(libs, known)[i] == libs[j] && Arrivals(libs, known)[i'] == libs[j']
  {
    if libs[0].address in known || !libs[0].init.Ready? {
      j, j' := ArrivalsInOrder(libs[1..], known, i, i');
      j, j' := j + 1, j' + 1;
    } else if i > 0 {
      j, j' := ArrivalsInOrder(libs[1..], known, i - 1, i' - 1);
      j, j' := j + 1, j' + 1;
    } else if i' > 0 {
      j, j' := ArrivalsInOrder(libs[1..], known, i' - 1, i' - 1);
      j, j' := 0, j' + 1;
    } else {
      j, j' := 0, 0;
    }
  }

  /** The order of a bus's devices after a scan: the new ones come first, in the order of the list,
      and those known before follow in the order they had. */
  lemma DevicesInOrder(bus: Node<Bus>, before: seq<Node<Dev>>, devs: seq<LibDev>, after: seq<Node<Dev>>, i: nat, i': nat)
    returns (j: nat, j': nat)
    requires UniquePairs(devs) && DevicesReconciled(bus, before, devs, after) && i < i' < |after|
    ensures after[i] in before ==> j < j' < |before| && after[i] == before[j] && after[i'] == before[j']
    ensures after[i'] !in before ==>
      after[i] !in before && j < j' < |devs| && after[i].val == Dev(bus, devs[j]) && after[i'].val == Dev(bus, devs[j'])
  {
    hide OnBus, Arrivals, Keep, UniquePairs;
    var libs := OnBus(devs, bus.key);
    var added, kept := Arrivals(libs, Keys(before)), Keep(before, Addresses(libs));
    OnBusDistinct(devs, bus.key);
    ArrivalsMembers(libs, Keys(before));
    KeepMembers(before, Addresses(libs));
    forall k | 0 <= k < |added|
      ensures after[k].key !in Keys(before) && after[k].val == Dev(bus, added[k])
    {
      assert after[k] == after[..|added|][k];
    }
    NewAreNew(before, after, |added|);
    j, j' := 0, 0;
    if i >= |added| {
      assert after[|added|..][i - |added|] == after[i] && after[|added|..][i' - |added|] == after[i'];
      j, j' := KeepInOrder(before, Addresses(libs), i - |added|, i' - |added|);
    } else if i' < |added| {
      var a, a' := ArrivalsInOrder(libs, Keys(before), i, i');
      j, j' := OnBusInOrder(devs, bus.key, a, a');
    } else {
      assert after[i'] == kept[i' - |added|];
    }
  }

  // ---- an unchanged enumeration ----

  lemma {:induction false} KeepAll<T>(nodes: seq<Node<T>>, ks: set<Byte>)
    requires forall i {:trigger nodes[i]} :: 0 <= i < |nodes| ==> nodes[i].key in ks
    ensures Keep(nodes, ks) == nodes
  {
    if nodes != [] {
      KeepAll(nodes[..|nodes| - 1], ks);
    }
  }

  lemma {:induction false} NoArrivals(libs: seq<LibDev>, known: set<Byte>)
    requires forall i {:trigger libs[i]} :: 0 <= i < |libs| && libs[i].init.Ready? ==> libs[i].address in known
    ensures Arrivals(libs, known) == []
  {
    if libs != [] {
      NoArrivals(libs[1..], known);
    }
  }

  lemma {:induction false} ArrivalsComplete(libs: seq<LibDev>, known: set<Byte>, i: nat)
    requires i < |libs| && libs[i].init.Ready? && libs[i].address !in known
    ensures libs[i] in Arrivals(libs, known)
  {
    if i > 0 {
      ArrivalsComplete(libs[1..], known, i - 1);
    }
  }

  /** After reconciling, every listed bus is known. */
  lemma ListedBusIsKnown(before: seq<Node<Bus>>, devs: seq<LibDev>, after: seq<Node<Bus>>)
    requires BussesReconciled(before, devs, after)
    ensures forall l :: l in FirstSeen(devs) ==> l in Keys(after)
  {
    var added, kept := Missing(FirstSeen(devs), Keys(before)), Keep(before, BusNumbers(devs));
    MissingMembers(FirstSeen(devs), Keys(before));
    KeepMembers(before, BusNumbers(devs));
    forall l | l in FirstSeen(devs)
      ensures l in Keys(after)
    {
      if l in Keys(before) {
        var k :| 0 <= k < |before| && before[k].key == l;
        assert before[k] in kept;
        var at :| 0 <= at < |kept| && kept[at] == before[k];
        assert after[|added|..][at] == after[|added| + at];
        assert after[|added| + at] in after;
      } else {
        assert l in added;
        var at :| 0 <= at < |added| && added[at] == l;
        assert after[at] in after;
      }
    }
  }

  /** After reconciling, every listed device that initialises is known. */
  lemma ListedDeviceIsKnown(b: Node<Bus>, before: seq<Node<Dev>>, devs: seq<LibDev>, after: seq<Node<Dev>>, k: nat)
    requires DevicesReconciled(b, before, devs, after)
    requires k < |OnBus(devs, b.key)| && OnBus(devs, b.key)[k].init.Ready?
    ensures OnBus(devs, b.key)[k].address in Keys(after)
  {
    var libs := OnBus(devs, b.key);
    var added, kept := Arrivals(libs, Keys(before)), Keep(before, Addresses(libs));
    KeepMembers(before, Addresses(libs));
    if libs[k].address in Keys(before) {
      var m :| 0 <= m < |before| && before[m].key == libs[k].address;
      assert before[m].key in Addresses(libs) && before[m] in kept;
      var at :| 0 <= at < |kept| && kept[at] == before[m];
      assert after[|added|..][at] == after[|added| + at];
      assert after[|added| + at] in after;
    } else {
      ArrivalsComplete(libs, Keys(before), k);
      var at :| 0 <= at < |added| && added[at] == libs[k];
      assert after[..|added|][at] == after[at];
      assert after[at] in after;
    }
  }

  lemma {:induction false} NoneMissing(xs: seq<Byte>, ks: set<Byte>)
    requires forall i {:trigger xs[i]} :: 0 <= i < |xs| ==> xs[i] in ks
    ensures Missing(xs, ks) == []
  {
    if xs != [] {
      NoneMissing(xs[1..], ks);
    }
  }

  lemma SecondScanKeepsBusses(before: seq<Node<Bus>>, devs: seq<LibDev>, once: seq<Node<Bus>>, twice: seq<Node<Bus>>)
    requires BussesReconciled(before, devs, once) && BussesReconciled(once, devs, twice)
    ensures twice == once && BusChanges(once, devs) == 0
  {
    forall i | 0 <= i < |once|
      ensures once[i].key in BusNumbers(devs)
    {
      ReconciledBusIsListed(before, devs, once, i);
    }
    KeepAll(once, BusNumbers(devs));
    ListedBusIsKnown(before, devs, once);
    NoneMissing(FirstSeen(devs), Keys(once));
    assert twice == twice[0..];
  }

  lemma SecondScanKeepsDevices(b: Node<Bus>, before: seq<Node<Dev>>, devs: seq<LibDev>, once: seq<Node<Dev>>, twice: seq<Node<Dev>>)
    requires UniquePairs(devs)
    requires DevicesReconciled(b, before, devs, once) && DevicesReconciled(b, once, devs, twice)
    ensures twice == once && DeviceChanges(b, once, devs) == 0
  {
    var libs := OnBus(devs, b.key);
    forall k | 0 <= k < |once|
      ensures once[k].key in Addresses(libs)
    {
      ReconciledDeviceIsListed(b, before, devs, once, k);
    }
    KeepAll(once, Addresses(libs));
    forall k | 0 <= k < |libs| && libs[k].init.Ready?
      ensures libs[k].address in Keys(once)
    {
      ListedDeviceIsKnown(b, before, devs, once, k);
    }
    NoArrivals(libs, Keys(once));
    assert twice == twice[0..];
  }

  /** Rescanning with the same enumeration is a no-op: the same nodes in the same order, and no
      change counted at either level. */
  lemma UnchangedRescanIsNoOp(s: Snapshot, devs: seq<LibDev>, once: Snapshot, twice: Snapshot)
    requires UniquePairs(devs) && Good(s) && Good(once)
    requires Rescanned(s, Listed(devs), Listed(devs), once) && Rescanned(once, Listed(devs), Listed(devs), twice)
    ensures twice == once
    ensures BusChanges(once.busses, devs) == 0
    ensures AllChanges(once.busses, once.devices, devs, |once.busses|) == 0
  {
    SecondScanKeepsBusses(s.busses, devs, once.busses, twice.busses);
    forall i | 0 <= i < |once.busses|
      ensures twice.devices[i] == once.devices[i]
      ensures DeviceChanges(once.busses[i], once.devices[i], devs) == 0
    {
      PriorAt(once.busses, once.devices, i);
      assert twice.busses[i] == once.busses[i];
      var prior := Prior(s.busses, s.devices, once.busses[i]);
      SecondScanKeepsDevices(once.busses[i], prior, devs, once.devices[i], twice.devices[i]);
    }
    NoChanges(once.busses, once.devices, devs, |once.busses|);
  }

  lemma {:induction false} NoChanges(busses: seq<Node<Bus>>, before: seq<seq<Node<Dev>>>, devs: seq<LibDev>, n: nat)
    requires n <= |busses| == |before|
    requires forall i {:trigger busses[i]} :: 0 <= i < |busses| ==> DeviceChanges(busses[i], before[i], devs) == 0
    ensures AllChanges(busses, before, devs, n) == 0
  {
    if n > 0 {
      NoChanges(busses, before, devs, n - 1);
      assert DeviceChanges(busses[n - 1], before[n - 1], devs) == 0;
    }
  }
}
