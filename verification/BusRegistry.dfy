/** usb_busses and each bus's devices, and the two scans that bring them up to date with
    libusb's enumeration. */
module BusRegistry {
  import opened Bytes
  import opened LinkedLists
  import opened Reconciliation

  datatype Descriptor = Descriptor(idVendor: U16, idProduct: U16)

  /** What initialize_device comes to for a device: its descriptor, or an error. */
  datatype Init = Ready(descriptor: Descriptor) | Broken

  /** One entry of libusb's device list. */
  datatype LibDev = LibDev(bus: Byte, address: Byte, init: Init)

  /** libusb_get_device_list: an error code, or the devices present, in libusb's order. */
  datatype Enumeration = Failed(code: int) | Listed(devs: seq<LibDev>)

  /** usb_bus and usb_device; the location and the devnum are the node's key. */
  datatype Bus = Bus(devices: List<Dev>)
  datatype Dev = Dev(bus: Node<Bus>, lib: LibDev)

  // ---- what the enumeration says ----

  function BusNumbers(devs: seq<LibDev>): set<Byte> {
    set d | d in devs :: d.bus
  }

  /** The bus numbers in the order in which libusb first mentions them. */
  function FirstSeen(devs: seq<LibDev>): (locations: seq<Byte>)
    ensures forall i, j :: 0 <= i < j < |locations| ==> locations[i] != locations[j]
    ensures forall l: Byte :: l in locations <==> l in BusNumbers(devs)
  {
    if devs == [] then []
    else
      var init, last := devs[..|devs| - 1], devs[|devs| - 1];
      assert devs == init + [last];
      assert BusNumbers(devs) == BusNumbers(init) + {last.bus};
      FirstSeen(init) + if last.bus in FirstSeen(init) then [] else [last.bus]
  }

  /** The elements of xs that are not in ks, in order. */
  function Missing(xs: seq<Byte>, ks: set<Byte>): seq<Byte> {
    if xs == [] then [] else (if xs[0] in ks then [] else [xs[0]]) + Missing(xs[1..], ks)
  }

  function OnBus(devs: seq<LibDev>, location: Byte): seq<LibDev> {
    if devs == [] then []
    else
      var last := devs[|devs| - 1];
      OnBus(devs[..|devs| - 1], location) + if last.bus == location then [last] else []
  }

  function Addresses(libs: seq<LibDev>): set<Byte> {
    set d | d in libs :: d.address
  }

  /** The devices that are not known yet and initialise, in order. */
  function Arrivals(libs: seq<LibDev>, known: set<Byte>): seq<LibDev> {
    if libs == [] then []
    else (if libs[0].address !in known && libs[0].init.Ready? then [libs[0]] else []) + Arrivals(libs[1..], known)
  }

  /** libusb lists a device once. */
  ghost predicate UniquePairs(devs: seq<LibDev>) {
    forall i, j :: 0 <= i < j < |devs| ==> devs[i].bus != devs[j].bus || devs[i].address != devs[j].address
  }

  // ---- busses ----

  /** The keys of nodes spell out locations backwards, as LIST_ADD leaves them. */
  ghost predicate KeyedBackwards(nodes: seq<Node<Bus>>, locations: seq<Byte>) {
    |nodes| == |locations| && forall i {:trigger nodes[i]} :: 0 <= i < |nodes| ==> nodes[i].key == locations[|nodes| - 1 - i]
  }

  lemma BackwardsKeys(nodes: seq<Node<Bus>>, locations: seq<Byte>)
    requires KeyedBackwards(nodes, locations)
    ensures forall l :: l in Keys(nodes) <==> l in locations
  {
    forall l | l in locations
      ensures l in Keys(nodes)
    {
      var i :| 0 <= i < |locations| && locations[i] == l;
      assert nodes[|nodes| - 1 - i].key == l;
    }
  }

  lemma BackwardsAdd(nodes: seq<Node<Bus>>, more: seq<Node<Bus>>, locations: seq<Byte>)
    requires KeyedBackwards(nodes, locations) && |more| > 0 && more[1..] == nodes
    ensures KeyedBackwards(more, locations + [more[0].key])
  {
    forall i | 0 <= i < |more|
      ensures more[i].key == (locations + [more[0].key])[|more| - 1 - i]
    {
      if i > 0 {
        assert more[i] == nodes[i - 1];
      }
    }
  }

  /** Every bus is new and has an empty device list of its own. */
  ghost predicate NewBusses(nodes: seq<Node<Bus>>)
    reads set n | n in nodes :: n.val.devices
  {
    && DistinctLists(nodes)
    && forall i {:trigger nodes[i]} :: 0 <= i < |nodes| ==> Blank(nodes[i])
  }

  /** find_busses: one new bus for each bus number, de-duplicated against the list so far. */
  method FindBusses(devs: seq<LibDev>) returns (busses: List<Bus>)
    ensures fresh(busses) && busses.Valid() && KeyedBackwards(busses.nodes, FirstSeen(devs))
    ensures NewBusses(busses.nodes)
    ensures forall i {:trigger busses.nodes[i]} :: 0 <= i < |busses.nodes| ==>
              fresh(busses.nodes[i]) && fresh(busses.nodes[i].val.devices)
  {
    hide Linked, FirstSeen, KeyedBackwards;
    busses := new List<Bus>();
    NoneSeen(busses.nodes, devs[..0]);
    for i := 0 to |devs|
      invariant fresh(busses) && busses.Valid() && KeyedBackwards(busses.nodes, FirstSeen(devs[..i]))
      invariant NewBusses(busses.nodes)
      invariant forall i {:trigger busses.nodes[i]} :: 0 <= i < |busses.nodes| ==>
                  fresh(busses.nodes[i]) && fresh(busses.nodes[i].val.devices)
    {
      var busNum := devs[i].bus;
      SeenStep(devs, i);
      BackwardsKeys(busses.nodes, FirstSeen(devs[..i]));
      var known := HasLocation(busses, busNum);
      if !known {
        ghost var nodes := busses.nodes;
        AddNewBus(busses, busNum);
        BackwardsAdd(nodes, busses.nodes, FirstSeen(devs[..i]));
      }
    }
    assert devs[..|devs|] == devs;
  }

  lemma SeenStep(devs: seq<LibDev>, i: nat)
    requires i < |devs|
    ensures FirstSeen(devs[..i + 1]) == FirstSeen(devs[..i]) + if devs[i].bus in FirstSeen(devs[..i]) then [] else [devs[i].bus]
    ensures devs[i].bus in FirstSeen(devs[..i]) ==> FirstSeen(devs[..i + 1]) == FirstSeen(devs[..i])
  {
    assert devs[..i + 1][..i] == devs[..i];
  }

  lemma NoneSeen(nodes: seq<Node<Bus>>, devs: seq<LibDev>)
    requires nodes == [] && devs == []
    ensures KeyedBackwards(nodes, FirstSeen(devs))
  {
  }

  /** usbcompat.h:405-412: a zeroed bus, linked at the front. */
  method AddNewBus(busses: List<Bus>, busNum: Byte)
    requires busses.Valid() && NewBusses(busses.nodes)
    modifies busses, busses.nodes
    ensures busses.Valid() && NewBusses(busses.nodes)
    ensures |busses.nodes| > 0 && busses.nodes[1..] == old(busses.nodes) && busses.nodes[0].key == busNum
    ensures fresh(busses.nodes[0]) && fresh(busses.nodes[0].val.devices)
  {
    hide Linked;
    ghost var nodes := busses.nodes;
    var devices := new List<Dev>();
    var bus := new Node<Bus>(busNum, Bus(devices));
    HeadIs(devices);
    assert NewBusses(nodes);
    OneMoreBus(bus, nodes);
    busses.Add(bus);
  }

  lemma OneMoreBus(bus: Node<Bus>, nodes: seq<Node<Bus>>)
    requires NewBusses(nodes) && Blank(bus) && forall n | n in nodes :: n.val.devices != bus.val.devices
    ensures NewBusses([bus] + nodes)
  {
  }

  /** The do-while search of find_busses. */
  method HasLocation(busses: List<Bus>, location: Byte) returns (found: bool)
    requires busses.Valid()
    ensures found <==> location in Keys(busses.nodes)
  {
    var bus := busses.head;
    ghost var i := 0;
    while bus != null
      invariant 0 <= i <= |busses.nodes|
      invariant bus == if i < |busses.nodes| then busses.nodes[i] else null
      invariant forall j :: 0 <= j < i ==> busses.nodes[j].key != location
      decreases |busses.nodes| - i
    {
      if bus.key == location {
        return true;
      }
      bus := bus.next;
      i := i + 1;
    }
    return false;
  }

  /** Every bus has a device list of its own. */
  ghost predicate DistinctLists(busses: seq<Node<Bus>>) {
    forall x, y | x in busses && y in busses && x != y :: x.val.devices != y.val.devices
  }

  /** The busses after usb_find_busses: the new locations in the order libusb first mentions
      them, then the known busses still present, the same nodes in the same order. */
  ghost predicate BussesReconciled(before: seq<Node<Bus>>, devs: seq<LibDev>, after: seq<Node<Bus>>) {
    var added := Missing(FirstSeen(devs), Keys(before));
    && |added| <= |after|
    && (forall i {:trigger after[i]} :: 0 <= i < |added| ==> after[i].key == added[i])
    && after[|added|..] == Keep(before, BusNumbers(devs))
  }

  /** Busses removed plus busses added. */
  ghost function BusChanges(before: seq<Node<Bus>>, devs: seq<LibDev>): int {
    |before| - |Keep(before, BusNumbers(devs))| + |Missing(FirstSeen(devs), Keys(before))|
  }

  lemma {:induction false} LeftoverBusses(nodes: seq<Node<Bus>>, locations: seq<Byte>, ks: set<Byte>)
    requires KeyedBackwards(nodes, locations)
    ensures var left, missing := Reversed(Drop(nodes, ks)), Missing(locations, ks);
            |left| == |missing| && forall i {:trigger left[i]} :: 0 <= i < |left| ==> left[i].key == missing[i]
  {
    hide Reversed, Drop;
    if nodes == [] {
      NoBusses(nodes, locations, ks);
    } else {
      var init, last := nodes[..|nodes| - 1], nodes[|nodes| - 1];
      assert KeyedBackwards(init, locations[1..]);
      LeftoverBusses(init, locations[1..], ks);
      assert last.key == locations[0] && nodes == init + [last];
      DropSnoc(init, last, ks);
      if last.key in ks {
        assert Drop(nodes, ks) == Drop(init, ks);
      } else {
        ReversedSnoc(Drop(init, ks), last);
      }
    }
  }

  lemma NoBusses(nodes: seq<Node<Bus>>, locations: seq<Byte>, ks: set<Byte>)
    requires nodes == [] && locations == []
    ensures Reversed(Drop(nodes, ks)) == [] && Missing(locations, ks) == []
  {
  }

  lemma {:induction false} AdmittedAll<T>(nodes: seq<Node<T>>, admit: T -> bool)
    requires forall n | n in nodes :: admit(n.val)
    ensures Admitted(nodes, admit) == nodes
  {
    hide Admitted;
    if nodes == [] {
      NonePushed(nodes, admit, []);
      assert nodes[..0] == nodes;
    } else {
      var init, last := nodes[..|nodes| - 1], nodes[|nodes| - 1];
      assert nodes == init + [last] && last in nodes;
      AdmittedAll(init, admit);
      AdmittedSnoc(init, last, admit);
    }
  }

  lemma FirstSeenKeys(N: seq<Node<Bus>>, devs: seq<LibDev>)
    requires KeyedBackwards(N, FirstSeen(devs))
    ensures Keys(N) == BusNumbers(devs) && DistinctKeys(N)
  {
    BackwardsKeys(N, FirstSeen(devs));
    forall i, j | 0 <= i < j < |N|
      ensures N[i].key != N[j].key
    {
      var a, b := |N| - 1 - j, |N| - 1 - i;
      assert FirstSeen(devs)[a] != FirstSeen(devs)[b];
    }
  }

  predicate AnyBus(b: Bus) {
    true
  }

  /** Cancelling and moving, put together. */
  lemma BussesResult(before: seq<Node<Bus>>, devs: seq<LibDev>, N: seq<Node<Bus>>)
    requires KeyedBackwards(N, FirstSeen(devs)) && DistinctKeys(before)
    ensures DistinctKeys(N)
    ensures var added, kept := Admitted(Drop(N, Keys(before)), AnyBus), Keep(before, Keys(N));
            var after := Reversed(added) + kept;
            && BussesReconciled(before, devs, after) && DistinctKeys(after)
            && BusChanges(before, devs) == |before| - |kept| + |added|
  {
    FirstSeenKeys(N, devs);
    LeftoverBusses(N, FirstSeen(devs), Keys(before));
    AdmittedAll(Drop(N, Keys(before)), AnyBus);
    var added, kept := Reversed(Drop(N, Keys(before))), Keep(before, Keys(N));
    assert (added + kept)[|added|..] == kept;
    DropMembers(N, Keys(before));
    DropKeepsDistinct(N, Keys(before));
    KeepMembers(before, Keys(N));
    KeepKeepsDistinct(before, Keys(N));
  }

  /** The count is that of the busses gone and the busses come. */
  lemma BusChangesCount(before: seq<Node<Bus>>, devs: seq<LibDev>, after: seq<Node<Bus>>)
    requires DistinctKeys(before) && DistinctKeys(after) && BussesReconciled(before, devs, after)
    ensures BusChanges(before, devs) == |set b | b in before && b !in after| + |set b | b in after && b !in before|
  {
    hide FirstSeen, Missing, Keep, Keys;
    var n := |Missing(FirstSeen(devs), Keys(before))|;
    var added := after[..n];
    MissingMembers(FirstSeen(devs), Keys(before));
    forall i | 0 <= i < n
      ensures added[i].key !in Keys(before)
    {
      assert added[i].key == Missing(FirstSeen(devs), Keys(before))[i];
    }
    assert after == added + Keep(before, BusNumbers(devs));
    CountChanges(before, added, BusNumbers(devs));
    assert (set b | b in before && b !in after) == Members(before) - Members(after);
    assert (set b | b in after && b !in before) == Members(after) - Members(before);
  }

  lemma {:induction false} MissingMembers(xs: seq<Byte>, ks: set<Byte>)
    ensures forall x :: x in Missing(xs, ks) <==> x in xs && x !in ks
  {
    if xs != [] {
      MissingMembers(xs[1..], ks);
      assert xs == [xs[0]] + xs[1..];
    }
  }

  /** usbcompat.h:448-491: cancel and move. */
  method MergeBusses(busses: List<Bus>, found: List<Bus>, devs: seq<LibDev>, ghost region: set<Node<Bus>>)
    returns (changes: int)
    requires busses.Valid() && found.Valid() && Apart(found, busses, region)
    requires DistinctKeys(busses.nodes) && KeyedBackwards(found.nodes, FirstSeen(devs))
    modifies busses, found, region
    ensures busses.Valid() && DistinctKeys(busses.nodes)
    ensures BussesReconciled(old(busses.nodes), devs, busses.nodes)
    ensures changes == BusChanges(old(busses.nodes), devs)
    ensures forall b | b in busses.nodes :: b in region
    ensures old(NoneLost(busses, found, region)) ==> forall b | b in region :: b.live <==> b in busses.nodes
  {
    BussesResult(busses.nodes, devs, found.nodes);
    changes := Reconcile(busses, found, AnyBus, region);
  }

  /** The body of usb_find_busses. */
  method ReconcileBusses(busses: List<Bus>, devs: seq<LibDev>) returns (changes: int)
    requires busses.Valid() && DistinctKeys(busses.nodes) && DistinctLists(busses.nodes)
    modifies busses, busses.nodes
    ensures busses.Valid() && DistinctKeys(busses.nodes) && DistinctLists(busses.nodes)
    ensures BussesReconciled(old(busses.nodes), devs, busses.nodes)
    ensures changes == BusChanges(old(busses.nodes), devs)
    ensures forall b | b in busses.nodes :: b in old(busses.nodes) || (Blank(b) && fresh(b) && fresh(b.val.devices))
    ensures forall b | b in old(busses.nodes) :: b.live <==> b in busses.nodes
  {
    hide Linked, KeyedBackwards, FirstSeen, BussesReconciled, BusChanges, DistinctKeys, NoneLost;
    var found := FindBusses(devs);
    ghost var N := found.nodes;
    ghost var region: set<Node<Bus>> := set n | n in busses.nodes || n in N;
    assert forall x, y | x in region && y in region && x != y :: x.val.devices != y.val.devices;
    assert Apart(found, busses, region);
    AllListed(busses, found, region);
    changes := MergeBusses(busses, found, devs, region);
    assert forall b | b in N :: Blank(b);
  }

  /** A bus with no devices. */
  ghost predicate Blank(b: Node<Bus>)
    reads b.val.devices
  {
    b.val.devices.head == null && b.val.devices.nodes == []
  }

  // ---- devices ----

  /** A device list as the registry keeps it: entries of this bus, initialised, numbers distinct. */
  ghost predicate GoodBus(bus: Node<Bus>)
    reads bus.val.devices, bus.val.devices.nodes
  {
    var devices := bus.val.devices;
    && devices.Valid() && DistinctKeys(devices.nodes)
    && forall i {:trigger devices.nodes[i]} :: 0 <= i < |devices.nodes| ==> GoodDevice(bus, devices.nodes[i])
  }

  ghost predicate GoodDevice(bus: Node<Bus>, d: Node<Dev>) {
    d.val.bus == bus && d.val.lib.bus == bus.key && d.val.lib.address == d.key && d.val.lib.init.Ready?
  }

  lemma BlankIsGood(b: Node<Bus>)
    requires Blank(b)
    ensures GoodBus(b)
  {
  }

  /** The devices of a bus after usb_find_devices: the new ones that initialised, in libusb's
      order, then the known ones still present, the same nodes in the same order. */
  ghost predicate DevicesReconciled(bus: Node<Bus>, before: seq<Node<Dev>>, devs: seq<LibDev>, after: seq<Node<Dev>>) {
    var libs := OnBus(devs, bus.key);
    var added := Arrivals(libs, Keys(before));
    && |added| <= |after| && Holds(bus, after[..|added|], added)
    && after[|added|..] == Keep(before, Addresses(libs))
  }

  ghost function DeviceChanges(bus: Node<Bus>, before: seq<Node<Dev>>, devs: seq<LibDev>): int {
    var libs := OnBus(devs, bus.key);
    |before| - |Keep(before, Addresses(libs))| + |Arrivals(libs, Keys(before))|
  }

  /** nodes are this bus's entries for libs. */
  ghost predicate Holds(bus: Node<Bus>, nodes: seq<Node<Dev>>, libs: seq<LibDev>) {
    |nodes| == |libs| && forall i {:trigger nodes[i]} :: 0 <= i < |nodes| ==>
      nodes[i].key == libs[i].address && nodes[i].val == Dev(bus, libs[i])
  }

  /** nodes hold libs backwards, as LIST_ADD leaves them. */
  ghost predicate HoldsBackwards(bus: Node<Bus>, nodes: seq<Node<Dev>>, libs: seq<LibDev>) {
    |nodes| == |libs| && forall i {:trigger nodes[i]} :: 0 <= i < |nodes| ==>
      nodes[i].key == libs[|nodes| - 1 - i].address && nodes[i].val == Dev(bus, libs[|nodes| - 1 - i])
  }

  /** find_devices: one entry for each libusb device on the bus. */
  method FindDevices(devs: seq<LibDev>, bus: Node<Bus>) returns (devices: List<Dev>)
    ensures fresh(devices) && devices.Valid() && HoldsBackwards(bus, devices.nodes, OnBus(devs, bus.key))
    ensures forall i {:trigger devices.nodes[i]} :: 0 <= i < |devices.nodes| ==> fresh(devices.nodes[i])
  {
    hide Linked, HoldsBackwards, OnBus;
    devices := new List<Dev>();
    NoneHeld(bus, devices.nodes, devs[..0]);
    for i := 0 to |devs|
      invariant fresh(devices) && devices.Valid() && HoldsBackwards(bus, devices.nodes, OnBus(devs[..i], bus.key))
      invariant forall i {:trigger devices.nodes[i]} :: 0 <= i < |devices.nodes| ==> fresh(devices.nodes[i])
    {
      OnBusStep(devs, i, bus.key);
      var newlibDev := devs[i];
      if newlibDev.bus != bus.key {
        continue;
      }
      ghost var nodes := devices.nodes;
      var dev := new Node<Dev>(newlibDev.address, Dev(bus, newlibDev));
      devices.Add(dev);
      OneMoreHeld(bus, dev, nodes, OnBus(devs[..i], bus.key), newlibDev);
    }
    assert devs[..|devs|] == devs;
  }

  lemma OnBusStep(devs: seq<LibDev>, i: nat, location: Byte)
    requires i < |devs|
    ensures OnBus(devs[..i + 1], location) == if devs[i].bus == location then OnBus(devs[..i], location) + [devs[i]] else OnBus(devs[..i], location)
  {
    assert devs[..i + 1][..i] == devs[..i];
  }

  lemma NoneHeld(bus: Node<Bus>, nodes: seq<Node<Dev>>, devs: seq<LibDev>)
    requires nodes == [] && devs == []
    ensures HoldsBackwards(bus, nodes, OnBus(devs, bus.key))
  {
  }

  lemma OneMoreHeld(bus: Node<Bus>, n: Node<Dev>, nodes: seq<Node<Dev>>, libs: seq<LibDev>, l: LibDev)
    requires HoldsBackwards(bus, nodes, libs) && n.key == l.address && n.val == Dev(bus, l)
    ensures HoldsBackwards(bus, [n] + nodes, libs + [l])
  {
    var more := [n] + nodes;
    assert forall i :: 1 <= i < |more| ==> more[i] == nodes[i - 1];
  }

  predicate Initialises(d: Dev) {
    d.lib.init.Ready?
  }

  lemma {:induction false} LeftoverDevices(bus: Node<Bus>, nodes: seq<Node<Dev>>, libs: seq<LibDev>, ks: set<Byte>)
    requires HoldsBackwards(bus, nodes, libs)
    ensures Holds(bus, Reversed(Admitted(Drop(nodes, ks), Initialises)), Arrivals(libs, ks))
  {
    hide Reversed, Admitted, Drop, Holds;
    if nodes == [] {
      NoLeftovers(bus, nodes, libs, ks);
    } else {
      var init, last := nodes[..|nodes| - 1], nodes[|nodes| - 1];
      assert HoldsBackwards(bus, init, libs[1..]);
      LeftoverDevices(bus, init, libs[1..], ks);
      assert last.val == Dev(bus, libs[0]) && last.key == libs[0].address && nodes == init + [last];
      DropSnoc(init, last, ks);
      var rest := Drop(init, ks);
      if last.key in ks {
        assert Drop(nodes, ks) == rest && Arrivals(libs, ks) == Arrivals(libs[1..], ks);
      } else {
        AdmittedSnoc(rest, last, Initialises);
        if Initialises(last.val) {
          ReversedSnoc(Admitted(rest, Initialises), last);
          HoldsCons(bus, last, Reversed(Admitted(rest, Initialises)), libs[0], Arrivals(libs[1..], ks));
          assert Arrivals(libs, ks) == [libs[0]] + Arrivals(libs[1..], ks);
        } else {
          assert Arrivals(libs, ks) == Arrivals(libs[1..], ks);
        }
      }
    }
  }

  lemma NoLeftovers(bus: Node<Bus>, nodes: seq<Node<Dev>>, libs: seq<LibDev>, ks: set<Byte>)
    requires nodes == [] && libs == []
    ensures Holds(bus, Reversed(Admitted(Drop(nodes, ks), Initialises)), Arrivals(libs, ks))
  {
  }

  lemma HoldsCons(bus: Node<Bus>, n: Node<Dev>, nodes: seq<Node<Dev>>, l: LibDev, libs: seq<LibDev>)
    requires Holds(bus, nodes, libs) && n.key == l.address && n.val == Dev(bus, l)
    ensures Holds(bus, [n] + nodes, [l] + libs)
  {
  }

  lemma {:induction false} OnBusMembers(devs: seq<LibDev>, location: Byte)
    ensures forall i {:trigger OnBus(devs, location)[i]} :: 0 <= i < |OnBus(devs, location)| ==>
              OnBus(devs, location)[i] in devs && OnBus(devs, location)[i].bus == location
  {
    if devs != [] {
      OnBusMembers(devs[..|devs| - 1], location);
      assert devs == devs[..|devs| - 1] + [devs[|devs| - 1]];
    }
  }

  ghost predicate DistinctAddresses(libs: seq<LibDev>) {
    forall i, j :: 0 <= i < j < |libs| ==> libs[i].address != libs[j].address
  }

  /** A bus sees each address once when libusb lists each device once. */
  lemma {:induction false} OnBusDistinct(devs: seq<LibDev>, location: Byte)
    requires UniquePairs(devs)
    ensures DistinctAddresses(OnBus(devs, location))
  {
    if devs != [] {
      var init, last := devs[..|devs| - 1], devs[|devs| - 1];
      var libs := OnBus(init, location);
      OnBusDistinct(init, location);
      OnBusMembers(init, location);
      if last.bus == location {
        forall i | 0 <= i < |libs|
          ensures libs[i].address != last.address
        {
          assert libs[i] in init && libs[i].bus == location;
          var k :| 0 <= k < |init| && init[k] == libs[i];
          assert devs[k] == libs[i] && devs[|init|] == last;
        }
      }
    }
  }

  lemma {:induction false} ArrivalsMembers(libs: seq<LibDev>, known: set<Byte>)
    requires DistinctAddresses(libs)
    ensures DistinctAddresses(Arrivals(libs, known))
    ensures forall i {:trigger Arrivals(libs, known)[i]} :: 0 <= i < |Arrivals(libs, known)| ==>
              var l := Arrivals(libs, known)[i]; l in libs && l.address !in known && l.init.Ready?
  {
    if libs != [] {
      var rest := libs[1..];
      ArrivalsMembers(rest, known);
      forall i | 0 <= i < |Arrivals(rest, known)|
        ensures Arrivals(rest, known)[i].address != libs[0].address
      {
        assert Arrivals(rest, known)[i] in rest;
        var k :| 0 <= k < |rest| && rest[k] == Arrivals(rest, known)[i];
        assert libs[k + 1] == rest[k];
      }
    }
  }

  lemma HeldKeys(bus: Node<Bus>, nodes: seq<Node<Dev>>, libs: seq<LibDev>)
    requires HoldsBackwards(bus, nodes, libs)
    ensures Keys(nodes) == Addresses(libs)
  {
    forall l | l in Addresses(libs)
      ensures l in Keys(nodes)
    {
      var i :| 0 <= i < |libs| && libs[i].address == l;
      assert nodes[|nodes| - 1 - i].key == l;
    }
  }

  lemma HeldDistinct(bus: Node<Bus>, nodes: seq<Node<Dev>>, devs: seq<LibDev>)
    requires UniquePairs(devs) && HoldsBackwards(bus, nodes, OnBus(devs, bus.key))
    ensures DistinctKeys(nodes)
  {
    OnBusDistinct(devs, bus.key);
    var libs := OnBus(devs, bus.key);
    forall i, j | 0 <= i < j < |nodes|
      ensures nodes[i].key != nodes[j].key
    {
      var a, b := |nodes| - 1 - j, |nodes| - 1 - i;
      assert libs[a].address != libs[b].address;
    }
  }

  /** Reconciling keeps a bus's device list good: numbers stay distinct, every entry belongs to
      the bus and is initialised. */
  lemma ReconciledStaysGood(bus: Node<Bus>, before: seq<Node<Dev>>, devs: seq<LibDev>, after: seq<Node<Dev>>)
    requires UniquePairs(devs) && DevicesReconciled(bus, before, devs, after)
    requires DistinctKeys(before) && forall i {:trigger before[i]} :: 0 <= i < |before| ==> GoodDevice(bus, before[i])
    ensures DistinctKeys(after) && forall i {:trigger after[i]} :: 0 <= i < |after| ==> GoodDevice(bus, after[i])
  {
    var libs := OnBus(devs, bus.key);
    var added, kept := Arrivals(libs, Keys(before)), Keep(before, Addresses(libs));
    OnBusDistinct(devs, bus.key);
    OnBusMembers(devs, bus.key);
    ArrivalsMembers(libs, Keys(before));
    KeepMembers(before, Addresses(libs));
    KeepKeepsDistinct(before, Addresses(libs));
    forall i | 0 <= i < |after|
      ensures GoodDevice(bus, after[i])
      ensures i < |added| ==> after[i].key == added[i].address && after[i].key !in Keys(before)
      ensures i >= |added| ==> after[i].key == kept[i - |added|].key && after[i].key in Keys(before)
    {
      if i < |added| {
        assert after[i] == after[..|added|][i];
        assert added[i] in libs;
        var k :| 0 <= k < |libs| && libs[k] == added[i];
        assert libs[k].bus == bus.key;
      } else {
        assert after[i] == after[|added|..][i - |added|] == kept[i - |added|];
        assert kept[i - |added|] in before;
      }
    }
  }

  /** Cancelling and moving, put together. */
  lemma DevicesResult(bus: Node<Bus>, before: seq<Node<Dev>>, devs: seq<LibDev>, N: seq<Node<Dev>>)
    requires UniquePairs(devs) && HoldsBackwards(bus, N, OnBus(devs, bus.key))
    requires DistinctKeys(before) && forall i {:trigger before[i]} :: 0 <= i < |before| ==> GoodDevice(bus, before[i])
    ensures DistinctKeys(N)
    ensures var arrived, kept := Admitted(Drop(N, Keys(before)), Initialises), Keep(before, Keys(N));
            var after := Reversed(arrived) + kept;
            && DevicesReconciled(bus, before, devs, after)
            && DeviceChanges(bus, before, devs) == |before| - |kept| + |arrived|
            && DistinctKeys(after) && forall i {:trigger after[i]} :: 0 <= i < |after| ==> GoodDevice(bus, after[i])
  {
    var libs := OnBus(devs, bus.key);
    HeldKeys(bus, N, libs);
    HeldDistinct(bus, N, devs);
    LeftoverDevices(bus, N, libs, Keys(before));
    var arrived, kept := Reversed(Admitted(Drop(N, Keys(before)), Initialises)), Keep(before, Keys(N));
    assert (arrived + kept)[..|arrived|] == arrived && (arrived + kept)[|arrived|..] == kept;
    ReconciledStaysGood(bus, before, devs, arrived + kept);
  }

  /** The count is that of the devices gone and the devices come. */
  lemma DeviceChangesCount(bus: Node<Bus>, before: seq<Node<Dev>>, devs: seq<LibDev>, after: seq<Node<Dev>>)
    requires UniquePairs(devs) && DevicesReconciled(bus, before, devs, after)
    requires DistinctKeys(before) && DistinctKeys(after)
    ensures DeviceChanges(bus, before, devs) == |Members(before) - Members(after)| + |Members(after) - Members(before)|
  {
    hide OnBus, Arrivals, Keep, Keys, Addresses, UniquePairs;
    var libs := OnBus(devs, bus.key);
    var arrivals := Arrivals(libs, Keys(before));
    var added := after[..|arrivals|];
    OnBusDistinct(devs, bus.key);
    ArrivalsMembers(libs, Keys(before));
    forall i | 0 <= i < |added|
      ensures added[i].key !in Keys(before)
    {
      assert added[i].key == arrivals[i].address;
    }
    assert after == added + Keep(before, Addresses(libs));
    CountChanges(before, added, Addresses(libs));
  }

  /** The body of usb_find_devices' loop, for one bus. */
  method ReconcileBus(devs: seq<LibDev>, bus: Node<Bus>) returns (changes: int)
    requires UniquePairs(devs) && GoodBus(bus)
    modifies bus.val.devices, bus.val.devices.nodes
    ensures GoodBus(bus)
    ensures DevicesReconciled(bus, old(bus.val.devices.nodes), devs, bus.val.devices.nodes)
    ensures changes == DeviceChanges(bus, old(bus.val.devices.nodes), devs)
    ensures forall i {:trigger bus.val.devices.nodes[i]} :: 0 <= i < |bus.val.devices.nodes| ==>
              fresh(bus.val.devices.nodes[i]) || bus.val.devices.nodes[i] in old(bus.val.devices.nodes)
    ensures forall d | d in old(bus.val.devices.nodes) :: d.live <==> d in bus.val.devices.nodes
  {
    hide Linked, Keep, Drop, Keys, Admitted, Reversed, DevicesReconciled, DeviceChanges, HoldsBackwards, UniquePairs, DistinctKeys, NoneLost;
    var known := bus.val.devices;
    var found := FindDevices(devs, bus);
    ghost var before, N := known.nodes, found.nodes;
    ghost var region: set<Node<Dev>> := set n | n in before + N;
    DevicesResult(bus, before, devs, N);
    assert Apart(found, known, region);
    AllListed(known, found, region);
    changes := Reconcile(known, found, Initialises, region);
  }

  lemma AllListed<T>(known: List<T>, found: List<T>, region: set<Node<T>>)
    requires region == set n | n in known.nodes + found.nodes
    ensures NoneLost(known, found, region)
  {
  }

  // ---- the registry ----

  class Registry {
    const busses: List<Bus>
    var ready: bool  // ctx, set by usb_init

    constructor ()
      ensures Valid() && busses.nodes == []
    {
      busses := new List<Bus>();
      ready := false;
    }

    ghost function Lists(): set<List<Dev>>
      reads busses
    {
      set b | b in busses.nodes :: b.val.devices
    }

    ghost function DeviceNodes(): set<Node<Dev>>
      reads busses, Lists()
      ensures forall b, d | b in busses.nodes && d in b.val.devices.nodes :: d in DeviceNodes()
    {
      set b, d | b in busses.nodes && d in b.val.devices.nodes :: d
    }

    /** Both levels are well-formed doubly linked lists; locations are unique, device numbers
        are unique on each bus, and no two busses share a device list. */
    ghost predicate Valid()
      reads busses, busses.nodes, Lists(), DeviceNodes()
    {
      && busses.Valid() && DistinctKeys(busses.nodes) && DistinctLists(busses.nodes)
      && forall b | b in busses.nodes :: GoodBus(b)
    }

    /** The devices of each bus, in the order of the busses. */
    ghost function Devices(): (devices: seq<seq<Node<Dev>>>)
      reads busses, Lists()
      ensures |devices| == |busses.nodes|
      ensures forall i {:trigger busses.nodes[i]} :: 0 <= i < |devices| ==> devices[i] == busses.nodes[i].val.devices.nodes
    {
      seq(|busses.nodes|, i requires 0 <= i < |busses.nodes| reads busses, Lists() => busses.nodes[i].val.devices.nodes)
    }

    /** usb_find_busses */
    method UsbFindBusses(enumeration: Enumeration) returns (ret: int)
      requires Valid()
      modifies busses, busses.nodes
      ensures Valid()
      ensures !ready ==> ret == 0
      ensures ready && enumeration.Failed? ==> ret == enumeration.code
      ensures if ready && enumeration.Listed?
              then BussesReconciled(old(busses.nodes), enumeration.devs, busses.nodes)
                && ret == BusChanges(old(busses.nodes), enumeration.devs)
              else busses.nodes == old(busses.nodes)
      ensures ready && enumeration.Listed? ==>
                ret == |set b | b in old(busses.nodes) && b !in busses.nodes| + |set b | b in busses.nodes && b !in old(busses.nodes)|
      ensures forall b | b in busses.nodes ::
                b.val.devices.nodes == if b in old(busses.nodes) then old(b.val.devices.nodes) else []
      ensures forall b | b in busses.nodes :: b in old(busses.nodes) || (fresh(b) && fresh(b.val.devices))
    {
      if !ready {
        return 0;
      }
      match enumeration
      case Failed(code) => return code;
      case Listed(devs) =>
        hide BussesReconciled, BusChanges, Linked;
        ghost var before := busses.nodes;
        ret := ReconcileBusses(busses, devs);
        BusChangesCount(before, devs, busses.nodes);
        assert forall b | b in before :: GoodBus(b);
        forall b | b in busses.nodes && Blank(b)
          ensures GoodBus(b)
        {
          BlankIsGood(b);
        }
    }

    /** One turn of usb_find_devices: only this bus's devices change. */
    method UpdateBus(devs: seq<LibDev>, bus: Node<Bus>) returns (changes: int)
      requires Valid() && UniquePairs(devs) && bus in busses.nodes
      modifies bus.val.devices, bus.val.devices.nodes
      ensures Valid()
      ensures DevicesReconciled(bus, old(bus.val.devices.nodes), devs, bus.val.devices.nodes)
      ensures changes == DeviceChanges(bus, old(bus.val.devices.nodes), devs)
      ensures forall b | b in busses.nodes && b != bus :: b.val.devices.nodes == old(b.val.devices.nodes)
      ensures forall d | d in bus.val.devices.nodes :: fresh(d) || d in old(bus.val.devices.nodes)
    {
      hide DevicesReconciled, DeviceChanges, UniquePairs, DistinctKeys, Linked;
      assert forall b, d | b in busses.nodes && d in b.val.devices.nodes :: d.val.bus == b;
      changes := ReconcileBus(devs, bus);
      assert forall b | b in busses.nodes && b != bus :: GoodBus(b);
    }

    /** The i-th turn, seen from the whole walk; D has the device entries from before it. */
    method UpdateNth(devs: seq<LibDev>, bus: Node<Bus>, ghost i: nat,
                     ghost before: seq<seq<Node<Dev>>>, ghost L: set<List<Dev>>, ghost D: set<Node<Dev>>)
      returns (following: Node?<Bus>, changes: int)
      requires Valid() && UniquePairs(devs) && i < |busses.nodes| == |before| && bus == busses.nodes[i]
      requires AllReconciled(busses.nodes, before, devs, i)
      requires Lists() == L && forall d | d in before[i] :: d in D
      modifies L, D
      ensures Valid()
      ensures AllReconciled(busses.nodes, before, devs, i + 1)
      ensures changes == DeviceChanges(bus, before[i], devs)
      ensures forall b, d | b in busses.nodes && d in b.val.devices.nodes :: d in old(b.val.devices.nodes) || fresh(d)
      ensures following == if i + 1 < |busses.nodes| then busses.nodes[i + 1] else null
    {
      hide DevicesReconciled, DeviceChanges, GoodBus, DistinctKeys, DistinctLists, UniquePairs;
      ghost var B := busses.nodes;
      assert bus.val.devices.nodes == before[i];
      changes := UpdateBus(devs, bus);
      following := bus.next;
      assert forall j {:trigger B[j]} :: 0 <= j < |B| && j != i ==> B[j] != bus;
    }

    lemma AllDevicesAreOurs(before: seq<seq<Node<Dev>>>, devs: seq<LibDev>)
      requires |before| == |busses.nodes| && AllReconciled(busses.nodes, before, devs, 0)
      ensures forall i, d | 0 <= i < |before| && d in before[i] :: d in DeviceNodes()
    {
      forall i, d | 0 <= i < |before| && d in before[i]
        ensures d in DeviceNodes()
      {
        assert busses.nodes[i] in busses.nodes && before[i] == busses.nodes[i].val.devices.nodes;
      }
    }

    /** The walk of usb_find_devices over the busses. */
    method UpdateAll(devs: seq<LibDev>, ghost before: seq<seq<Node<Dev>>>) returns (changes: int)
      requires Valid() && UniquePairs(devs)
      requires |before| == |busses.nodes| && AllReconciled(busses.nodes, before, devs, 0)
      modifies Lists(), DeviceNodes()
      ensures Valid()
      ensures forall b, d | b in busses.nodes && d in b.val.devices.nodes :: d in old(DeviceNodes()) || fresh(d)
      ensures AllReconciled(busses.nodes, before, devs, |before|)
      ensures changes == AllChanges(busses.nodes, before, devs, |before|)
    {
      hide AllReconciled, DevicesReconciled, DeviceChanges, GoodBus, DistinctKeys, DistinctLists, UniquePairs;
      ghost var B, L, D := busses.nodes, Lists(), DeviceNodes();
      AllDevicesAreOurs(before, devs);
      ghost var i := 0;
      changes := 0;
      var bus := busses.head;
      while bus != null
        invariant 0 <= i <= |B| && bus == if i < |B| then B[i] else null
        invariant Valid() && AllReconciled(B, before, devs, i)
        invariant forall b, d | b in B && d in b.val.devices.nodes :: d in D || fresh(d)
        invariant changes == AllChanges(B, before, devs, i)
        decreases |B| - i
      {
        var following, delta := UpdateNth(devs, bus, i, before, L, D);
        changes := changes + delta;
        bus := following;
        i := i + 1;
      }
    }

    /** usb_find_devices */
    method UsbFindDevices(enumeration: Enumeration) returns (ret: int)
      requires Valid()
      requires enumeration.Listed? ==> UniquePairs(enumeration.devs)
      modifies Lists(), DeviceNodes()
      ensures Valid()
      ensures forall b, d | b in busses.nodes && d in b.val.devices.nodes :: d in old(DeviceNodes()) || fresh(d)
      ensures !ready ==> ret == 0
      ensures ready && enumeration.Failed? ==> ret == enumeration.code
      ensures if ready && enumeration.Listed?
              then AllReconciled(busses.nodes, old(Devices()), enumeration.devs, |busses.nodes|)
                && ret == AllChanges(busses.nodes, old(Devices()), enumeration.devs, |busses.nodes|)
                && ret == |old(DeviceNodes()) - DeviceNodes()| + |DeviceNodes() - old(DeviceNodes())|
              else forall b | b in busses.nodes :: b.val.devices.nodes == old(b.val.devices.nodes)
      ensures ready && enumeration.Listed? ==>
                forall i {:trigger busses.nodes[i]} :: 0 <= i < |busses.nodes| ==>
                  DevicesReconciled(busses.nodes[i], old(Devices())[i], enumeration.devs, busses.nodes[i].val.devices.nodes)
    {
      if !ready {
        return 0;
      }
      match enumeration
      case Failed(code) => return code;
      case Listed(devs) =>
        hide DevicesReconciled, AllChanges, Gathered, OwnDevices, GoodBus, Linked, UniquePairs;
        ghost var before := Devices();
        DevicesByBus();
        ret := UpdateAll(devs, before);
        DevicesByBus();
        AllChangesCount(busses.nodes, before, devs, Devices(), |before|);
    }

    /** All the devices, gathered bus by bus. */
    lemma DevicesByBus()
      requires Valid()
      ensures DistinctKeys(busses.nodes)
      ensures forall i {:trigger busses.nodes[i]} :: 0 <= i < |busses.nodes| ==> OwnDevices(busses.nodes[i], Devices()[i])
      ensures DeviceNodes() == Gathered(Devices(), |busses.nodes|)
    {
      forall i | 0 <= i < |busses.nodes|
        ensures OwnDevices(busses.nodes[i], Devices()[i])
      {
        assert busses.nodes[i] in busses.nodes;
      }
      forall d | d in Gathered(Devices(), |busses.nodes|)
        ensures d in DeviceNodes()
      {
        var i := GatheredFrom(Devices(), |busses.nodes|, d);
        assert busses.nodes[i] in busses.nodes;
      }
      forall b, d | b in busses.nodes && d in b.val.devices.nodes
        ensures d in Gathered(Devices(), |busses.nodes|)
      {
        var i :| 0 <= i < |busses.nodes| && busses.nodes[i] == b;
        GatheredHas(Devices(), |busses.nodes|, i, d);
      }
    }
  }

  /** A bus's own device entries, with distinct numbers. */
  ghost predicate OwnDevices(bus: Node<Bus>, devices: seq<Node<Dev>>) {
    DistinctKeys(devices) && forall k {:trigger devices[k]} :: 0 <= k < |devices| ==> devices[k].val.bus == bus
  }

  /** The entries on the first n busses. */
  ghost function Gathered(devices: seq<seq<Node<Dev>>>, n: nat): set<Node<Dev>>
    requires n <= |devices|
  {
    if n == 0 then {} else Gathered(devices, n - 1) + Members(devices[n - 1])
  }

  lemma {:induction false} GatheredFrom(devices: seq<seq<Node<Dev>>>, n: nat, d: Node<Dev>) returns (i: nat)
    requires n <= |devices| && d in Gathered(devices, n)
    ensures i < n && d in devices[i]
  {
    if d in Gathered(devices, n - 1) {
      i := GatheredFrom(devices, n - 1, d);
    } else {
      i := n - 1;
    }
  }

  lemma {:induction false} GatheredHas(devices: seq<seq<Node<Dev>>>, n: nat, i: nat, d: Node<Dev>)
    requires i < n <= |devices| && d in devices[i]
    ensures d in Gathered(devices, n)
  {
    if i < n - 1 {
      GatheredHas(devices, n - 1, i, d);
    }
  }

  /** The total counts the devices gone from all busses and the devices come to any. */
  lemma {:induction false} AllChangesCount(busses: seq<Node<Bus>>, before: seq<seq<Node<Dev>>>, devs: seq<LibDev>, after: seq<seq<Node<Dev>>>, n: nat)
    requires n <= |busses| == |before| == |after| && DistinctKeys(busses) && UniquePairs(devs)
    requires forall i {:trigger busses[i]} :: 0 <= i < |busses| ==>
               OwnDevices(busses[i], before[i]) && OwnDevices(busses[i], after[i]) && DevicesReconciled(busses[i], before[i], devs, after[i])
    ensures AllChanges(busses, before, devs, n) ==
              |Gathered(before, n) - Gathered(after, n)| + |Gathered(after, n) - Gathered(before, n)|
  {
    hide DevicesReconciled, DeviceChanges, UniquePairs, OwnDevices, DistinctKeys;
    if n > 0 {
      var k := n - 1;
      AllChangesCount(busses, before, devs, after, k);
      DeviceChangesOf(busses[k], before[k], devs, after[k]);
      OthersApart(busses, before, after, k);
      OthersApart(busses, after, before, k);
      ApartCounts(Gathered(before, k), Gathered(after, k), Members(before[k]), Members(after[k]));
      ApartCounts(Gathered(after, k), Gathered(before, k), Members(after[k]), Members(before[k]));
    }
  }

  lemma DeviceChangesOf(bus: Node<Bus>, before: seq<Node<Dev>>, devs: seq<LibDev>, after: seq<Node<Dev>>)
    requires UniquePairs(devs) && DevicesReconciled(bus, before, devs, after) && OwnDevices(bus, before) && OwnDevices(bus, after)
    ensures DeviceChanges(bus, before, devs) == |Members(before) - Members(after)| + |Members(after) - Members(before)|
  {
    hide DevicesReconciled, DeviceChanges, UniquePairs;
    DeviceChangesCount(bus, before, devs, after);
  }

  /** The entries on earlier busses are none of bus k's. */
  lemma OthersApart(busses: seq<Node<Bus>>, x: seq<seq<Node<Dev>>>, y: seq<seq<Node<Dev>>>, k: nat)
    requires k < |busses| == |x| == |y| && DistinctKeys(busses)
    requires forall i {:trigger busses[i]} :: 0 <= i < |busses| ==> OwnDevices(busses[i], x[i]) && OwnDevices(busses[i], y[i])
    ensures Gathered(x, k) !! Members(x[k]) && Gathered(x, k) !! Members(y[k])
  {
    forall d | d in Gathered(x, k)
      ensures d.val.bus != busses[k]
    {
      var i := GatheredFrom(x, k, d);
      assert OwnDevices(busses[i], x[i]) && busses[i].key != busses[k].key;
    }
    assert OwnDevices(busses[k], x[k]) && OwnDevices(busses[k], y[k]);
  }

  lemma ApartCounts<T>(a: set<T>, b: set<T>, x: set<T>, y: set<T>)
    requires a !! x && a !! y && b !! x && b !! y
    ensures |(a + x) - (b + y)| == |a - b| + |x - y|
  {
    assert (a + x) - (b + y) == (a - b) + (x - y);
  }

  /** The first n busses are reconciled; the others have the devices they had before. */
  ghost predicate AllReconciled(busses: seq<Node<Bus>>, before: seq<seq<Node<Dev>>>, devs: seq<LibDev>, n: nat)
    requires n <= |busses| == |before|
    reads set b | b in busses :: b.val.devices
  {
    && (forall i {:trigger busses[i]} :: 0 <= i < n ==>
          DevicesReconciled(busses[i], before[i], devs, busses[i].val.devices.nodes))
    && (forall i {:trigger busses[i]} :: n <= i < |busses| ==> busses[i].val.devices.nodes == before[i])
  }

  /** Removals and successful additions, summed over the first n busses. */
  ghost function AllChanges(busses: seq<Node<Bus>>, before: seq<seq<Node<Dev>>>, devs: seq<LibDev>, n: nat): int
    requires n <= |busses| == |before|
  {
    if n == 0 then 0
    else AllChanges(busses, before, devs, n - 1) + DeviceChanges(busses[n - 1], before[n - 1], devs)
  }
}
