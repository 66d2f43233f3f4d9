/** The device picker: scanDevices, AmlScanUsbX3Devices, AmlGetDeviceHandle and update_scan. */
module DeviceScan {
  import opened Bytes
  import opened LinkedLists
  import opened Reconciliation
  import opened BusRegistry
  import opened RegistryRuns

  const AML_DEVICE := Descriptor(0x1B8E, 0xC003)

  // ---- names ----

  function Digit(n: nat): char
    requires n < 10
  {
    "0123456789"[n]
  }

  /** %03d of a byte. */
  function Pad3(n: Byte): (s: string)
    ensures |s| == 3
  {
    [Digit(n / 10 / 10), Digit(n / 10 % 10), Digit(n % 10)]
  }

  /** "Bus %03d Device %03d: ID %04x:%04x" */
  function DeviceName(location: Byte, devnum: Byte): string {
    "Bus " + Pad3(location) + " Device " + Pad3(devnum) + ": ID 1b8e:c003"
  }

  function NameOf(d: Node<Dev>): string {
    DeviceName(d.val.bus.key, d.key)
  }

  lemma DigitInjective(m: nat, n: nat)
    requires m < 10 && n < 10 && Digit(m) == Digit(n)
    ensures m == n
  {
  }

  lemma Pad3Injective(m: Byte, n: Byte)
    requires Pad3(m) == Pad3(n)
    ensures m == n
  {
    assert Pad3(m)[0] == Pad3(n)[0] && Pad3(m)[1] == Pad3(n)[1] && Pad3(m)[2] == Pad3(n)[2];
    DigitInjective(m / 10 / 10, n / 10 / 10);
    DigitInjective(m / 10 % 10, n / 10 % 10);
    DigitInjective(m % 10, n % 10);
  }

  /** The fixed-width name determines the location and the device number. */
  lemma NamesAreInjective(l: Byte, d: Byte, l': Byte, d': Byte)
    ensures DeviceName(l, d) == DeviceName(l', d') <==> l == l' && d == d'
  {
    if DeviceName(l, d) == DeviceName(l', d') {
      var s, s' := DeviceName(l, d), DeviceName(l', d');
      assert s[4..7] == Pad3(l) && s'[4..7] == Pad3(l');
      assert s[15..18] == Pad3(d) && s'[15..18] == Pad3(d');
      Pad3Injective(l, l');
      Pad3Injective(d, d');
    }
  }

  /** A digit is worth its distance from '0'. */
  lemma DigitIs(n: nat)
    requires n < 10
    ensures Digit(n) as int == n + 0x30
  {
    match n {
      case 0 =>
      case 1 =>
      case 2 =>
      case 3 =>
      case 4 =>
      case 5 =>
      case 6 =>
      case 7 =>
      case 8 =>
      case _ =>
    }
  }

  /** Three decimal digits, read back. */
  function Number(s: string): int
    requires |s| == 3
  {
    100 * (s[0] as int - 0x30) + 10 * (s[1] as int - 0x30) + (s[2] as int - 0x30)
  }

  lemma Pad3Is(n: Byte)
    ensures Number(Pad3(n)) == n
  {
    hide Digit;
    DigitIs(n / 10 / 10);
    DigitIs(n / 10 % 10);
    DigitIs(n % 10);
  }

  /** A name has the location and the device number in their places, as decimal numbers. */
  lemma NameReadsBack(location: Byte, devnum: Byte)
    ensures var s := DeviceName(location, devnum);
            && |s| == 32 && s[..4] == "Bus " && s[7..15] == " Device " && s[18..] == ": ID 1b8e:c003"
            && Number(s[4..7]) == location && Number(s[15..18]) == devnum
  {
    hide Pad3;
    var s := DeviceName(location, devnum);
    Pad3Is(location);
    Pad3Is(devnum);
    assert s[4..7] == Pad3(location) && s[15..18] == Pad3(devnum);
  }

  // ---- what a scan sees ----

  predicate IsCandidate(d: Node<Dev>) {
    d.val.lib.init == Ready(AML_DEVICE)
  }

  /** The first n entries that match the vendor and product. */
  ghost function Matching(nodes: seq<Node<Dev>>, n: nat): seq<Node<Dev>>
    requires n <= |nodes|
  {
    if n == 0 then [] else Matching(nodes, n - 1) + if IsCandidate(nodes[n - 1]) then [nodes[n - 1]] else []
  }

  /** The matching devices on the first n busses, bus by bus. */
  ghost function Candidates(devices: seq<seq<Node<Dev>>>, n: nat): seq<Node<Dev>>
    requires n <= |devices|
  {
    if n == 0 then [] else Candidates(devices, n - 1) + Matching(devices[n - 1], |devices[n - 1]|)
  }

  /** The names a listing of at most max entries reports. */
  ghost function NamesOf(nodes: seq<Node<Dev>>, max: nat): seq<string> {
    seq(Min(|nodes|, max), i requires 0 <= i < |nodes| => NameOf(nodes[i]))
  }

  datatype Target = List | Find(name: string)

  /** What the walk has to show for the candidates it has passed: for a listing, their names up
      to the limit; for a search, that none of them is the target. */
  ghost predicate Tally(target: Target, max: nat, passed: seq<Node<Dev>>, names: seq<string>, i: nat) {
    match target
    case List => names == NamesOf(passed, max) && i == |names|
    case Find(name) => names == [] && i == |passed| && NoneNamed(passed, name)
  }

  ghost predicate NoneNamed(nodes: seq<Node<Dev>>, name: string) {
    forall k {:trigger nodes[k]} :: 0 <= k < |nodes| ==> NameOf(nodes[k]) != name
  }

  /** What a search has to answer: a candidate with the name, or null if there is none. */
  ghost predicate Answer(candidates: seq<Node<Dev>>, name: string, result: Node?<Dev>) {
    if result == null then NoneNamed(candidates, name) else result in candidates && NameOf(result) == name
  }

  /** What a scan reports: a listing of all candidates, or the answer to the search. */
  ghost predicate Outcome(target: Target, max: nat, candidates: seq<Node<Dev>>, names: seq<string>, i: nat, result: Node?<Dev>) {
    && (target.Find? ==> Answer(candidates, target.name, result))
    && if result == null then Tally(target, max, candidates, names, i) else target.Find?
  }

  lemma {:induction false} MatchingHas(nodes: seq<Node<Dev>>, n: nat, k: nat)
    requires k < n <= |nodes| && IsCandidate(nodes[k])
    ensures nodes[k] in Matching(nodes, n)
  {
    if k < n - 1 {
      MatchingHas(nodes, n - 1, k);
    }
  }

  lemma {:induction false} CandidatesHave(devices: seq<seq<Node<Dev>>>, n: nat, k: nat, d: Node<Dev>)
    requires k < n <= |devices| && d in Matching(devices[k], |devices[k]|)
    ensures d in Candidates(devices, n)
  {
    if k < n - 1 {
      CandidatesHave(devices, n - 1, k, d);
    }
  }

  /** A candidate comes from a place in the lists, and has vendor 0x1B8E and product 0xC003. */
  lemma {:induction false} MatchingPlace(nodes: seq<Node<Dev>>, n: nat, i: nat) returns (l: nat)
    requires n <= |nodes| && i < |Matching(nodes, n)|
    ensures l < n && Matching(nodes, n)[i] == nodes[l] && nodes[l].val.lib.init == Ready(Descriptor(0x1B8E, 0xC003))
  {
    if i < |Matching(nodes, n - 1)| {
      l := MatchingPlace(nodes, n - 1, i);
    } else {
      l := n - 1;
    }
  }

  lemma {:induction false} CandidatePlace(devices: seq<seq<Node<Dev>>>, n: nat, i: nat) returns (j: nat, l: nat)
    requires n <= |devices| && i < |Candidates(devices, n)|
    ensures j < n && l < |devices[j]| && Candidates(devices, n)[i] == devices[j][l]
    ensures devices[j][l].val.lib.init == Ready(Descriptor(0x1B8E, 0xC003))
  {
    var before := |Candidates(devices, n - 1)|;
    if i < before {
      j, l := CandidatePlace(devices, n - 1, i);
    } else {
      j := n - 1;
      l := MatchingPlace(devices[j], |devices[j]|, i - before);
    }
  }

  /** Every such device is a candidate. */
  lemma CandidatesAreAll(devices: seq<seq<Node<Dev>>>, j: nat, l: nat)
    requires j < |devices| && l < |devices[j]| && devices[j][l].val.lib.init == Ready(Descriptor(0x1B8E, 0xC003))
    ensures devices[j][l] in Candidates(devices, |devices|)
  {
    MatchingHas(devices[j], |devices[j]|, l);
    CandidatesHave(devices, |devices|, j, devices[j][l]);
  }

  lemma {:induction false} MatchingInOrder(nodes: seq<Node<Dev>>, n: nat, i: nat, i': nat) returns (l: nat, l': nat)
    requires n <= |nodes| && i < i' < |Matching(nodes, n)|
    ensures l < l' < n && Matching(nodes, n)[i] == nodes[l] && Matching(nodes, n)[i'] == nodes[l']
  {
    if i' < |Matching(nodes, n - 1)| {
      l, l' := MatchingInOrder(nodes, n - 1, i, i');
    } else {
      l := MatchingPlace(nodes, n - 1, i);
      l' := n - 1;
    }
  }

  /** Candidates come in the order of the busses, and on each in the order of its devices. */
  lemma {:induction false} CandidatesInOrder(devices: seq<seq<Node<Dev>>>, n: nat, i: nat, i': nat) returns (j: nat, l: nat, j': nat, l': nat)
    requires n <= |devices| && i < i' < |Candidates(devices, n)|
    ensures j <= j' < n && l < |devices[j]| && l' < |devices[j']| && (j == j' ==> l < l')
    ensures Candidates(devices, n)[i] == devices[j][l] && Candidates(devices, n)[i'] == devices[j'][l']
  {
    hide Matching;
    var before := |Candidates(devices, n - 1)|;
    if i' < before {
      j, l, j', l' := CandidatesInOrder(devices, n - 1, i, i');
    } else if i < before {
      j, l := CandidatePlace(devices, n - 1, i);
      j' := n - 1;
      l' := MatchingPlace(devices[j'], |devices[j']|, i' - before);
    } else {
      j, j' := n - 1, n - 1;
      l, l' := MatchingInOrder(devices[j], |devices[j]|, i - before, i' - before);
    }
  }

  lemma TallySnoc(target: Target, max: nat, passed: seq<Node<Dev>>, names: seq<string>, i: nat, d: Node<Dev>)
    requires Tally(target, max, passed, names, i)
    ensures target.List? && i < max ==> Tally(target, max, passed + [d], names + [NameOf(d)], i + 1)
    ensures target.List? && i >= max ==> Tally(target, max, passed + [d], names, i)
    ensures target.Find? && NameOf(d) != target.name ==> Tally(target, max, passed + [d], names, i + 1)
  {
    if target.List? {
      assert i < max ==> NamesOf(passed + [d], max) == names + [NameOf(d)];
      assert i >= max ==> NamesOf(passed + [d], max) == names;
    }
  }

  /** The inner loop of scanDevices: one bus. */
  method ScanBus(devices: List<Dev>, target: Target, max: nat, names0: seq<string>, i0: nat, ghost passed: seq<Node<Dev>>)
    returns (names: seq<string>, i: nat, result: Node?<Dev>)
    requires devices.Valid() && forall k {:trigger devices.nodes[k]} :: 0 <= k < |devices.nodes| ==> devices.nodes[k].val.lib.init.Ready?
    requires Tally(target, max, passed, names0, i0)
    ensures result == null ==> Tally(target, max, passed + Matching(devices.nodes, |devices.nodes|), names, i)
    ensures result != null ==> target.Find? && NameOf(result) == target.name && result in Matching(devices.nodes, |devices.nodes|)
  {
    names, i, result := names0, i0, null;
    var dev := devices.head;
    ghost var k := 0;
    assert passed + [] == passed;
    while dev != null
      invariant 0 <= k <= |devices.nodes| && dev == if k < |devices.nodes| then devices.nodes[k] else null
      invariant Tally(target, max, passed + Matching(devices.nodes, k), names, i)
      decreases |devices.nodes| - k
    {
      ghost var now := passed + Matching(devices.nodes, k);
      assert dev == devices.nodes[k];
      ghost var next := passed + Matching(devices.nodes, k + 1);
      assert next == if IsCandidate(dev) then now + [dev] else now;
      if dev.val.lib.init.descriptor == AML_DEVICE {
        TallySnoc(target, max, now, names, i, dev);
        var buf := NameOf(dev);
        if target.List? {
          if i < max {
            names := names + [buf];
            i := i + 1;
          }
        } else if buf == target.name {
          MatchingHas(devices.nodes, |devices.nodes|, k);
          return names, i, dev;
        } else {
          i := i + 1;
        }
      }
      dev := dev.next;
      k := k + 1;
    }
  }

  /** The loops of scanDevices over the registry; D lists the devices of each bus. */
  method Walk(reg: Registry, target: Target, max: nat, ghost D: seq<seq<Node<Dev>>>)
    returns (names: seq<string>, i: nat, result: Node?<Dev>)
    requires reg.Valid() && |D| == |reg.busses.nodes|
    requires forall k {:trigger D[k]} :: 0 <= k < |D| ==> D[k] == reg.busses.nodes[k].val.devices.nodes
    ensures Outcome(target, max, Candidates(D, |D|), names, i, result)
  {
    names, i, result := [], 0, null;
    var bus := reg.busses.head;
    ghost var k := 0;
    while bus != null
      invariant 0 <= k <= |D| && bus == if k < |D| then reg.busses.nodes[k] else null
      invariant result == null && Tally(target, max, Candidates(D, k), names, i)
      decreases |D| - k
    {
      assert bus == reg.busses.nodes[k] && GoodBus(bus);
      assert D[k] == bus.val.devices.nodes;
      names, i, result := ScanBus(bus.val.devices, target, max, names, i, Candidates(D, k));
      if result != null {
        CandidatesHave(D, |D|, k, result);
        return;
      }
      bus := bus.next;
      k := k + 1;
    }
  }

  const WORLD_CUP := "WorldCup Device"

  /** What libusb answers during one scan: whether initialisation succeeds, and the two
      enumerations, one for the busses and one for the devices. */
  datatype Environment = Environment(initOk: bool, forBusses: Enumeration, forDevices: Enumeration) {
    ghost predicate Lawful() {
      forDevices.Listed? ==> UniquePairs(forDevices.devs)
    }
  }

  /** The enumeration a scan acts on: none at all without a libusb context. */
  function Seen(ready: bool, e: Enumeration): Enumeration {
    if ready then e else Failed(0)
  }

  /** usb_find_busses, seen on the registry's contents. */
  method RefreshBusses(reg: Registry, e: Enumeration)
    requires reg.Valid()
    modifies reg.busses, reg.busses.nodes
    ensures reg.Valid()
    ensures Good(old(View(reg))) && BusStage(old(View(reg)), Seen(reg.ready, e), View(reg))
    ensures forall b | b in reg.busses.nodes :: b in old(reg.busses.nodes) || (fresh(b) && fresh(b.val.devices))
    ensures reg.DeviceNodes() <= old(reg.DeviceNodes())
  {
    ValidIsGood(reg);
    ghost var s := View(reg);
    var changes := reg.UsbFindBusses(e);
    ghost var mid := View(reg);
    forall i | 0 <= i < |mid.busses|
      ensures mid.devices[i] == Prior(s.busses, s.devices, mid.busses[i])
    {
      var b := mid.busses[i];
      assert b in reg.busses.nodes;
      if b in s.busses {
        var j :| 0 <= j < |s.busses| && s.busses[j] == b;
        PriorAt(s.busses, s.devices, j);
      } else {
        PriorOfNew(s.busses, s.devices, b);
      }
    }
  }

  /** usb_find_devices, seen on the registry's contents. */
  method RefreshDevices(reg: Registry, e: Enumeration)
    requires reg.Valid() && (e.Listed? ==> UniquePairs(e.devs))
    modifies reg.Lists(), reg.DeviceNodes()
    ensures reg.Valid()
    ensures forall b, d | b in reg.busses.nodes && d in b.val.devices.nodes :: d in old(reg.DeviceNodes()) || fresh(d)
    ensures DeviceStage(old(View(reg)), Seen(reg.ready, e), View(reg))
  {
    var changes := reg.UsbFindDevices(e);
    assert forall i {:trigger reg.busses.nodes[i]} :: 0 <= i < |reg.busses.nodes| ==> reg.busses.nodes[i] in reg.busses.nodes;
  }

  /** usb_init: libusb_init may fail. */
  method UsbInit(reg: Registry, ok: bool)
    modifies reg`ready
    ensures reg.ready == (old(reg.ready) || ok)
  {
    if !reg.ready {
      reg.ready := ok;
    }
  }

  /** Which of the registry's contents a scan sees, after it refreshed the registry. */
  ghost predicate Refreshed(s: Snapshot, ready: bool, env: Environment, s': Snapshot) {
    && Good(s) && Good(s')
    && Rescanned(s, Seen(ready, env.forBusses), Seen(ready, env.forDevices), s')
  }

  /** Both scans in turn; their return values are ignored. */
  method FindAll(reg: Registry, env: Environment)
    requires reg.Valid() && env.Lawful()
    modifies reg.busses, reg.busses.nodes, reg.Lists(), reg.DeviceNodes()
    ensures reg.Valid()
    ensures forall b | b in reg.busses.nodes :: b in old(reg.busses.nodes) || (fresh(b) && fresh(b.val.devices))
    ensures forall b, d | b in reg.busses.nodes && d in b.val.devices.nodes :: d in old(reg.DeviceNodes()) || fresh(d)
    ensures Refreshed(old(View(reg)), reg.ready, env, View(reg))
  {
    ghost var s := View(reg);
    RefreshBusses(reg, env.forBusses);
    ghost var mid := View(reg);
    RefreshDevices(reg, env.forDevices);
    StagesCompose(s, Seen(reg.ready, env.forBusses), mid, Seen(reg.ready, env.forDevices), View(reg));
    ValidIsGood(reg);
  }

  /** scanDevices for the one vendor name it supports. */
  method ScanWorldCup(reg: Registry, target: Target, max: nat, env: Environment)
    returns (names: seq<string>, i: nat, result: Node?<Dev>)
    requires reg.Valid() && env.Lawful()
    modifies reg.busses, reg.busses.nodes, reg.Lists(), reg.DeviceNodes()
    ensures reg.Valid()
    ensures forall b | b in reg.busses.nodes :: b in old(reg.busses.nodes) || (fresh(b) && fresh(b.val.devices))
    ensures forall b, d | b in reg.busses.nodes && d in b.val.devices.nodes :: d in old(reg.DeviceNodes()) || fresh(d)
    ensures Refreshed(old(View(reg)), reg.ready, env, View(reg))
    ensures Outcome(target, max, Candidates(View(reg).devices, |View(reg).devices|), names, i, result)
  {
    hide Refreshed, Outcome, Candidates, UniquePairs, Linked, GoodBus, DistinctKeys, DistinctLists;
    FindAll(reg, env);
    ghost var D := View(reg).devices;
    names, i, result := Walk(reg, target, max, D);
    assert View(reg).devices == D;
  }

  /** scanDevices */
  method ScanDevices(reg: Registry, vendorName: string, target: Target, max: nat, env: Environment)
    returns (ret: int, names: seq<string>, i: nat, result: Node?<Dev>)
    requires reg.Valid() && env.Lawful()
    modifies reg, reg.busses, reg.busses.nodes, reg.Lists(), reg.DeviceNodes()
    ensures reg.Valid()
    ensures forall b | b in reg.busses.nodes :: b in old(reg.busses.nodes) || (fresh(b) && fresh(b.val.devices))
    ensures forall b, d | b in reg.busses.nodes && d in b.val.devices.nodes :: d in old(reg.DeviceNodes()) || fresh(d)
    ensures ret == if vendorName == WORLD_CUP then 1 else 0
    ensures reg.ready == (old(reg.ready) || (ret == 1 && env.initOk))
    ensures ret == 0 ==> names == [] && i == 0 && result == null && View(reg) == old(View(reg))
    ensures ret == 1 ==> Refreshed(old(View(reg)), reg.ready, env, View(reg))
    ensures ret == 1 ==> Outcome(target, max, Candidates(View(reg).devices, |View(reg).devices|), names, i, result)
  {
    hide Refreshed, Outcome, Candidates, UniquePairs, Linked, GoodBus, DistinctKeys, DistinctLists;
    if vendorName != WORLD_CUP {
      return 0, [], 0, null;
    }
    ret := 1;
    UsbInit(reg, env.initOk);
    assert View(reg) == old(View(reg));
    assert reg.DeviceNodes() == old(reg.DeviceNodes()) && reg.busses.nodes == old(reg.busses.nodes);
    names, i, result := ScanWorldCup(reg, target, max, env);
  }

  // ---- scan and handle agree ----

  lemma {:induction false} MatchingFrom(nodes: seq<Node<Dev>>, n: nat, d: Node<Dev>) returns (l: nat)
    requires n <= |nodes| && d in Matching(nodes, n)
    ensures l < n && nodes[l] == d && IsCandidate(d)
  {
    if d in Matching(nodes, n - 1) {
      l := MatchingFrom(nodes, n - 1, d);
    } else {
      l := n - 1;
    }
  }

  lemma {:induction false} CandidateFrom(devices: seq<seq<Node<Dev>>>, n: nat, d: Node<Dev>) returns (j: nat, l: nat)
    requires n <= |devices| && d in Candidates(devices, n)
    ensures j < n && l < |devices[j]| && devices[j][l] == d && IsCandidate(d)
  {
    if d in Candidates(devices, n - 1) {
      j, l := CandidateFrom(devices, n - 1, d);
    } else {
      j := n - 1;
      l := MatchingFrom(devices[j], |devices[j]|, d);
    }
  }

  /** In one registry a name belongs to at most one candidate. */
  lemma NamesAreUnique(s: Snapshot, d: Node<Dev>, e: Node<Dev>)
    requires Good(s) && NameOf(d) == NameOf(e)
    requires d in Candidates(s.devices, |s.devices|) && e in Candidates(s.devices, |s.devices|)
    ensures d == e
  {
    var j, l := CandidateFrom(s.devices, |s.devices|, d);
    var j', l' := CandidateFrom(s.devices, |s.devices|, e);
    assert s.busses[j].key == d.val.bus.key && s.busses[j'].key == e.val.bus.key;
    NamesAreInjective(d.val.bus.key, d.key, e.val.bus.key, e.key);
    assert j == j';
    assert s.devices[j][l].key == s.devices[j][l'].key;
  }

  /** A later search for the name reported for candidate d finds d itself exactly when d's
      (bus, address) pair is still listed, and nothing otherwise; other devices may have come
      and gone. */
  lemma SearchFindsTheReportedDevice(
      s: Snapshot, ready: bool, env: Environment, s': Snapshot, d: Node<Dev>,
      max: nat, names: seq<string>, i: nat, result: Node?<Dev>)
    requires Refreshed(s, ready, env, s') && env.Lawful()
    requires d in Candidates(s.devices, |s.devices|)
    requires Outcome(Find(NameOf(d)), max, Candidates(s'.devices, |s'.devices|), names, i, result)
    ensures result == if StillThere(Seen(ready, env.forBusses), Seen(ready, env.forDevices), d.val.bus.key, d.key) then d else null
  {
    var eb, ed := Seen(ready, env.forBusses), Seen(ready, env.forDevices);
    var C := Candidates(s'.devices, |s'.devices|);
    var j, l := CandidateFrom(s.devices, |s.devices|, d);
    assert s.busses[j] == d.val.bus;
    if StillThere(eb, ed, d.val.bus.key, d.key) {
      var j', l' := DeviceSurvives(s, eb, ed, s', j, l);
      MatchingHas(s'.devices[j'], |s'.devices[j']|, l');
      CandidatesHave(s'.devices, |s'.devices|, j', d);
      var at :| 0 <= at < |C| && C[at] == d;
      if result != null {
        NamesAreUnique(s', d, result);
      }
    } else if result != null {
      var j', l' := CandidateFrom(s'.devices, |s'.devices|, result);
      assert s'.busses[j'] == result.val.bus;
      NamesAreInjective(d.val.bus.key, d.key, result.val.bus.key, result.key);
      DeviceVanishes(s, eb, ed, s', d.val.bus.key, d.key);
    }
  }

  /** AmlScanUsbX3Devices */
  method AmlScanUsbX3Devices(reg: Registry, vendorName: string, max: nat, env: Environment)
    returns (nDevices: int, names: seq<string>)
    requires reg.Valid() && env.Lawful()
    modifies reg, reg.busses, reg.busses.nodes, reg.Lists(), reg.DeviceNodes()
    ensures reg.Valid()
    ensures forall b | b in reg.busses.nodes :: b in old(reg.busses.nodes) || (fresh(b) && fresh(b.val.devices))
    ensures forall b, d | b in reg.busses.nodes && d in b.val.devices.nodes :: d in old(reg.DeviceNodes()) || fresh(d)
    ensures vendorName != WORLD_CUP ==> nDevices == -1 && View(reg) == old(View(reg))
    ensures vendorName == WORLD_CUP ==>
              && reg.ready == (old(reg.ready) || env.initOk)
              && Refreshed(old(View(reg)), reg.ready, env, View(reg))
              && names == NamesOf(Candidates(View(reg).devices, |View(reg).devices|), max)
              && nDevices == |names|
  {
    var ret, i, result;
    ret, names, i, result := ScanDevices(reg, vendorName, List, max, env);
    nDevices := i;
    if ret == 0 {
      nDevices := -1;
    }
  }

  /** AmlGetDeviceHandle: the candidate of the refreshed registry that has the name, which for a
      name reported before is the node it was reported for. */
  method AmlGetDeviceHandle(reg: Registry, vendorName: string, targetDevice: string, env: Environment)
    returns (result: Node?<Dev>)
    requires reg.Valid() && env.Lawful()
    modifies reg, reg.busses, reg.busses.nodes, reg.Lists(), reg.DeviceNodes()
    ensures reg.Valid()
    ensures forall b | b in reg.busses.nodes :: b in old(reg.busses.nodes) || (fresh(b) && fresh(b.val.devices))
    ensures forall b, d | b in reg.busses.nodes && d in b.val.devices.nodes :: d in old(reg.DeviceNodes()) || fresh(d)
    ensures vendorName != WORLD_CUP ==> result == null && View(reg) == old(View(reg))
    ensures vendorName == WORLD_CUP ==>
              && reg.ready == (old(reg.ready) || env.initOk)
              && Refreshed(old(View(reg)), reg.ready, env, View(reg))
              && Answer(Candidates(View(reg).devices, |View(reg).devices|), targetDevice, result)
              && forall d | d in Candidates(old(View(reg)).devices, |old(View(reg)).devices|) && NameOf(d) == targetDevice ::
                   result == if StillThere(Seen(reg.ready, env.forBusses), Seen(reg.ready, env.forDevices), d.val.bus.key, d.key)
                             then d else null
  {
    hide Candidates, StillThere, Seen, NameOf, UniquePairs, Refreshed, Linked, GoodBus, DistinctKeys, DistinctLists;
    ghost var s := View(reg);
    var ret, names, i;
    ret, names, i, result := ScanDevices(reg, vendorName, Find(targetDevice), 8, env);
    if ret == 0 {
      result := null;
    } else {
      forall d | d in Candidates(s.devices, |s.devices|) && NameOf(d) == targetDevice
        ensures result == if StillThere(Seen(reg.ready, env.forBusses), Seen(reg.ready, env.forDevices), d.val.bus.key, d.key)
                          then d else null
      {
        SearchFindsTheReportedDevice(s, reg.ready, env, View(reg), d, 8, names, i, result);
      }
    }
  }

  /** What update_scan makes of the device number it was given, with nDevices names reported. */
  datatype Pick = NoDevice | ListOnly | TooLarge | Chosen(k: nat) | OutOfRange

  /** The guards of update_scan: there is none against a negative number. */
  function PickOf(devNo: int, nDevices: nat): Pick {
    if nDevices == 0 then NoDevice
    else if devNo == -2 then ListOnly
    else if devNo + 1 > nDevices then TooLarge
    else if devNo < 0 then OutOfRange
    else Chosen(devNo)
  }

  /** The name that is read is a reported one, however many there are, if and only if the number
      is -2 or not negative; and it is not read at all if there are none. */
  lemma NumberIsSafeIff(devNo: int)
    ensures (forall nDevices: nat :: PickOf(devNo, nDevices) != OutOfRange) <==> devNo == -2 || devNo >= 0
    ensures forall nDevices: nat :: PickOf(devNo, nDevices) != OutOfRange <==> devNo == -2 || devNo >= 0 || nDevices == 0
    ensures forall nDevices: nat :: PickOf(devNo, nDevices).Chosen? ==> 0 <= PickOf(devNo, nDevices).k == devNo < nDevices
  {
    assert devNo < 0 && devNo != -2 ==> PickOf(devNo, 1) == OutOfRange;
  }

  /** The number the down command takes from the fourth character of a "devX" argument; a char is
      signed. */
  function DownNumber(c: Byte): int {
    (if c < 0x80 then c else c - 0x100) - 0x30
  }

  /** "dev/" makes -1 of it, and reads the name before the first. */
  lemma SlashIsOutOfRange(nDevices: nat)
    requires nDevices > 0
    ensures DownNumber(Ascii("/")[0]) == -1 && PickOf(-1, nDevices) == OutOfRange
  {
  }

  /** The down command stays in range, however many devices there are, if and only if the
      character is an ASCII one not below '0', or is '.'. */
  lemma DownIsSafeIff(c: Byte)
    ensures (forall nDevices: nat :: PickOf(DownNumber(c), nDevices) != OutOfRange) <==> Ascii("0")[0] <= c < 0x80 || c == Ascii(".")[0]
  {
    NumberIsSafeIff(DownNumber(c));
  }

  /** What update_scan comes to: a return code, with *success and the handle, or a read outside of
      the names, after which nothing can be said. */
  datatype ScanEnd = Returned(ret: int, success: int) | ReadOutside

  /** update_scan: -2 only lists. listed is the registry the names were reported from; hasResult is
      whether the caller wants a handle. */
  method UpdateScan(reg: Registry, devNo: int, massStorage: bool, hasResult: bool, scanEnv: Environment, handleEnv: Environment)
    returns (end: ScanEnd, result: Node?<Dev>, ghost listed: Snapshot)
    requires reg.Valid() && scanEnv.Lawful() && handleEnv.Lawful()
    modifies reg, reg.busses, reg.busses.nodes, reg.Lists(), reg.DeviceNodes()
    ensures reg.Valid()
    ensures massStorage ==> end == Returned(-182, -1) && result == null && View(reg) == old(View(reg))
    ensures !massStorage ==>
              && Refreshed(old(View(reg)), old(reg.ready) || scanEnv.initOk, scanEnv, listed)
              && var reported := Candidates(listed.devices, |listed.devices|);
                 var pick := PickOf(devNo, Min(|reported|, 16));
                 && end == Expected(pick, hasResult)
                 && (if pick.Chosen? && hasResult then
                       var d := reported[pick.k];
                       && Refreshed(listed, reg.ready, handleEnv, View(reg))
                       && result == if StillThere(Seen(reg.ready, handleEnv.forBusses), Seen(reg.ready, handleEnv.forDevices), d.val.bus.key, d.key)
                                    then d else null
                     else View(reg) == listed && result == null)
    ensures !massStorage ==>
              var reported := Candidates(listed.devices, |listed.devices|);
              var n := Min(|reported|, 16);
              && (n == 0 ==> end == Returned(-182, -1))
              && (n > 0 && devNo == -2 ==> end == Returned(0, 0))
              && (n > 0 && devNo >= n ==> end == Returned(-191, -1))
              && (n > 0 && devNo < n && devNo != -2 && !hasResult ==> end == Returned(-203, -1))
              && (n > 0 && devNo < 0 && devNo != -2 && hasResult ==> end == ReadOutside)
              && (0 <= devNo < n && hasResult ==>
                    var d := reported[devNo];
                    && end == Returned(0, 0)
                    && result == if && (reg.ready && handleEnv.forBusses.Listed? ==>
                                          exists l :: l in handleEnv.forBusses.devs && l.bus == d.val.bus.key)
                                    && (reg.ready && handleEnv.forDevices.Listed? ==>
                                          exists l :: l in handleEnv.forDevices.devs && l.bus == d.val.bus.key && l.address == d.key)
                                 then d else null)
              && (!(0 <= devNo < n && hasResult) ==> result == null)
  {
    hide Refreshed, Candidates, StillThere, Seen, NameOf, UniquePairs, Answer, NamesOf, Linked, GoodBus, DistinctKeys, DistinctLists;
    var vendorName := if massStorage then "USB Mass Storage Device" else WORLD_CUP;
    var nDevices, candidateDevices := AmlScanUsbX3Devices(reg, vendorName, 16, scanEnv);
    listed := View(reg);
    if nDevices <= 0 {
      NamesCount(Candidates(listed.devices, |listed.devices|), 16);
      return Returned(-182, -1), null, listed;
    }
    end, result := PickDevice(reg, devNo, hasResult, candidateDevices, handleEnv, listed);
    ghost var reported := Candidates(listed.devices, |listed.devices|);
    if 0 <= devNo < Min(|reported|, 16) && hasResult {
      ListedAgain(reg.ready, handleEnv, reported[devNo]);
    }
  }

  /** What it takes for a device to be found again. */
  lemma ListedAgain(ready: bool, env: Environment, d: Node<Dev>)
    ensures StillThere(Seen(ready, env.forBusses), Seen(ready, env.forDevices), d.val.bus.key, d.key) <==>
              && (ready && env.forBusses.Listed? ==> exists l :: l in env.forBusses.devs && l.bus == d.val.bus.key)
              && (ready && env.forDevices.Listed? ==>
                    exists l :: l in env.forDevices.devs && l.bus == d.val.bus.key && l.address == d.key)
  {
    hide StillThere;
    StillThereIs(Seen(ready, env.forBusses), Seen(ready, env.forDevices), d.val.bus.key, d.key);
  }

  lemma NamesCount(nodes: seq<Node<Dev>>, max: nat)
    ensures |NamesOf(nodes, max)| == Min(|nodes|, max)
    ensures forall i {:trigger NamesOf(nodes, max)[i]} :: 0 <= i < Min(|nodes|, max) ==> NamesOf(nodes, max)[i] == NameOf(nodes[i])
  {
    hide NameOf;
  }

  /** The rest of update_scan, once there are names. */
  method PickDevice(reg: Registry, devNo: int, hasResult: bool, candidateDevices: seq<string>, handleEnv: Environment, ghost listed: Snapshot)
    returns (end: ScanEnd, result: Node?<Dev>)
    requires reg.Valid() && handleEnv.Lawful() && listed == View(reg) && |candidateDevices| > 0
    requires candidateDevices == NamesOf(Candidates(listed.devices, |listed.devices|), 16)
    modifies reg, reg.busses, reg.busses.nodes, reg.Lists(), reg.DeviceNodes()
    ensures reg.Valid()
    ensures var reported := Candidates(listed.devices, |listed.devices|);
            var pick := PickOf(devNo, Min(|reported|, 16));
            && end == Expected(pick, hasResult)
            && (if pick.Chosen? && hasResult then
                  var d := reported[pick.k];
                  && Refreshed(listed, reg.ready, handleEnv, View(reg))
                  && result == if StillThere(Seen(reg.ready, handleEnv.forBusses), Seen(reg.ready, handleEnv.forDevices), d.val.bus.key, d.key)
                               then d else null
                else View(reg) == listed && result == null)
  {
    hide Refreshed, Candidates, StillThere, Seen, NameOf, UniquePairs, Answer, NamesOf, Linked, GoodBus, DistinctKeys, DistinctLists;
    result := null;
    var nDevices := |candidateDevices|;
    ghost var reported := Candidates(listed.devices, |listed.devices|);
    NamesCount(reported, 16);
    if devNo != -2 {
      if devNo + 1 > nDevices {
        return Returned(-191, -1), null;
      }
      if !hasResult {
        return Returned(-203, -1), null;
      }
      if devNo < 0 {
        return ReadOutside, null;
      }
      assert candidateDevices[devNo] == NameOf(reported[devNo]);
      result := GetReported(reg, candidateDevices[devNo], handleEnv, listed, reported[devNo]);
    }
    end := Returned(0, 0);
  }

  /** AmlGetDeviceHandle for a reported name. */
  method GetReported(reg: Registry, name: string, handleEnv: Environment, ghost listed: Snapshot, ghost d: Node<Dev>) returns (result: Node?<Dev>)
    requires reg.Valid() && handleEnv.Lawful() && listed == View(reg)
    requires d in Candidates(listed.devices, |listed.devices|) && name == NameOf(d)
    modifies reg, reg.busses, reg.busses.nodes, reg.Lists(), reg.DeviceNodes()
    ensures reg.Valid() && Refreshed(listed, reg.ready, handleEnv, View(reg))
    ensures result == if StillThere(Seen(reg.ready, handleEnv.forBusses), Seen(reg.ready, handleEnv.forDevices), d.val.bus.key, d.key) then d else null
  {
    hide Refreshed, Candidates, StillThere, Seen, NameOf, UniquePairs, Answer, Linked, GoodBus, DistinctKeys, DistinctLists;
    result := AmlGetDeviceHandle(reg, WORLD_CUP, name, handleEnv);
  }

  function Expected(pick: Pick, hasResult: bool): ScanEnd {
    match pick
    case NoDevice => Returned(-182, -1)
    case ListOnly => Returned(0, 0)
    case TooLarge => Returned(-191, -1)
    case Chosen(_) => if hasResult then Returned(0, 0) else Returned(-203, -1)
    case OutOfRange => if hasResult then ReadOutside else Returned(-203, -1)
  }
}
