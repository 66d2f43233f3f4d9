/** The registry's scan and the heap's scan are two views of one walk: from lists with the same
    numbers, and one enumeration, they end with the same numbers in the same order. */
module ScanViews {
  import opened Bytes
  import opened LinkedLists
  import opened Reconciliation
  import BusRegistry
  import DeviceHeap
  import Descriptors

  ghost function KeysOf<T>(nodes: seq<Node<T>>): (ks: seq<Byte>)
    ensures |ks| == |nodes| && forall i {:trigger ks[i]} :: 0 <= i < |ks| ==> ks[i] == nodes[i].key
  {
    seq(|nodes|, i requires 0 <= i < |nodes| => nodes[i].key)
  }

  /** The numbers that are among the given ones, in order. */
  function Among(ks: seq<Byte>, some: set<Byte>): seq<Byte> {
    if ks == [] then []
    else
      var last := ks[|ks| - 1];
      Among(ks[..|ks| - 1], some) + if last in some then [last] else []
  }

  /** What libusb lists, as far as both views care: a number, and whether it initialises. */
  type Mark = (Byte, bool)

  /** The numbers that are not known and initialise, in order. */
  function New(marks: seq<Mark>, known: set<Byte>): seq<Byte> {
    if marks == [] then []
    else (if marks[0].0 !in known && marks[0].1 then [marks[0].0] else []) + New(marks[1..], known)
  }

  function Numbers(marks: seq<Mark>): set<Byte> {
    set m | m in marks :: m.0
  }

  /** nodes are entries for the marks, backwards. */
  ghost predicate Spells<T>(nodes: seq<Node<T>>, admit: T -> bool, marks: seq<Mark>) {
    |nodes| == |marks| && forall i {:trigger nodes[i]} :: 0 <= i < |nodes| ==>
      nodes[i].key == marks[|nodes| - 1 - i].0 && admit(nodes[i].val) == marks[|nodes| - 1 - i].1
  }

  lemma KeysOfConcat<T>(a: seq<Node<T>>, b: seq<Node<T>>)
    ensures KeysOf(a + b) == KeysOf(a) + KeysOf(b)
  {
  }

  lemma KeysOfSnoc<T>(init: seq<Node<T>>, last: Node<T>)
    ensures KeysOf(init + [last]) == KeysOf(init) + [last.key]
  {
  }

  lemma {:induction false} KeptKeys<T>(nodes: seq<Node<T>>, ks: set<Byte>)
    ensures KeysOf(Keep(nodes, ks)) == Among(KeysOf(nodes), ks)
  {
    hide KeysOf;
    if nodes != [] {
      var init, last := nodes[..|nodes| - 1], nodes[|nodes| - 1];
      assert nodes == init + [last];
      KeptKeys(init, ks);
      KeysOfSnoc(init, last);
      KeysOfSnoc(Keep(init, ks), last);
      assert KeysOf(nodes)[..|nodes| - 1] == KeysOf(init);
    }
  }

  lemma SameKeySet<T>(nodes: seq<Node<T>>)
    ensures forall k :: k in Keys(nodes) <==> k in KeysOf(nodes)
  {
    forall k | k in Keys(nodes)
      ensures k in KeysOf(nodes)
    {
      var i :| 0 <= i < |nodes| && nodes[i].key == k;
      assert KeysOf(nodes)[i] == k;
    }
  }

  lemma SpelledKeys<T>(nodes: seq<Node<T>>, admit: T -> bool, marks: seq<Mark>)
    requires Spells(nodes, admit, marks)
    ensures Keys(nodes) == Numbers(marks)
  {
    forall k | k in Numbers(marks)
      ensures k in Keys(nodes)
    {
      var i :| 0 <= i < |marks| && marks[i].0 == k;
      assert nodes[|nodes| - 1 - i].key == k;
    }
  }

  /** What is left of the new entries, pushed in front, comes out in libusb's order. */
  lemma {:induction false} LeftoverKeys<T>(nodes: seq<Node<T>>, admit: T -> bool, marks: seq<Mark>, ks: set<Byte>)
    requires Spells(nodes, admit, marks)
    ensures KeysOf(Reversed(Admitted(Drop(nodes, ks), admit))) == New(marks, ks)
    decreases |nodes|
  {
    hide KeysOf, Reversed, Admitted, Drop;
    if nodes == [] {
      NothingLeft(nodes, admit, ks);
    } else {
      var init, last := nodes[..|nodes| - 1], nodes[|nodes| - 1];
      assert nodes == init + [last] && last.key == marks[0].0 && admit(last.val) == marks[0].1;
      assert Spells(init, admit, marks[1..]);
      LeftoverKeys(init, admit, marks[1..], ks);
      DropSnoc(init, last, ks);
      var rest := Drop(init, ks);
      if last.key in ks {
        assert Drop(nodes, ks) == rest;
      } else {
        AdmittedSnoc(rest, last, admit);
        if admit(last.val) {
          ReversedSnoc(Admitted(rest, admit), last);
          KeysOfConcat([last], Reversed(Admitted(rest, admit)));
          KeysOfOne(last);
        }
      }
    }
  }

  lemma KeysOfOne<T>(n: Node<T>)
    ensures KeysOf([n]) == [n.key]
  {
  }

  lemma NothingLeft<T>(nodes: seq<Node<T>>, admit: T -> bool, ks: set<Byte>)
    requires nodes == []
    ensures KeysOf(Reversed(Admitted(Drop(nodes, ks), admit))) == []
  {
  }

  /** What a scan leaves, by number: the new devices that initialise, in libusb's order, then the
      known ones still listed, in theirs. */
  ghost predicate Left(before: seq<Byte>, marks: seq<Mark>, after: seq<Byte>, changes: int) {
    var known := set k | k in before;
    var added, kept := New(marks, known), Among(before, Numbers(marks));
    after == added + kept && changes == |before| - |kept| + |added|
  }

  function HeapMarks(libs: seq<DeviceHeap.Found>): (marks: seq<Mark>)
    ensures |marks| == |libs|
  {
    seq(|libs|, i requires 0 <= i < |libs| => (libs[i].devnum, Descriptors.FirstError(libs[i].dev.code, libs[i].dev.configs) == 0))
  }

  function RegistryMarks(libs: seq<BusRegistry.LibDev>): (marks: seq<Mark>)
    ensures |marks| == |libs|
  {
    seq(|libs|, i requires 0 <= i < |libs| => (libs[i].address, libs[i].init.Ready?))
  }

  lemma HeapView(K: seq<Node<Descriptors.UsbDevice>>, N: seq<Node<Descriptors.UsbDevice>>, libs: seq<DeviceHeap.Found>,
                 after: seq<Node<Descriptors.UsbDevice>>, changes: int)
    requires DeviceHeap.Backwards(N, libs) && DeviceHeap.Scanned(K, N, after, changes)
    ensures Left(KeysOf(K), HeapMarks(libs), KeysOf(after), changes)
  {
    hide KeysOf, Reversed, Admitted, Drop, Keep, Among, New, Descriptors.FirstError;
    var marks := HeapMarks(libs);
    assert Spells(N, DeviceHeap.Initialises, marks);
    SpelledKeys(N, DeviceHeap.Initialises, marks);
    SameKeySet(K);
    var known := set k | k in KeysOf(K);
    assert known == Keys(K);
    LeftoverKeys(N, DeviceHeap.Initialises, marks, known);
    KeptKeys(K, Numbers(marks));
    KeysOfConcat(Reversed(Admitted(Drop(N, known), DeviceHeap.Initialises)), Keep(K, Numbers(marks)));
  }

  lemma {:induction false} ArrivalKeys(libs: seq<BusRegistry.LibDev>, known: set<Byte>)
    ensures New(RegistryMarks(libs), known) == Addressed(BusRegistry.Arrivals(libs, known))
  {
    if libs != [] {
      ArrivalKeys(libs[1..], known);
      assert RegistryMarks(libs)[1..] == RegistryMarks(libs[1..]);
    }
  }

  function Addressed(libs: seq<BusRegistry.LibDev>): (ks: seq<Byte>)
    ensures |ks| == |libs|
  {
    seq(|libs|, i requires 0 <= i < |libs| => libs[i].address)
  }

  lemma RegistryView(bus: Node<BusRegistry.Bus>, before: seq<Node<BusRegistry.Dev>>, devs: seq<BusRegistry.LibDev>,
                     after: seq<Node<BusRegistry.Dev>>)
    requires BusRegistry.DevicesReconciled(bus, before, devs, after)
    ensures Left(KeysOf(before), RegistryMarks(BusRegistry.OnBus(devs, bus.key)), KeysOf(after), BusRegistry.DeviceChanges(bus, before, devs))
  {
    hide KeysOf, Keep, Among, New, BusRegistry.Arrivals, BusRegistry.OnBus;
    var libs := BusRegistry.OnBus(devs, bus.key);
    var marks, added := RegistryMarks(libs), BusRegistry.Arrivals(libs, Keys(before));
    SameKeySet(before);
    var known := set k | k in KeysOf(before);
    assert known == Keys(before);
    ArrivalKeys(libs, known);
    MarkedNumbers(libs);
    KeptKeys(before, Numbers(marks));
    assert after == after[..|added|] + after[|added|..];
    KeysOfConcat(after[..|added|], after[|added|..]);
    HeldKeys(bus, after[..|added|], added);
  }

  lemma MarkedNumbers(libs: seq<BusRegistry.LibDev>)
    ensures Numbers(RegistryMarks(libs)) == BusRegistry.Addresses(libs)
  {
    forall d | d in libs
      ensures d.address in Numbers(RegistryMarks(libs))
    {
      var i :| 0 <= i < |libs| && libs[i] == d;
      assert RegistryMarks(libs)[i].0 == d.address;
    }
  }

  lemma HeldKeys(bus: Node<BusRegistry.Bus>, nodes: seq<Node<BusRegistry.Dev>>, libs: seq<BusRegistry.LibDev>)
    requires BusRegistry.Holds(bus, nodes, libs)
    ensures KeysOf(nodes) == Addressed(libs)
  {
  }

  /** The two views agree. */
  lemma ViewsAgree(K: seq<Node<Descriptors.UsbDevice>>, N: seq<Node<Descriptors.UsbDevice>>, libs: seq<DeviceHeap.Found>,
                   after: seq<Node<Descriptors.UsbDevice>>, changes: int,
                   bus: Node<BusRegistry.Bus>, before: seq<Node<BusRegistry.Dev>>, devs: seq<BusRegistry.LibDev>,
                   registry: seq<Node<BusRegistry.Dev>>)
    requires DeviceHeap.Backwards(N, libs) && DeviceHeap.Scanned(K, N, after, changes)
    requires BusRegistry.DevicesReconciled(bus, before, devs, registry)
    requires KeysOf(K) == KeysOf(before) && HeapMarks(libs) == RegistryMarks(BusRegistry.OnBus(devs, bus.key))
    ensures KeysOf(after) == KeysOf(registry) && changes == BusRegistry.DeviceChanges(bus, before, devs)
  {
    hide KeysOf, Among, New, HeapMarks, RegistryMarks, DeviceHeap.Backwards, DeviceHeap.Scanned, BusRegistry.DevicesReconciled, BusRegistry.DeviceChanges;
    HeapView(K, N, libs, after, changes);
    RegistryView(bus, before, devs, registry);
  }
}
