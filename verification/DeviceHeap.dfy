/** The device scan seen from the heap and from libusb: what is allocated, and which references are
    held, for the devices on the registry's lists. */
module DeviceHeap {
  import opened Bytes
  import opened LinkedLists
  import opened Reconciliation
  import opened Descriptors

  // ---- the ledger of a set of devices ----

  /** The blocks of a device: its entry, and the trees below it. */
  ghost function Blocks(d: UsbDevice, foot: map<UsbDevice, Footprint>): set<object> {
    {d} + if d in foot then All(foot[d]) else {}
  }

  ghost function BlocksOf(held: set<UsbDevice>, foot: map<UsbDevice, Footprint>): set<object> {
    set d, o | d in held && o in Blocks(d, foot) :: o
  }

  /** The devices that are libusb's device lib. */
  ghost function Using(held: set<UsbDevice>, lib: LibDevice): set<UsbDevice> {
    set d | d in held && d.dev == lib
  }

  ghost function Count(held: set<UsbDevice>, lib: LibDevice): nat {
    |Using(held, lib)|
  }

  lemma BlocksInside(held: set<UsbDevice>, foot: map<UsbDevice, Footprint>, d: UsbDevice)
    requires d in held
    ensures Blocks(d, foot) <= BlocksOf(held, foot)
    ensures d in foot ==> All(foot[d]) <= BlocksOf(held, foot)
  {
    hide All;
  }

  /** The device is initialised, and its trees lie in the given blocks. */
  ghost predicate Placed(d: UsbDevice, f: Footprint)
    reads d, All(f)
  {
    d.config in {null} + All(f) && Initialised(d, f) && d.dev.Good() && d !in All(f)
  }

  /** The devices that are held are initialised, and their blocks are apart from each other, from
      the rest of the heap, and from the objects that are no blocks. */
  ghost predicate Kept(held: set<UsbDevice>, foot: map<UsbDevice, Footprint>, rest: set<object>, others: set<object>)
    reads held, BlocksOf(held, foot)
  {
    && (forall d | d in held :: d in foot && (BlocksInside(held, foot, d); Placed(d, foot[d])))
    && (forall d, e | d in held && e in held && d != e :: Blocks(d, foot) !! Blocks(e, foot))
    && BlocksOf(held, foot) !! rest && BlocksOf(held, foot) !! others
  }

  /** For each of the devices, libusb has lent one reference more than those counted in refs0. */
  ghost predicate Referenced(held: set<UsbDevice>, refs0: map<LibDevice, int>)
    reads refs0.Keys
  {
    && (forall d | d in held :: d.dev in refs0)
    && forall lib | lib in refs0 :: lib.refs == refs0[lib] + Count(held, lib)
  }

  /** Exactly these devices' blocks are allocated besides the rest, and exactly their references
      are held. */
  ghost predicate Ledger(heap: Heap, held: set<UsbDevice>, foot: map<UsbDevice, Footprint>, rest: set<object>, others: set<object>,
                         refs0: map<LibDevice, int>)
    reads heap, held, BlocksOf(held, foot), refs0.Keys
  {
    && heap in others && (forall lib | lib in refs0 :: lib in others)
    && Kept(held, foot, rest, others) && heap.live == rest + BlocksOf(held, foot) && Referenced(held, refs0)
  }

  lemma CountWith(held: set<UsbDevice>, d: UsbDevice, lib: LibDevice)
    requires d !in held
    ensures Count(held + {d}, lib) == Count(held, lib) + if d.dev == lib then 1 else 0
  {
    if d.dev == lib {
      assert Using(held + {d}, lib) == Using(held, lib) + {d};
    } else {
      assert Using(held + {d}, lib) == Using(held, lib);
    }
  }

  lemma BlocksWith(held: set<UsbDevice>, d: UsbDevice, foot: map<UsbDevice, Footprint>)
    ensures BlocksOf(held + {d}, foot) == BlocksOf(held, foot) + Blocks(d, foot)
  {
    hide Blocks;
  }

  lemma SameBlocks(held: set<UsbDevice>, foot: map<UsbDevice, Footprint>, d: UsbDevice, f: Footprint)
    requires d !in held
    ensures BlocksOf(held, foot[d := f]) == BlocksOf(held, foot)
    ensures forall e | e in held :: Blocks(e, foot[d := f]) == Blocks(e, foot) && (e in foot ==> foot[d := f][e] == foot[e])
  {
    hide All;
    assert forall e | e in held :: Blocks(e, foot[d := f]) == Blocks(e, foot);
  }

  /** Fewer devices are kept just as well. */
  lemma KeptWithout(held: set<UsbDevice>, d: UsbDevice, foot: map<UsbDevice, Footprint>, rest: set<object>, others: set<object>)
    requires Kept(held, foot, rest, others) && d in held
    ensures Kept(held - {d}, foot, rest, others)
    ensures BlocksOf(held, foot) == BlocksOf(held - {d}, foot) + Blocks(d, foot)
    ensures BlocksOf(held - {d}, foot) !! Blocks(d, foot)
  {
    hide All, Placed, Blocks;
    assert held == held - {d} + {d};
    BlocksWith(held - {d}, d, foot);
  }

  /** One more, in new blocks. */
  lemma KeptWith(held: set<UsbDevice>, d: UsbDevice, f: Footprint, foot: map<UsbDevice, Footprint>, rest: set<object>, others: set<object>)
    requires Kept(held, foot, rest, others) && d !in held && Placed(d, f)
    requires All(f) + {d} !! BlocksOf(held, foot) + rest + others
    ensures Kept(held + {d}, foot[d := f], rest, others)
    ensures BlocksOf(held + {d}, foot[d := f]) == BlocksOf(held, foot) + {d} + All(f)
  {
    hide All, Placed, Blocks, BlocksOf;
    var foot' := foot[d := f];
    SameBlocks(held, foot, d, f);
    BlocksWith(held, d, foot');
    assert Blocks(d, foot') == {d} + All(f) by { BlocksAre(d, foot'); }
    forall e | e in held
      ensures e in foot' && Blocks(e, foot') == Blocks(e, foot) <= BlocksOf(held, foot) && Placed(e, foot'[e])
    {
      BlocksInside(held, foot, e);
    }
  }

  lemma BlocksAre(d: UsbDevice, foot: map<UsbDevice, Footprint>)
    requires d in foot
    ensures Blocks(d, foot) == {d} + All(foot[d])
  {
  }

  lemma ReferencedWith(held: set<UsbDevice>, d: UsbDevice, refs0: map<LibDevice, int>)
    requires d !in held
    ensures forall lib | lib in refs0 :: Count(held + {d}, lib) == Count(held, lib) + if d.dev == lib then 1 else 0
  {
    forall lib | lib in refs0
      ensures Count(held + {d}, lib) == Count(held, lib) + if d.dev == lib then 1 else 0
    {
      CountWith(held, d, lib);
    }
  }

  /** free_device, on the ledger. */
  method Remove(heap: Heap, d: UsbDevice, ghost held: set<UsbDevice>, ghost foot: map<UsbDevice, Footprint>,
                ghost rest: set<object>, ghost others: set<object>, ghost refs0: map<LibDevice, int>)
    requires Ledger(heap, held, foot, rest, others, refs0) && d in held
    modifies heap, d.dev`refs
    ensures Ledger(heap, held - {d}, foot, rest, others, refs0)
  {
    hide All, Initialised, Count, BlocksOf, Kept;
    ghost var left := held - {d};
    assert held == left + {d};
    KeptWithout(held, d, foot, rest, others);
    KeptIs(held, foot, rest, others, d);
    ReferencedWith(left, d, refs0);
    FreeDevice(heap, d, foot[d]);
  }

  lemma KeptIs(held: set<UsbDevice>, foot: map<UsbDevice, Footprint>, rest: set<object>, others: set<object>, d: UsbDevice)
    requires Kept(held, foot, rest, others) && d in held
    ensures d in foot && Placed(d, foot[d]) && Blocks(d, foot) <= BlocksOf(held, foot)
    ensures BlocksOf(held, foot) !! rest && BlocksOf(held, foot) !! others
  {
    hide All, Placed;
    BlocksInside(held, foot, d);
  }

  lemma KeptApart(held: set<UsbDevice>, foot: map<UsbDevice, Footprint>, rest: set<object>, others: set<object>)
    requires Kept(held, foot, rest, others)
    ensures BlocksOf(held, foot) !! rest && BlocksOf(held, foot) !! others && held <= foot.Keys
    ensures forall d | d in held :: d in BlocksOf(held, foot)
  {
    hide All, Placed;
    forall d | d in held
      ensures d in BlocksOf(held, foot)
    {
      BlocksInside(held, foot, d);
    }
  }

  /** initialize_device, on the ledger; an entry that fails is freed. */
  method Admit(heap: Heap, d: UsbDevice, ghost held: set<UsbDevice>, ghost foot: map<UsbDevice, Footprint>,
               ghost rest: set<object>, ghost others: set<object>, ghost refs0: map<LibDevice, int>)
    returns (ret: int, ghost foot': map<UsbDevice, Footprint>)
    requires Ledger(heap, held, foot, rest + {d}, others, refs0)
    requires d !in held && d !in rest && d !in others && d.dev.Good() && d.dev in refs0
    modifies heap, d, d.dev
    ensures ret == FirstError(d.dev.code, d.dev.configs)
    ensures Ledger(heap, if ret == 0 then held + {d} else held, foot', rest, others, refs0)
  {
    hide All, Initialised, FirstError, Count, BlocksOf, Kept;
    KeptApart(held, foot, rest + {d}, others);
    ReferencedWith(held, d, refs0);
    ghost var f;
    ret, f := InitializeDevice(heap, d);
    foot' := foot;
    LessRest(held, foot, rest, {d}, others);
    if ret == 0 {
      ConfigInside(d, f);
      KeptWith(held, d, f, foot, rest, others);
      foot' := foot[d := f];
    } else {
      heap.Free(d);
    }
  }

  lemma LessRest(held: set<UsbDevice>, foot: map<UsbDevice, Footprint>, rest: set<object>, more: set<object>, others: set<object>)
    requires Kept(held, foot, rest + more, others)
    ensures Kept(held, foot, rest, others)
  {
    hide All, Placed, Blocks, BlocksOf;
  }

  lemma ConfigInside(d: UsbDevice, f: Footprint)
    requires Initialised(d, f)
    ensures d.config in {null} + All(f)
  {
    hide Separate, ConfigAt;
  }

  /** free of an entry that was never initialised, on the ledger. */
  method Discard(heap: Heap, d: UsbDevice, ghost held: set<UsbDevice>, ghost foot: map<UsbDevice, Footprint>,
                 ghost rest: set<object>, ghost others: set<object>, ghost refs0: map<LibDevice, int>)
    requires Ledger(heap, held, foot, rest + {d}, others, refs0) && d !in rest
    modifies heap
    ensures Ledger(heap, held, foot, rest, others, refs0)
  {
    hide BlocksOf, Kept, Referenced;
    KeptApart(held, foot, rest + {d}, others);
    heap.Free(d);
    LessRest(held, foot, rest, {d}, others);
  }

  // ---- the walks ----

  ghost function Vals(entries: set<Node<UsbDevice>>): set<UsbDevice> {
    set n | n in entries :: n.val
  }

  /** The entries in question: each has a device of its own, which is on no other list, and libusb's
      devices are among those counted. */
  ghost predicate Entries(region: set<Node<UsbDevice>>, elsewhere: set<UsbDevice>, base: set<object>, others: set<object>, refs0: map<LibDevice, int>) {
    && (forall n, m | n in region && m in region && n.val == m.val :: n == m)
    && forall n | n in region ::
         n in others && n.val !in elsewhere && n.val !in base && n.val !in others && n.val.dev in refs0 && n.val.dev.Good()
  }

  lemma ValsWithout(region: set<Node<UsbDevice>>, entries: set<Node<UsbDevice>>, n: Node<UsbDevice>)
    requires forall n, m | n in region && m in region && n.val == m.val :: n == m
    requires entries <= region && n in entries
    ensures Vals(entries - {n}) == Vals(entries) - {n.val} && n.val in Vals(entries)
  {
  }

  /** The ledger while a list of known devices is brought up to date with a list of entries found:
      the known devices, and those elsewhere, are held; the entries found are allocated, but no
      more. */
  ghost predicate Scanning(heap: Heap, known: set<Node<UsbDevice>>, found: set<Node<UsbDevice>>, elsewhere: set<UsbDevice>,
                           foot: map<UsbDevice, Footprint>, base: set<object>, others: set<object>, refs0: map<LibDevice, int>)
    reads heap, elsewhere, Vals(known), BlocksOf(elsewhere + Vals(known), foot), refs0.Keys
  {
    Ledger(heap, elsewhere + Vals(known), foot, base + Vals(found), others, refs0)
  }

  /** One entry found again is freed. */
  method DiscardEntry(heap: Heap, n: Node<UsbDevice>, ghost known: set<Node<UsbDevice>>, ghost found: set<Node<UsbDevice>>,
                      ghost region: set<Node<UsbDevice>>, ghost elsewhere: set<UsbDevice>, ghost foot: map<UsbDevice, Footprint>,
                      ghost base: set<object>, ghost others: set<object>, ghost refs0: map<LibDevice, int>)
    requires Scanning(heap, known, found, elsewhere, foot, base, others, refs0) && Entries(region, elsewhere, base, others, refs0)
    requires known <= region && found <= region && n in found
    modifies heap
    ensures Scanning(heap, known, found - {n}, elsewhere, foot, base, others, refs0)
  {
    hide Ledger, BlocksOf, Vals;
    ValsWithout(region, found, n);
    assert base + Vals(found) == base + Vals(found - {n}) + {n.val};
    Discard(heap, n.val, elsewhere + Vals(known), foot, base + Vals(found - {n}), others, refs0);
  }

  /** One known device that is gone is freed. */
  method RemoveEntry(heap: Heap, n: Node<UsbDevice>, ghost known: set<Node<UsbDevice>>, ghost found: set<Node<UsbDevice>>,
                     ghost region: set<Node<UsbDevice>>, ghost elsewhere: set<UsbDevice>, ghost foot: map<UsbDevice, Footprint>,
                     ghost base: set<object>, ghost others: set<object>, ghost refs0: map<LibDevice, int>)
    requires Scanning(heap, known, found, elsewhere, foot, base, others, refs0) && Entries(region, elsewhere, base, others, refs0)
    requires known <= region && found <= region && n in known
    modifies heap, n.val.dev`refs
    ensures Scanning(heap, known - {n}, found, elsewhere, foot, base, others, refs0)
  {
    hide Ledger, BlocksOf, Vals;
    ValsWithout(region, known, n);
    assert elsewhere + Vals(known - {n}) == (elsewhere + Vals(known)) - {n.val};
    Remove(heap, n.val, elsewhere + Vals(known), foot, base + Vals(found), others, refs0);
  }

  /** One new device is initialised, or freed if that fails. */
  method AdmitEntry(heap: Heap, n: Node<UsbDevice>, ghost known: set<Node<UsbDevice>>, ghost found: set<Node<UsbDevice>>,
                    ghost region: set<Node<UsbDevice>>, ghost elsewhere: set<UsbDevice>, ghost foot: map<UsbDevice, Footprint>,
                    ghost base: set<object>, ghost others: set<object>, ghost refs0: map<LibDevice, int>)
    returns (ret: int, ghost foot': map<UsbDevice, Footprint>)
    requires Scanning(heap, known, found, elsewhere, foot, base, others, refs0) && Entries(region, elsewhere, base, others, refs0)
    requires known <= region && found <= region && n in found && n !in known
    modifies heap, n.val, n.val.dev
    ensures ret == FirstError(n.val.dev.code, n.val.dev.configs)
    ensures Scanning(heap, if ret == 0 then known + {n} else known, found - {n}, elsewhere, foot', base, others, refs0)
  {
    hide Ledger, BlocksOf, Vals, FirstError;
    ValsWithout(region, found, n);
    ValsWith(region, known, n);
    assert base + Vals(found) == base + Vals(found - {n}) + {n.val};
    assert elsewhere + Vals(known + {n}) == (elsewhere + Vals(known)) + {n.val};
    ret, foot' := Admit(heap, n.val, elsewhere + Vals(known), foot, base + Vals(found - {n}), others, refs0);
  }

  lemma ValsWith(region: set<Node<UsbDevice>>, entries: set<Node<UsbDevice>>, n: Node<UsbDevice>)
    requires forall n, m | n in region && m in region && n.val == m.val :: n == m
    requires entries <= region && n in region && n !in entries
    ensures Vals(entries + {n}) == Vals(entries) + {n.val} && n.val !in Vals(entries)
  {
  }

  predicate Initialises(d: UsbDevice) {
    FirstError(d.dev.code, d.dev.configs) == 0
  }

  lemma ScanningApart(heap: Heap, known: set<Node<UsbDevice>>, found: set<Node<UsbDevice>>, elsewhere: set<UsbDevice>,
                      foot: map<UsbDevice, Footprint>, base: set<object>, others: set<object>, refs0: map<LibDevice, int>)
    requires Scanning(heap, known, found, elsewhere, foot, base, others, refs0)
    ensures BlocksOf(elsewhere + Vals(known), foot) !! others
    ensures BlocksOf(elsewhere + Vals(known), foot) <= heap.live
    ensures forall d | d in elsewhere + Vals(known) :: d in BlocksOf(elsewhere + Vals(known), foot)
  {
    hide BlocksOf, Kept, Referenced, Vals;
    KeptApart(elsewhere + Vals(known), foot, base + Vals(found), others);
  }

  lemma MembersInside(known: List<UsbDevice>, found: List<UsbDevice>, region: set<Node<UsbDevice>>)
    requires Apart(found, known, region)
    ensures Members(known.nodes) <= region && Members(found.nodes) <= region && Members(known.nodes) !! Members(found.nodes)
  {
  }

  /** The body of the first walk (usbcompat.h:786-810): the entry found again is freed, or the
      known device that is gone. */
  method CancelStep(heap: Heap, known: List<UsbDevice>, found: List<UsbDevice>, ent: Node<UsbDevice>,
                    ghost K: seq<Node<UsbDevice>>, ghost N: seq<Node<UsbDevice>>, ghost i: nat, ghost region: set<Node<UsbDevice>>,
                    ghost elsewhere: set<UsbDevice>, ghost foot: map<UsbDevice, Footprint>, ghost base: set<object>,
                    ghost others: set<object>, ghost refs0: map<LibDevice, int>)
    returns (following: Node?<UsbDevice>, duplicate: Node?<UsbDevice>)
    requires known.Valid() && found.Valid() && Apart(found, known, region) && DistinctKeys(K) && DistinctKeys(N)
    requires i < |K| && K[i] == ent
    requires known.nodes == Passed(K, Keys(N), i) && found.nodes == Drop(N, Keys(K[..i]))
    requires Scanning(heap, Members(known.nodes), Members(found.nodes), elsewhere, foot, base, others, refs0)
    requires Entries(region, elsewhere, base, others, refs0) && known in others && found in others
    modifies known, found, region, heap, refs0.Keys
    ensures known.Valid() && found.Valid() && Apart(found, known, region)
    ensures known.nodes == Passed(K, Keys(N), i + 1) && found.nodes == Drop(N, Keys(K[..i + 1]))
    ensures following == if i + 1 < |K| then K[i + 1] else null
    ensures duplicate != null <==> ent.key in Keys(N)
    ensures Scanning(heap, Members(known.nodes), Members(found.nodes), elsewhere, foot, base, others, refs0)
  {
    hide Keep, Drop, Keys, Passed, DistinctKeys, Linked, Ledger, Vals, BlocksOf, Members;
    MembersInside(known, found, region);
    ghost var before, entries := Members(known.nodes), Members(found.nodes);
    ScanningApart(heap, before, entries, elsewhere, foot, base, others, refs0);
    KnownAt(K, N, i, known.nodes);
    following, duplicate := CancelAt(known, found, ent, K, N, i, region);
    assert before - {} == before && entries - {} == entries;
    if duplicate != null {
      DiscardEntry(heap, duplicate, before, entries, region, elsewhere, foot, base, others, refs0);
    } else {
      RemoveEntry(heap, ent, before, entries, region, elsewhere, foot, base, others, refs0);
    }
  }

  lemma KnownAt(K: seq<Node<UsbDevice>>, N: seq<Node<UsbDevice>>, i: nat, nodes: seq<Node<UsbDevice>>)
    requires i < |K| && nodes == Passed(K, Keys(N), i)
    ensures K[i] in Members(nodes)
  {
    CancelStepKnown(K, Keys(N), i);
  }

  /** The first walk: the known devices still there stay, the others are freed, and so are the new
      entries of the former. */
  method CancelHeld(heap: Heap, known: List<UsbDevice>, found: List<UsbDevice>, ghost region: set<Node<UsbDevice>>,
                    ghost elsewhere: set<UsbDevice>, ghost foot: map<UsbDevice, Footprint>, ghost base: set<object>,
                    ghost others: set<object>, ghost refs0: map<LibDevice, int>)
    returns (changes: nat)
    requires known.Valid() && found.Valid() && Apart(found, known, region)
    requires DistinctKeys(known.nodes) && DistinctKeys(found.nodes)
    requires Scanning(heap, Members(known.nodes), Members(found.nodes), elsewhere, foot, base, others, refs0)
    requires Entries(region, elsewhere, base, others, refs0) && known in others && found in others
    modifies known, found, region, heap, refs0.Keys
    ensures known.Valid() && found.Valid() && Apart(found, known, region)
    ensures known.nodes == Keep(old(known.nodes), Keys(old(found.nodes)))
    ensures found.nodes == Drop(old(found.nodes), Keys(old(known.nodes)))
    ensures changes == |old(known.nodes)| - |known.nodes|
    ensures Scanning(heap, Members(known.nodes), Members(found.nodes), elsewhere, foot, base, others, refs0)
  {
    hide Keep, Drop, Keys, Passed, DistinctKeys, Linked, Scanning, Entries, Apart, Members;
    ghost var K, N := known.nodes, found.nodes;
    ghost var i := 0;
    changes := 0;
    var ent := known.head;
    WalkStarts(K, N);
    HeadIs(known);
    while ent != null
      invariant 0 <= i <= |K|
      invariant ent == if i < |K| then K[i] else null
      invariant known.Valid() && found.Valid() && Apart(found, known, region)
      invariant known.nodes == Passed(K, Keys(N), i) && found.nodes == Drop(N, Keys(K[..i]))
      invariant Scanning(heap, Members(known.nodes), Members(found.nodes), elsewhere, foot, base, others, refs0)
      invariant changes == i - |Keep(K[..i], Keys(N))|
      decreases |K| - i
    {
      KeepExtends(K, i, Keys(N));
      var following, duplicate := CancelStep(heap, known, found, ent, K, N, i, region, elsewhere, foot, base, others, refs0);
      if duplicate == null {
        changes := changes + 1;
      }
      ent := following;
      i := i + 1;
    }
    WalkEnds(K, N);
  }

  /** The body of the second walk (usbcompat.h:815-832): the entry is initialised and moved, or
      freed. */
  method AdmitStep(heap: Heap, known: List<UsbDevice>, found: List<UsbDevice>, ent: Node<UsbDevice>, ghost region: set<Node<UsbDevice>>,
                   ghost elsewhere: set<UsbDevice>, ghost foot: map<UsbDevice, Footprint>, ghost base: set<object>,
                   ghost others: set<object>, ghost refs0: map<LibDevice, int>)
    returns (following: Node?<UsbDevice>, admitted: bool, ghost foot': map<UsbDevice, Footprint>)
    requires known.Valid() && found.Valid() && Apart(found, known, region) && ent == found.head
    requires Scanning(heap, Members(known.nodes), Members(found.nodes), elsewhere, foot, base, others, refs0)
    requires Entries(region, elsewhere, base, others, refs0) && known in others && found in others
    modifies known, found, region, heap, refs0.Keys, ent.val
    ensures known.Valid() && found.Valid() && Apart(found, known, region)
    ensures found.nodes == old(found.nodes)[1..] && following == found.head
    ensures admitted == Initialises(ent.val)
    ensures known.nodes == if admitted then [ent] + old(known.nodes) else old(known.nodes)
    ensures Scanning(heap, Members(known.nodes), Members(found.nodes), elsewhere, foot', base, others, refs0)
  {
    hide Linked, Ledger, Vals, BlocksOf, Members, FirstError;
    MembersInside(known, found, region);
    FirstIn(found);
    ghost var before, entries := Members(known.nodes), Members(found.nodes);
    var ret;
    ret, foot' := AdmitEntry(heap, ent, before, entries, region, elsewhere, foot, base, others, refs0);
    ghost var now := if ret == 0 then before + {ent} else before;
    ScanningApart(heap, now, entries - {ent}, elsewhere, foot', base, others, refs0);
    following, admitted := AdoptHead(known, found, ent, Initialises, region);
    assert before + {} == before;
  }

  lemma FirstIn(list: List<UsbDevice>)
    requires list.Valid() && list.head != null
    ensures list.head in Members(list.nodes)
  {
  }

  /** The second walk. */
  method AdmitHeld(heap: Heap, known: List<UsbDevice>, found: List<UsbDevice>, ghost region: set<Node<UsbDevice>>,
                   ghost elsewhere: set<UsbDevice>, ghost foot: map<UsbDevice, Footprint>, ghost base: set<object>,
                   ghost others: set<object>, ghost refs0: map<LibDevice, int>)
    returns (changes: nat, ghost foot': map<UsbDevice, Footprint>)
    requires known.Valid() && found.Valid() && Apart(found, known, region)
    requires Scanning(heap, Members(known.nodes), Members(found.nodes), elsewhere, foot, base, others, refs0)
    requires Entries(region, elsewhere, base, others, refs0) && known in others && found in others
    modifies known, found, region, heap, refs0.Keys, Vals(Members(found.nodes))
    ensures known.Valid() && known.nodes == Reversed(Admitted(old(found.nodes), Initialises)) + old(known.nodes)
    ensures changes == |Admitted(old(found.nodes), Initialises)| && Members(known.nodes) <= region
    ensures Scanning(heap, Members(known.nodes), {}, elsewhere, foot', base, others, refs0)
  {
    hide Linked, Scanning, Entries, Apart, Members, Pushed, Admitted, Reversed, Initialises;
    ghost var K, N := known.nodes, found.nodes;
    ghost var i := 0;
    changes, foot' := 0, foot;
    var ent := found.head;
    NonePushed(N, Initialises, K);
    while ent != null
      invariant 0 <= i <= |N|
      invariant known.Valid() && found.Valid() && Apart(found, known, region)
      invariant ent == found.head && found.nodes == N[i..]
      invariant known.nodes == Pushed(N[..i], Initialises, K)
      invariant |known.nodes| == changes + |K|
      invariant Scanning(heap, Members(known.nodes), Members(found.nodes), elsewhere, foot', base, others, refs0)
      decreases |N| - i
    {
      HeadIs(found);
      TakeOneMore(N, i);
      PushedSnoc(N[..i], N[i], Initialises, K);
      assert N[i..][1..] == N[i + 1..] && ent == N[i];
      ValIn(N, i);
      var following, admitted;
      following, admitted, foot' := AdmitStep(heap, known, found, ent, region, elsewhere, foot', base, others, refs0);
      if admitted {
        changes := changes + 1;
      }
      ent := following;
      i := i + 1;
    }
    HeadIs(found);
    MembersInside(known, found, region);
    NoMembers(found);
    assert N[..|N|] == N;
    PushedReverses(N, Initialises, K);
  }

  lemma ValIn(nodes: seq<Node<UsbDevice>>, i: nat)
    requires i < |nodes|
    ensures nodes[i].val in Vals(Members(nodes))
  {
  }

  lemma NoMembers(list: List<UsbDevice>)
    requires list.nodes == []
    ensures Members(list.nodes) == {}
  {
  }

  // ---- one bus ----

  /** What libusb lists for a bus: a number and the device. */
  datatype Found = Found(devnum: Byte, dev: LibDevice)

  /** nodes are new entries for libs backwards, as LIST_ADD leaves them. */
  ghost predicate Backwards(nodes: seq<Node<UsbDevice>>, libs: seq<Found>) {
    |nodes| == |libs| && forall i {:trigger nodes[i]} :: 0 <= i < |nodes| ==>
      nodes[i].key == libs[|nodes| - 1 - i].devnum && nodes[i].val.dev == libs[|nodes| - 1 - i].dev
  }

  /** Every device has an entry of its own. */
  ghost predicate OwnEntries(entries: set<Node<UsbDevice>>) {
    forall n, m | n in entries && m in entries && n.val == m.val :: n == m
  }

  ghost predicate Counted(libs: seq<Found>, refs0: map<LibDevice, int>) {
    forall i {:trigger libs[i]} :: 0 <= i < |libs| ==> libs[i].dev in refs0 && libs[i].dev.Good()
  }

  lemma MoreRest(held: set<UsbDevice>, foot: map<UsbDevice, Footprint>, rest: set<object>, more: set<object>, others: set<object>)
    requires Kept(held, foot, rest, others) && BlocksOf(held, foot) !! more
    ensures Kept(held, foot, rest + more, others)
  {
    hide All, Placed, Blocks, BlocksOf;
  }

  lemma MoreOthers(held: set<UsbDevice>, foot: map<UsbDevice, Footprint>, rest: set<object>, others: set<object>, more: set<object>)
    requires Kept(held, foot, rest, others) && BlocksOf(held, foot) !! more
    ensures Kept(held, foot, rest, others + more)
  {
    hide All, Placed, Blocks, BlocksOf;
  }

  /** malloc of an entry, on the ledger. */
  method Allot(heap: Heap, dev: LibDevice, ghost held: set<UsbDevice>, ghost foot: map<UsbDevice, Footprint>,
               ghost rest: set<object>, ghost others: set<object>, ghost refs0: map<LibDevice, int>)
    returns (d: UsbDevice)
    requires Ledger(heap, held, foot, rest, others, refs0)
    modifies heap
    ensures fresh(d) && d.dev == dev
    ensures Ledger(heap, held, foot, rest + {d}, others, refs0)
  {
    hide BlocksOf, Kept, Referenced;
    KeptApart(held, foot, rest, others);
    d := heap.NewDevice(dev);
    MoreRest(held, foot, rest, {d}, others);
  }

  /** The body of find_devices: an entry is allocated and put in front. */
  method FindOne(heap: Heap, found: List<UsbDevice>, lib: Found, ghost known: set<Node<UsbDevice>>, ghost elsewhere: set<UsbDevice>,
                 ghost foot: map<UsbDevice, Footprint>, ghost base: set<object>, ghost others: set<object>, ghost refs0: map<LibDevice, int>)
    requires found.Valid()
    requires found !in BlocksOf(elsewhere + Vals(known), foot)
    requires forall n | n in found.nodes :: n !in BlocksOf(elsewhere + Vals(known), foot)
    requires Scanning(heap, known, Members(found.nodes), elsewhere, foot, base, others, refs0)
    modifies heap, found, found.nodes
    ensures found.Valid() && |found.nodes| > 0 && found.nodes[1..] == old(found.nodes)
    ensures var n := found.nodes[0]; n.key == lib.devnum && n.val.dev == lib.dev && fresh(n) && fresh(n.val)
    ensures Scanning(heap, known, Members(found.nodes), elsewhere, foot, base, others, refs0)
  {
    hide Linked, Ledger, Vals, BlocksOf, Members;
    ghost var held, entries := elsewhere + Vals(known), Members(found.nodes);
    ScanningApart(heap, known, entries, elsewhere, foot, base, others, refs0);
    var d := Allot(heap, lib.dev, held, foot, base + Vals(entries), others, refs0);
    var n := new Node<UsbDevice>(lib.devnum, d);
    ValsPlus(entries, n);
    assert base + Vals(entries + {n}) == base + Vals(entries) + {d};
    assert Scanning(heap, known, entries + {n}, elsewhere, foot, base, others, refs0);
    MembersCons(n, found.nodes);
    found.Add(n);
  }

  lemma ValsPlus(entries: set<Node<UsbDevice>>, n: Node<UsbDevice>)
    ensures Vals(entries + {n}) == Vals(entries) + {n.val}
  {
  }

  lemma MembersCons(n: Node<UsbDevice>, nodes: seq<Node<UsbDevice>>)
    ensures Members([n] + nodes) == Members(nodes) + {n}
  {
  }

  /** find_devices, for the devices of one bus. */
  method FindEntries(heap: Heap, libs: seq<Found>, ghost known: set<Node<UsbDevice>>, ghost elsewhere: set<UsbDevice>,
                     ghost foot: map<UsbDevice, Footprint>, ghost base: set<object>, ghost others: set<object>, ghost refs0: map<LibDevice, int>)
    returns (found: List<UsbDevice>)
    requires Scanning(heap, known, {}, elsewhere, foot, base, others, refs0)
    modifies heap
    ensures fresh(found) && found.Valid() && Backwards(found.nodes, libs) && OwnEntries(Members(found.nodes))
    ensures forall k {:trigger found.nodes[k]} :: 0 <= k < |found.nodes| ==> fresh(found.nodes[k]) && fresh(found.nodes[k].val)
    ensures Scanning(heap, known, Members(found.nodes), elsewhere, foot, base, others, refs0)
  {
    hide Linked, Scanning, BlocksOf, Vals, Backwards, OwnEntries;
    ScanningApart(heap, known, {}, elsewhere, foot, base, others, refs0);
    ghost var blocks := BlocksOf(elsewhere + Vals(known), foot);
    found := new List<UsbDevice>();
    NoMembers(found);
    NoneFound(found.nodes, libs[..0]);
    for i := 0 to |libs|
      invariant fresh(found) && found.Valid() && Backwards(found.nodes, libs[..i]) && OwnEntries(Members(found.nodes))
      invariant forall k {:trigger found.nodes[k]} :: 0 <= k < |found.nodes| ==> fresh(found.nodes[k]) && fresh(found.nodes[k].val)
      invariant blocks == BlocksOf(elsewhere + Vals(known), foot)
      invariant Scanning(heap, known, Members(found.nodes), elsewhere, foot, base, others, refs0)
    {
      ghost var before := found.nodes;
      FindOne(heap, found, libs[i], known, elsewhere, foot, base, others, refs0);
      TakeOneMore(libs, i);
      OneMoreFound(before, found.nodes, libs[..i], libs[i]);
      OwnOneMore(before, found.nodes[0]);
      assert found.nodes == [found.nodes[0]] + before;
    }
    assert libs[..|libs|] == libs;
  }

  lemma NoneFound(nodes: seq<Node<UsbDevice>>, libs: seq<Found>)
    requires nodes == [] && libs == []
    ensures Backwards(nodes, libs) && OwnEntries(Members(nodes))
  {
  }

  lemma OneMoreFound(before: seq<Node<UsbDevice>>, nodes: seq<Node<UsbDevice>>, libs: seq<Found>, lib: Found)
    requires Backwards(before, libs) && |nodes| > 0 && nodes[1..] == before
    requires nodes[0].key == lib.devnum && nodes[0].val.dev == lib.dev
    ensures Backwards(nodes, libs + [lib])
  {
    forall i | 0 < i < |nodes|
      ensures nodes[i] == before[i - 1]
    {
    }
  }

  lemma OwnOneMore(before: seq<Node<UsbDevice>>, n: Node<UsbDevice>)
    requires OwnEntries(Members(before)) && forall m | m in before :: m.val != n.val
    ensures OwnEntries(Members([n] + before))
  {
  }

  /** libusb lists a device once. */
  ghost predicate DistinctNumbers(libs: seq<Found>) {
    forall i, j :: 0 <= i < j < |libs| ==> libs[i].devnum != libs[j].devnum
  }

  lemma BackwardsDistinct(nodes: seq<Node<UsbDevice>>, libs: seq<Found>)
    requires Backwards(nodes, libs) && DistinctNumbers(libs)
    ensures DistinctKeys(nodes)
  {
    forall i, j | 0 <= i < j < |nodes|
      ensures nodes[i].key != nodes[j].key
    {
      assert nodes[i].key == libs[|nodes| - 1 - i].devnum && nodes[j].key == libs[|nodes| - 1 - j].devnum;
    }
  }

  /** The known entries and the new ones, together. */
  lemma EntriesTogether(known: set<Node<UsbDevice>>, N: seq<Node<UsbDevice>>, libs: seq<Found>, elsewhere: set<UsbDevice>,
                        base: set<object>, others: set<object>, more: set<object>, refs0: map<LibDevice, int>)
    requires Entries(known, elsewhere, base, others, refs0) && Backwards(N, libs) && Counted(libs, refs0) && OwnEntries(Members(N))
    requires Members(N) <= more
    requires forall n | n in known :: n.val !in more
    requires forall k {:trigger N[k]} :: 0 <= k < |N| ==>
               N[k].val !in elsewhere && N[k].val !in base && N[k].val !in others + more && forall n | n in known :: n.val != N[k].val
    ensures Entries(known + Members(N), elsewhere, base, others + more, refs0)
  {
    forall n | n in Members(N)
      ensures n in more && n.val !in elsewhere && n.val !in base && n.val !in others + more && n.val.dev in refs0 && n.val.dev.Good()
      ensures forall m | m in known :: m.val != n.val
    {
      var k :| 0 <= k < |N| && N[k] == n;
      assert libs[|N| - 1 - k].dev in refs0;
    }
  }

  lemma EntriesOf(part: set<Node<UsbDevice>>, region: set<Node<UsbDevice>>, elsewhere: set<UsbDevice>, base: set<object>, others: set<object>,
                  refs0: map<LibDevice, int>)
    requires Entries(region, elsewhere, base, others, refs0) && part <= region
    ensures Entries(part, elsewhere, base, others, refs0)
  {
  }

  /** What a scan of one bus leaves on its list, given the entries made for what libusb lists. */
  ghost predicate Scanned(K: seq<Node<UsbDevice>>, N: seq<Node<UsbDevice>>, after: seq<Node<UsbDevice>>, changes: int) {
    var added, kept := Admitted(Drop(N, Keys(K)), Initialises), Keep(K, Keys(N));
    after == Reversed(added) + kept && changes == |K| - |kept| + |added|
  }

  /** The walks of usb_find_devices over one bus's list. */
  method UpdateList(heap: Heap, known: List<UsbDevice>, found: List<UsbDevice>, ghost region: set<Node<UsbDevice>>,
                    ghost elsewhere: set<UsbDevice>, ghost foot: map<UsbDevice, Footprint>, ghost base: set<object>,
                    ghost others: set<object>, ghost refs0: map<LibDevice, int>)
    returns (changes: int, ghost foot': map<UsbDevice, Footprint>)
    requires known.Valid() && found.Valid() && Apart(found, known, region)
    requires DistinctKeys(known.nodes) && DistinctKeys(found.nodes)
    requires Scanning(heap, Members(known.nodes), Members(found.nodes), elsewhere, foot, base, others, refs0)
    requires Entries(region, elsewhere, base, others, refs0) && known in others && found in others
    modifies known, found, region, heap, refs0.Keys, Vals(Members(found.nodes))
    ensures known.Valid() && DistinctKeys(known.nodes) && Members(known.nodes) <= region
    ensures Scanned(old(known.nodes), old(found.nodes), known.nodes, changes)
    ensures Scanning(heap, Members(known.nodes), {}, elsewhere, foot', base, others, refs0)
  {
    hide Linked, Scanning, Entries, Apart, Members, Keep, Drop, Keys, Admitted, Reversed, DistinctKeys, Vals;
    ReconciledIsDistinct(known.nodes, found.nodes, Initialises);
    DropVals(found.nodes, Keys(known.nodes));
    var removed := CancelHeld(heap, known, found, region, elsewhere, foot, base, others, refs0);
    var added;
    added, foot' := AdmitHeld(heap, known, found, region, elsewhere, foot, base, others, refs0);
    changes := removed + added;
  }

  lemma DropVals(nodes: seq<Node<UsbDevice>>, ks: set<Byte>)
    ensures Vals(Members(Drop(nodes, ks))) <= Vals(Members(nodes))
  {
    DropMembers(nodes, ks);
    forall d | d in Vals(Members(Drop(nodes, ks)))
      ensures d in Vals(Members(nodes))
    {
      var n :| n in Drop(nodes, ks) && n.val == d;
    }
  }

  /** The body of usb_find_devices' loop, for one bus: afterwards exactly the blocks of the devices
      on its list, and of those elsewhere, are allocated, and exactly their references are held. N
      are the entries made for what libusb lists. */
  method ScanBus(heap: Heap, known: List<UsbDevice>, libs: seq<Found>, ghost elsewhere: set<UsbDevice>, ghost foot: map<UsbDevice, Footprint>,
                 ghost base: set<object>, ghost others: set<object>, ghost refs0: map<LibDevice, int>)
    returns (changes: int, ghost N: seq<Node<UsbDevice>>, ghost foot': map<UsbDevice, Footprint>, ghost others': set<object>)
    requires known.Valid() && DistinctKeys(known.nodes) && DistinctNumbers(libs) && Counted(libs, refs0)
    requires Scanning(heap, Members(known.nodes), {}, elsewhere, foot, base, others, refs0)
    requires Entries(Members(known.nodes), elsewhere, base, others, refs0) && known in others
    modifies known, known.nodes, heap, refs0.Keys
    ensures known.Valid() && DistinctKeys(known.nodes) && Backwards(N, libs) && Scanned(old(known.nodes), N, known.nodes, changes)
    ensures others <= others' && fresh(others' - others)
    ensures Scanning(heap, Members(known.nodes), {}, elsewhere, foot', base, others', refs0)
    ensures Entries(Members(known.nodes), elsewhere, base, others', refs0)
    ensures forall n | n in Members(known.nodes) :: n in old(Members(known.nodes)) || (fresh(n) && fresh(n.val))
  {
    hide Linked, Ledger, BlocksOf, Backwards, Scanned, Counted, DistinctNumbers, DistinctKeys, OwnEntries;
    ghost var before := Members(known.nodes);
    ScanningApart(heap, before, {}, elsewhere, foot, base, others, refs0);
    ghost var blocks := BlocksOf(elsewhere + Vals(before), foot);
    var found := FindEntries(heap, libs, before, elsewhere, foot, base, others, refs0);
    N := found.nodes;
    BackwardsDistinct(N, libs);
    ghost var more: set<object> := {found} + Members(N);
    others' := others + more;
    EntriesTogether(before, N, libs, elsewhere, base, others, more, refs0);
    MoreOthersScanning(heap, before, Members(N), elsewhere, foot, base, others, more, refs0);
    ghost var region := before + Members(N);
    changes, foot' := UpdateList(heap, known, found, region, elsewhere, foot, base, others', refs0);
    EntriesOf(Members(known.nodes), region, elsewhere, base, others', refs0);
  }

  lemma MoreOthersScanning(heap: Heap, known: set<Node<UsbDevice>>, found: set<Node<UsbDevice>>, elsewhere: set<UsbDevice>,
                           foot: map<UsbDevice, Footprint>, base: set<object>, others: set<object>, more: set<object>, refs0: map<LibDevice, int>)
    requires Scanning(heap, known, found, elsewhere, foot, base, others, refs0) && BlocksOf(elsewhere + Vals(known), foot) !! more
    ensures Scanning(heap, known, found, elsewhere, foot, base, others + more, refs0)
  {
    hide Kept, BlocksOf, Vals, Referenced;
    MoreOthers(elsewhere + Vals(known), foot, base + Vals(found), others, more);
  }

  // ---- all busses ----

  ghost function AllEntries(busses: seq<List<UsbDevice>>): set<Node<UsbDevice>>
    reads busses
  {
    set i, n | 0 <= i < |busses| && n in busses[i].nodes :: n
  }

  /** The device lists share no entry. */
  ghost predicate NoneShared(busses: seq<List<UsbDevice>>)
    reads busses
  {
    forall i, j :: 0 <= i < j < |busses| ==> busses[i] != busses[j] && Members(busses[i].nodes) !! Members(busses[j].nodes)
  }

  ghost predicate AllValid(busses: seq<List<UsbDevice>>, others: set<object>)
    reads busses, AllEntries(busses)
  {
    forall i {:trigger busses[i]} :: 0 <= i < |busses| ==>
      (EntriesOfBus(busses, i); busses[i].Valid() && DistinctKeys(busses[i].nodes) && busses[i] in others)
  }

  /** Exactly the blocks of the devices on the lists are allocated, besides the rest, and libusb has
      lent exactly one reference for each of them, besides those counted in refs0. */
  ghost predicate Inventory(heap: Heap, busses: seq<List<UsbDevice>>, foot: map<UsbDevice, Footprint>, base: set<object>,
                            others: set<object>, refs0: map<LibDevice, int>)
    reads heap, busses, AllEntries(busses), Vals(AllEntries(busses)), BlocksOf({} + Vals(AllEntries(busses)), foot), refs0.Keys
  {
    && NoneShared(busses) && AllValid(busses, others) && Entries(AllEntries(busses), {}, base, others, refs0)
    && Scanning(heap, AllEntries(busses), {}, {}, foot, base, others, refs0)
  }

  lemma EntriesOfBus(busses: seq<List<UsbDevice>>, i: nat)
    requires i < |busses|
    ensures forall n | n in busses[i].nodes :: n in AllEntries(busses)
  {
  }

  /** One list and the others. */
  lemma OtherEntries(busses: seq<List<UsbDevice>>, i: nat)
    requires i < |busses|
    ensures AllEntries(busses) == AllEntries(Without(busses, i)) + Members(busses[i].nodes)
  {
    hide Without;
    var left := Without(busses, i);
    forall j | 0 <= j < |busses| && j != i
      ensures busses[j] == left[if j < i then j else j - 1]
    {
    }
    forall n | n in AllEntries(busses)
      ensures n in AllEntries(left) + Members(busses[i].nodes)
    {
      var j :| 0 <= j < |busses| && n in busses[j].nodes;
      if j != i {
        assert n in left[if j < i then j else j - 1].nodes;
      }
    }
    forall n | n in AllEntries(left)
      ensures n in AllEntries(busses)
    {
      var j :| 0 <= j < |left| && n in left[j].nodes;
      assert n in busses[if j < i then j else j + 1].nodes;
    }
  }

  /** The list at index i is apart from the others, which are apart from each other. */
  ghost predicate OneApart(busses: seq<List<UsbDevice>>, i: nat)
    requires i < |busses|
    reads busses
  {
    && NoneShared(Without(busses, i)) && busses[i] !in Without(busses, i)
    && AllEntries(Without(busses, i)) !! Members(busses[i].nodes)
  }

  lemma ApartIff(busses: seq<List<UsbDevice>>, i: nat)
    requires i < |busses|
    ensures NoneShared(busses) <==> OneApart(busses, i)
  {
    hide NoneShared, OneApart;
    if NoneShared(busses) {
      SharedSplits(busses, i);
    }
    if OneApart(busses, i) {
      ApartJoins(busses, i);
    }
  }

  lemma SharedSplits(busses: seq<List<UsbDevice>>, i: nat)
    requires i < |busses| && NoneShared(busses)
    ensures OneApart(busses, i)
  {
    hide Without, Members;
    var left := Without(busses, i);
    assert forall j :: 0 <= j < |left| ==> left[j] == busses[if j < i then j else j + 1];
    forall n | n in AllEntries(left)
      ensures n !in Members(busses[i].nodes)
    {
      var j :| 0 <= j < |left| && n in left[j].nodes;
      InMembers(n, left[j].nodes);
    }
  }

  lemma ApartJoins(busses: seq<List<UsbDevice>>, i: nat)
    requires i < |busses| && OneApart(busses, i)
    ensures NoneShared(busses)
  {
    hide Without, Members, AllEntries;
    var left := Without(busses, i);
    assert forall j :: 0 <= j < |busses| && j != i ==> busses[j] == left[if j < i then j else j - 1];
    forall j | 0 <= j < |busses| && j != i
      ensures busses[j] != busses[i] && Members(busses[j].nodes) !! Members(busses[i].nodes)
    {
      PartOfAll(left, if j < i then j else j - 1);
    }
  }

  lemma InMembers(n: Node<UsbDevice>, nodes: seq<Node<UsbDevice>>)
    ensures n in nodes <==> n in Members(nodes)
  {
  }

  lemma PartOfAll(busses: seq<List<UsbDevice>>, i: nat)
    requires i < |busses|
    ensures Members(busses[i].nodes) <= AllEntries(busses) && busses[i] in busses
  {
  }

  lemma ValidIff(busses: seq<List<UsbDevice>>, i: nat, others: set<object>)
    requires i < |busses|
    ensures AllValid(busses, others) <==>
              AllValid(Without(busses, i), others) && busses[i].Valid() && DistinctKeys(busses[i].nodes) && busses[i] in others
  {
    hide Without, Linked, DistinctKeys;
    var left := Without(busses, i);
    assert forall j :: 0 <= j < |left| ==> left[j] == busses[if j < i then j else j + 1];
    assert forall j :: 0 <= j < |busses| && j != i ==> busses[j] == left[if j < i then j else j - 1];
  }

  lemma ValsTogether(a: set<Node<UsbDevice>>, b: set<Node<UsbDevice>>)
    ensures Vals(a + b) == Vals(a) + Vals(b)
  {
  }

  /** One list's share of the entries, and the way back. */
  lemma EntriesSplit(rest: set<Node<UsbDevice>>, part: set<Node<UsbDevice>>, base: set<object>, others: set<object>, refs0: map<LibDevice, int>)
    requires Entries(rest + part, {}, base, others, refs0) && rest !! part
    ensures Entries(part, Vals(rest), base, others, refs0) && Entries(rest, {}, base, others, refs0)
  {
  }

  lemma EntriesJoin(rest: set<Node<UsbDevice>>, part: set<Node<UsbDevice>>, base: set<object>, others: set<object>, refs0: map<LibDevice, int>)
    requires Entries(rest, {}, base, others, refs0) && Entries(part, Vals(rest), base, others, refs0)
    ensures Entries(rest + part, {}, base, others, refs0)
  {
    forall n, m | n in rest && m in part
      ensures n.val != m.val
    {
      assert n.val in Vals(rest);
    }
  }

  /** The inventory, in terms of one bus and the others. */
  ghost predicate Divided(heap: Heap, busses: seq<List<UsbDevice>>, i: nat, foot: map<UsbDevice, Footprint>, base: set<object>,
                          others: set<object>, refs0: map<LibDevice, int>)
    requires i < |busses|
    reads *
  {
    var left, known := Without(busses, i), busses[i];
    var rest := AllEntries(left);
    && OneApart(busses, i) && AllValid(left, others) && known.Valid() && DistinctKeys(known.nodes) && known in others
    && Entries(rest, {}, base, others, refs0) && Entries(Members(known.nodes), Vals(rest), base, others, refs0)
    && Scanning(heap, Members(known.nodes), {}, Vals(rest), foot, base, others, refs0)
  }

  lemma InventoryDivides(heap: Heap, busses: seq<List<UsbDevice>>, i: nat, foot: map<UsbDevice, Footprint>, base: set<object>,
                         others: set<object>, refs0: map<LibDevice, int>)
    requires i < |busses|
    ensures Inventory(heap, busses, foot, base, others, refs0) <==> Divided(heap, busses, i, foot, base, others, refs0)
  {
    hide Ledger, Vals, BlocksOf, Linked, DistinctKeys, AllEntries, Without, NoneShared, AllValid, OneApart, Members;
    var rest, part := AllEntries(Without(busses, i)), Members(busses[i].nodes);
    OtherEntries(busses, i);
    ApartIff(busses, i);
    ValidIff(busses, i, others);
    ValsTogether(rest, part);
    assert {} + Vals(rest + part) == Vals(rest) + Vals(part);
    EntriesIff(rest, part, base, others, refs0);
    if OneApart(busses, i) {
      ApartMeans(busses, i);
    }
  }

  lemma ApartMeans(busses: seq<List<UsbDevice>>, i: nat)
    requires i < |busses| && OneApart(busses, i)
    ensures AllEntries(Without(busses, i)) !! Members(busses[i].nodes) && busses[i] !in Without(busses, i)
    ensures NoneShared(Without(busses, i))
  {
  }

  lemma EntriesIff(rest: set<Node<UsbDevice>>, part: set<Node<UsbDevice>>, base: set<object>, others: set<object>, refs0: map<LibDevice, int>)
    ensures rest !! part ==>
              (Entries(rest + part, {}, base, others, refs0) <==>
                 Entries(part, Vals(rest), base, others, refs0) && Entries(rest, {}, base, others, refs0))
  {
    if rest !! part {
      if Entries(rest + part, {}, base, others, refs0) {
        EntriesSplit(rest, part, base, others, refs0);
      }
      if Entries(part, Vals(rest), base, others, refs0) && Entries(rest, {}, base, others, refs0) {
        EntriesJoin(rest, part, base, others, refs0);
      }
    }
  }

  /** One turn of usb_find_devices. */
  method ScanNth(heap: Heap, busses: seq<List<UsbDevice>>, i: nat, libs: seq<Found>, ghost foot: map<UsbDevice, Footprint>,
                 ghost base: set<object>, ghost others: set<object>, ghost refs0: map<LibDevice, int>)
    returns (changes: int, ghost N: seq<Node<UsbDevice>>, ghost foot': map<UsbDevice, Footprint>, ghost others': set<object>)
    requires i < |busses| && Inventory(heap, busses, foot, base, others, refs0)
    requires DistinctNumbers(libs) && Counted(libs, refs0)
    modifies heap, busses[i], busses[i].nodes, refs0.Keys
    ensures Inventory(heap, busses, foot', base, others', refs0) && others <= others' && fresh(others' - others)
    ensures Backwards(N, libs) && Scanned(old(busses[i].nodes), N, busses[i].nodes, changes)
    ensures forall j | 0 <= j < |busses| && j != i :: busses[j].nodes == old(busses[j].nodes)
  {
    hide Inventory, Scanning, Vals, BlocksOf, Linked, DistinctKeys, Backwards, Scanned, Entries, AllEntries, NoneShared, AllValid, Without;
    InventoryDivides(heap, busses, i, foot, base, others, refs0);
    OtherLists(busses, i);
    var known := busses[i];
    ghost var left := Without(busses, i);
    ghost var rest := AllEntries(left);
    EntriesVals(rest, base, others, refs0);
    changes, N, foot', others' := ScanBus(heap, known, libs, Vals(rest), foot, base, others, refs0);
    assert AllEntries(left) == rest && NoneShared(left);
    assert AllValid(left, others);
    MoreOthersValid(left, others, others');
    assert forall n | n in rest :: n.val !in others';
    MoreOthersEntries(rest, base, others, others', refs0);
    InventoryDivides(heap, busses, i, foot', base, others', refs0);
  }

  lemma OtherLists(busses: seq<List<UsbDevice>>, i: nat)
    requires i < |busses| && OneApart(busses, i)
    ensures forall j | 0 <= j < |busses| && j != i :: busses[j] != busses[i]
    ensures forall b | b in Without(busses, i) :: b != busses[i]
  {
    hide Without, NoneShared;
    forall j | 0 <= j < |busses| && j != i
      ensures busses[j] in Without(busses, i)
    {
      assert Without(busses, i)[if j < i then j else j - 1] == busses[j];
    }
  }

  lemma EntriesVals(entries: set<Node<UsbDevice>>, base: set<object>, others: set<object>, refs0: map<LibDevice, int>)
    requires Entries(entries, {}, base, others, refs0)
    ensures forall n | n in entries :: n.val !in others
  {
  }

  lemma MoreOthersValid(busses: seq<List<UsbDevice>>, others: set<object>, more: set<object>)
    requires AllValid(busses, others) && others <= more
    ensures AllValid(busses, more)
  {
    hide Linked, DistinctKeys;
  }

  lemma MoreOthersEntries(entries: set<Node<UsbDevice>>, base: set<object>, others: set<object>, more: set<object>, refs0: map<LibDevice, int>)
    requires Entries(entries, {}, base, others, refs0) && others <= more && forall n | n in entries :: n.val !in more
    ensures Entries(entries, {}, base, more, refs0)
  {
  }

  /** The first n lists were scanned, the others not yet. */
  ghost predicate ScannedUpTo(busses: seq<List<UsbDevice>>, before: seq<seq<Node<UsbDevice>>>, libs: seq<seq<Found>>,
                              Ns: seq<seq<Node<UsbDevice>>>, deltas: seq<int>, n: nat)
    requires n <= |busses| == |before| == |libs|
    reads busses
  {
    && |Ns| == |deltas| == n
    && (forall i {:trigger Ns[i]} :: 0 <= i < n ==> Backwards(Ns[i], libs[i]) && Scanned(before[i], Ns[i], busses[i].nodes, deltas[i]))
    && (forall i {:trigger before[i]} :: n <= i < |busses| ==> busses[i].nodes == before[i])
  }

  ghost function Sum(deltas: seq<int>): int {
    if deltas == [] then 0 else Sum(deltas[..|deltas| - 1]) + deltas[|deltas| - 1]
  }

  lemma SumSnoc(deltas: seq<int>, x: int)
    ensures Sum(deltas + [x]) == Sum(deltas) + x
  {
    assert (deltas + [x])[..|deltas|] == deltas;
  }

  /** The sum of a sequence is the sum of its parts. */
  lemma {:induction false} SumSplits(a: seq<int>, b: seq<int>)
    ensures Sum(a + b) == Sum(a) + Sum(b) && Sum([]) == 0 && forall x: int :: Sum([x]) == x
    decreases |b|
  {
    forall x: int
      ensures Sum([x]) == x
    {
      SumSnoc([], x);
      assert [] + [x] == [x];
    }
    if b == [] {
      assert a + b == a;
    } else {
      var n := |b| - 1;
      SumSplits(a, b[..n]);
      assert a + b == (a + b[..n]) + [b[n]] && b == b[..n] + [b[n]];
      SumSnoc(a + b[..n], b[n]);
      SumSnoc(b[..n], b[n]);
    }
  }

  /** The changes of one bus are the entries gone and the entries come. */
  lemma ChangesCount(K: seq<Node<UsbDevice>>, N: seq<Node<UsbDevice>>, libs: seq<Found>, after: seq<Node<UsbDevice>>, changes: int)
    requires DistinctKeys(K) && DistinctNumbers(libs) && Backwards(N, libs) && Scanned(K, N, after, changes)
    ensures changes == |Members(K) - Members(after)| + |Members(after) - Members(K)|
  {
    hide Reversed, Admitted, Drop, Keep, DistinctKeys, Initialises, Backwards, Members;
    BackwardsDistinct(N, libs);
    var rest := Drop(N, Keys(K));
    var added := Admitted(rest, Initialises);
    DropMembers(N, Keys(K));
    DropKeepsDistinct(N, Keys(K));
    AdmittedMembers(rest, Initialises);
    ReversedIsDistinct(added);
    forall i | 0 <= i < |added|
      ensures Reversed(added)[i].key !in Keys(K)
    {
      assert Reversed(added)[i] == added[|added| - 1 - i];
      assert added[|added| - 1 - i] in rest;
    }
    CountChanges(K, Reversed(added), Keys(N));
  }

  lemma OneMoreScanned(busses: seq<List<UsbDevice>>, before: seq<seq<Node<UsbDevice>>>, libs: seq<seq<Found>>,
                       Ns: seq<seq<Node<UsbDevice>>>, deltas: seq<int>, i: nat, N: seq<Node<UsbDevice>>, delta: int)
    requires i < |busses| == |before| == |libs| && |Ns| == |deltas| == i
    requires forall j {:trigger Ns[j]} :: 0 <= j < i ==> Backwards(Ns[j], libs[j]) && Scanned(before[j], Ns[j], busses[j].nodes, deltas[j])
    requires forall j {:trigger before[j]} :: i < j < |busses| ==> busses[j].nodes == before[j]
    requires Backwards(N, libs[i]) && Scanned(before[i], N, busses[i].nodes, delta)
    ensures ScannedUpTo(busses, before, libs, Ns + [N], deltas + [delta], i + 1)
  {
    hide Backwards, Scanned;
  }

  /** usb_find_devices over all busses: whatever libusb lists, and whatever of it initialises,
      afterwards exactly the blocks of the devices on the lists are allocated, each apart from all
      others, and libusb has lent exactly one reference for each of them. */
  method UsbFindDevices(heap: Heap, busses: seq<List<UsbDevice>>, libs: seq<seq<Found>>, ghost before: seq<seq<Node<UsbDevice>>>,
                        ghost foot: map<UsbDevice, Footprint>, ghost base: set<object>, ghost others: set<object>, ghost refs0: map<LibDevice, int>)
    returns (changes: int, ghost Ns: seq<seq<Node<UsbDevice>>>, ghost deltas: seq<int>, ghost foot': map<UsbDevice, Footprint>, ghost others': set<object>)
    requires |busses| == |before| == |libs| && forall i {:trigger before[i]} :: 0 <= i < |busses| ==> busses[i].nodes == before[i]
    requires Inventory(heap, busses, foot, base, others, refs0)
    requires forall i {:trigger libs[i]} :: 0 <= i < |libs| ==> DistinctNumbers(libs[i]) && Counted(libs[i], refs0)
    modifies heap, busses, AllEntries(busses), refs0.Keys
    ensures Inventory(heap, busses, foot', base, others', refs0)
    ensures ScannedUpTo(busses, before, libs, Ns, deltas, |busses|) && changes == Sum(deltas)
  {
    hide Inventory, Scanned, Backwards, DistinctNumbers, Counted, Sum;
    changes, Ns, deltas, foot', others' := 0, [], [], foot, others;
    ghost var entries := AllEntries(busses);
    BeforeIsOurs(busses, before);
    NoSum();
    for i := 0 to |busses|
      invariant Inventory(heap, busses, foot', base, others', refs0)
      invariant ScannedUpTo(busses, before, libs, Ns, deltas, i) && changes == Sum(deltas)
    {
      ghost var N;
      var delta;
      assert busses[i].nodes == before[i];
      assert forall j {:trigger Ns[j]} :: 0 <= j < i ==> Scanned(before[j], Ns[j], busses[j].nodes, deltas[j]);
      assert forall n | n in busses[i].nodes :: n in entries;
      delta, N, foot', others' := ScanNth(heap, busses, i, libs[i], foot', base, others', refs0);
      OneMoreScanned(busses, before, libs, Ns, deltas, i, N, delta);
      SumSnoc(deltas, delta);
      changes, Ns, deltas := changes + delta, Ns + [N], deltas + [delta];
    }
  }

  lemma BeforeIsOurs(busses: seq<List<UsbDevice>>, before: seq<seq<Node<UsbDevice>>>)
    requires |busses| == |before| && forall i {:trigger before[i]} :: 0 <= i < |busses| ==> busses[i].nodes == before[i]
    ensures forall i, n | 0 <= i < |before| && n in before[i] :: n in AllEntries(busses)
  {
  }

  lemma NoSum()
    ensures Sum([]) == 0
  {
  }

  /** Once no list has a device any more, nothing of any scan is left: the rest is all that is
      allocated, and libusb has all of its references back. */
  lemma NothingListedNothingHeld(heap: Heap, busses: seq<List<UsbDevice>>, foot: map<UsbDevice, Footprint>, base: set<object>,
                                 others: set<object>, refs0: map<LibDevice, int>)
    requires Inventory(heap, busses, foot, base, others, refs0) && forall i {:trigger busses[i]} :: 0 <= i < |busses| ==> busses[i].nodes == []
    ensures heap.live == base && forall lib | lib in refs0 :: lib.refs == refs0[lib]
  {
    hide Kept, Entries;
    assert AllEntries(busses) == {};
    assert {} + Vals({}) == {} && base + Vals({}) == base;
    assert BlocksOf({}, foot) == {};
    forall lib | lib in refs0
      ensures Count({}, lib) == 0
    {
      assert Using({}, lib) == {};
    }
  }
}
