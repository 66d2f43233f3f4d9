/** The reconciliation both registry scans perform: cancel a freshly built list against the
    known one, delete what vanished while walking, then move what is left over. */
module Reconciliation {
  import opened Bytes
  import opened LinkedLists

  ghost predicate DistinctKeys<T>(nodes: seq<Node<T>>) {
    forall i, j :: 0 <= i < j < |nodes| ==> nodes[i].key != nodes[j].key
  }

  ghost function Keys<T>(nodes: seq<Node<T>>): set<Byte> {
    set n | n in nodes :: n.key
  }

  ghost function Members<T>(nodes: seq<Node<T>>): set<Node<T>> {
    set n | n in nodes
  }

  /** The entries whose key is in ks, in order. */
  ghost function Keep<T>(nodes: seq<Node<T>>, ks: set<Byte>): (kept: seq<Node<T>>)
  {
    if nodes == [] then []
    else
      var last := nodes[|nodes| - 1];
      Keep(nodes[..|nodes| - 1], ks) + if last.key in ks then [last] else []
  }

  /** The entries whose key is not in ks, in order. */
  ghost function Drop<T>(nodes: seq<Node<T>>, ks: set<Byte>): (rest: seq<Node<T>>)
  {
    if nodes == [] then []
    else
      var last := nodes[|nodes| - 1];
      Drop(nodes[..|nodes| - 1], ks) + if last.key in ks then [] else [last]
  }

  /** The entries that pass the admission test, in order. */
  ghost function Admitted<T>(nodes: seq<Node<T>>, admit: T -> bool): (rest: seq<Node<T>>)
  {
    if nodes == [] then []
    else
      var last := nodes[|nodes| - 1];
      Admitted(nodes[..|nodes| - 1], admit) + if admit(last.val) then [last] else []
  }

  ghost function Reversed<T>(s: seq<T>): (r: seq<T>)
    ensures |r| == |s|
    ensures forall i :: 0 <= i < |s| ==> r[i] == s[|s| - 1 - i]
  {
    if s == [] then [] else [s[|s| - 1]] + Reversed(s[..|s| - 1])
  }

  lemma {:induction false} KeepMembers<T>(nodes: seq<Node<T>>, ks: set<Byte>)
    ensures forall i {:trigger Keep(nodes, ks)[i]} :: 0 <= i < |Keep(nodes, ks)| ==>
              Keep(nodes, ks)[i] in nodes && Keep(nodes, ks)[i].key in ks
    ensures forall i {:trigger nodes[i].key} :: 0 <= i < |nodes| && nodes[i].key in ks ==> nodes[i] in Keep(nodes, ks)
    ensures |Keep(nodes, ks)| <= |nodes|
  {
    if nodes != [] {
      KeepMembers(nodes[..|nodes| - 1], ks);
      assert nodes == nodes[..|nodes| - 1] + [nodes[|nodes| - 1]];
    }
  }

  /** Entries with distinct keys are as many as their set has. */
  lemma {:induction false} CountMembers<T>(nodes: seq<Node<T>>)
    requires DistinctKeys(nodes)
    ensures |Members(nodes)| == |nodes|
  {
    if nodes != [] {
      var init, last := nodes[..|nodes| - 1], nodes[|nodes| - 1];
      CountMembers(init);
      assert Members(nodes) == Members(init) + {last};
      assert last !in Members(init);
    }
  }

  /** The entries gone and the entries come, counted, when new ones went in front of those kept. */
  lemma CountChanges<T>(before: seq<Node<T>>, added: seq<Node<T>>, ks: set<Byte>)
    requires DistinctKeys(before) && DistinctKeys(added) && forall i {:trigger added[i]} :: 0 <= i < |added| ==> added[i].key !in Keys(before)
    ensures var after := Members(added + Keep(before, ks));
            && |Members(before) - after| == |before| - |Keep(before, ks)|
            && |after - Members(before)| == |added|
  {
    var kept := Keep(before, ks);
    var after := Members(added + kept);
    KeepMembers(before, ks);
    KeepKeepsDistinct(before, ks);
    CountMembers(before);
    CountMembers(kept);
    CountMembers(added);
    assert Members(kept) <= Members(before) by {
      forall n | n in Members(kept)
        ensures n in Members(before)
      {
        var i :| 0 <= i < |kept| && kept[i] == n;
      }
    }
    forall n | n in Members(added)
      ensures n !in Members(before)
    {
      var i :| 0 <= i < |added| && added[i] == n;
    }
    assert Members(before) - after == Members(before) - Members(kept);
    assert after - Members(before) == Members(added);
  }

  lemma {:induction false} DropMembers<T>(nodes: seq<Node<T>>, ks: set<Byte>)
    ensures forall i {:trigger Drop(nodes, ks)[i]} :: 0 <= i < |Drop(nodes, ks)| ==>
              Drop(nodes, ks)[i] in nodes && Drop(nodes, ks)[i].key !in ks
    ensures forall i {:trigger nodes[i].key} :: 0 <= i < |nodes| && nodes[i].key !in ks ==> nodes[i] in Drop(nodes, ks)
  {
    if nodes != [] {
      DropMembers(nodes[..|nodes| - 1], ks);
      assert nodes == nodes[..|nodes| - 1] + [nodes[|nodes| - 1]];
    }
  }

  lemma KeepExtends<T>(nodes: seq<Node<T>>, i: nat, ks: set<Byte>)
    requires i < |nodes|
    ensures Keep(nodes[..i + 1], ks) ==
            Keep(nodes[..i], ks) + if nodes[i].key in ks then [nodes[i]] else []
  {
    assert nodes[..i + 1][..i] == nodes[..i];
  }

  lemma {:induction false} DropNothing<T>(nodes: seq<Node<T>>, ks: set<Byte>)
    requires Keys(nodes) !! ks
    ensures Drop(nodes, ks) == nodes
  {
    if nodes != [] {
      var init, last := nodes[..|nodes| - 1], nodes[|nodes| - 1];
      assert last.key in Keys(nodes);
      assert Keys(init) <= Keys(nodes);
      DropNothing(init, ks);
    }
  }

  lemma DropSnoc<T>(init: seq<Node<T>>, last: Node<T>, ks: set<Byte>)
    ensures Drop(init + [last], ks) == Drop(init, ks) + if last.key in ks then [] else [last]
  {
    assert (init + [last])[..|init|] == init;
  }

  lemma {:induction false} DropTwice<T>(nodes: seq<Node<T>>, ks: set<Byte>, more: set<Byte>)
    ensures Drop(Drop(nodes, ks), more) == Drop(nodes, ks + more)
  {
    if nodes != [] {
      var init, last := nodes[..|nodes| - 1], nodes[|nodes| - 1];
      assert nodes == init + [last];
      DropTwice(init, ks, more);
      DropSnoc(init, last, ks);
      DropSnoc(init, last, ks + more);
      if last.key in ks {
        assert Drop(nodes, ks) == Drop(init, ks) + [] == Drop(init, ks);
        assert Drop(nodes, ks + more) == Drop(init, ks + more) + [];
      } else {
        DropSnoc(Drop(init, ks), last, more);
        assert last.key in ks + more <==> last.key in more;
      }
    }
  }

  lemma DistinctSnoc<T>(nodes: seq<Node<T>>, n: Node<T>)
    requires DistinctKeys(nodes) && forall i :: 0 <= i < |nodes| ==> nodes[i].key != n.key
    ensures DistinctKeys(nodes + [n])
  {
  }

  lemma {:induction false} DropKeepsDistinct<T>(nodes: seq<Node<T>>, ks: set<Byte>)
    requires DistinctKeys(nodes)
    ensures DistinctKeys(Drop(nodes, ks))
  {
    if nodes != [] {
      var init, last := nodes[..|nodes| - 1], nodes[|nodes| - 1];
      DropMembers(init, ks);
      DropKeepsDistinct(init, ks);
      var rest := Drop(init, ks);
      forall i | 0 <= i < |rest|
        ensures rest[i].key != last.key
      {
        assert rest[i] in rest;
      }
      DistinctSnoc(rest, last);
    }
  }

  lemma {:induction false} KeepKeepsDistinct<T>(nodes: seq<Node<T>>, ks: set<Byte>)
    requires DistinctKeys(nodes)
    ensures DistinctKeys(Keep(nodes, ks))
  {
    if nodes != [] {
      var init, last := nodes[..|nodes| - 1], nodes[|nodes| - 1];
      KeepMembers(init, ks);
      KeepKeepsDistinct(init, ks);
      var rest := Keep(init, ks);
      forall i | 0 <= i < |rest|
        ensures rest[i].key != last.key
      {
        assert rest[i] in rest;
      }
      DistinctSnoc(rest, last);
    }
  }

  /** Deleting the one entry with key k is dropping that key. */
  lemma {:induction false} DropOne<T>(nodes: seq<Node<T>>, j: nat)
    requires DistinctKeys(nodes) && j < |nodes|
    ensures Drop(nodes, {nodes[j].key}) == Without(nodes, j)
  {
    var init, last, k := nodes[..|nodes| - 1], nodes[|nodes| - 1], nodes[j].key;
    assert nodes == init + [last];
    DropSnoc(init, last, {k});
    if j == |nodes| - 1 {
      assert k !in Keys(init);
      DropNothing(init, {k});
      assert Without(nodes, j) == init;
    } else {
      DropOne(init, j);
      assert Without(nodes, j) == Without(init, j) + [last];
    }
  }

  /** Two lists that share no entry; region has the entries of both. */
  ghost predicate Apart<T>(a: List<T>, b: List<T>, region: set<Node<T>>)
    reads a, b
  {
    && a != b
    && (forall i {:trigger a.nodes[i]} :: 0 <= i < |a.nodes| ==> a.nodes[i] in region && a.nodes[i] !in b.nodes)
    && (forall i {:trigger b.nodes[i]} :: 0 <= i < |b.nodes| ==> b.nodes[i] in region && b.nodes[i] !in a.nodes)
  }

  /** Nothing is leaked: of the region, only entries of the two lists are still allocated. */
  ghost predicate NoneLost<T>(a: List<T>, b: List<T>, region: set<Node<T>>)
    reads a, b, region
  {
    forall n | n in region && n.live :: n in a.nodes || n in b.nodes
  }

  lemma WithoutKeeps<T>(nodes: seq<T>, k: nat)
    requires k < |nodes|
    ensures forall n | n in nodes && n != nodes[k] :: n in Without(nodes, k)
  {
    assert nodes == nodes[..k] + [nodes[k]] + nodes[k + 1..];
  }

  /** LIST_DEL on one of two lists that share no entry. */
  method DeleteApart<T>(list: List<T>, other: List<T>, ent: Node<T>, ghost k: nat, ghost region: set<Node<T>>)
    requires list.Valid() && other.Valid() && Apart(list, other, region)
    requires k < |list.nodes| && list.nodes[k] == ent
    modifies list, region
    ensures list.Valid() && other.Valid() && Apart(list, other, region)
    ensures list.nodes == Without(old(list.nodes), k)
    ensures ent in region && ent.live && ent !in list.nodes && ent !in other.nodes
    ensures old(NoneLost(other, list, region)) ==> forall n | n in region && n.live && n != ent :: n in list.nodes || n in other.nodes
  {
    WithoutKeeps(list.nodes, k);
    list.Delete(ent, k);
    assert other.Valid();
  }

  /** LIST_DEL, then free. */
  method DeleteAndFree<T>(list: List<T>, other: List<T>, ent: Node<T>, ghost k: nat, ghost region: set<Node<T>>)
    requires list.Valid() && other.Valid() && Apart(list, other, region)
    requires k < |list.nodes| && list.nodes[k] == ent
    modifies list, region
    ensures list.Valid() && other.Valid() && Apart(list, other, region)
    ensures list.nodes == Without(old(list.nodes), k) && Members(list.nodes) == old(Members(list.nodes)) - {ent} && !ent.live
    ensures old(NoneLost(other, list, region)) ==> NoneLost(other, list, region)
  {
    WithoutMembers(list.nodes, k);
    DeleteApart(list, other, ent, k, region);
    Free(ent);
  }

  lemma WithoutMembers<T>(nodes: seq<Node<T>>, k: nat)
    requires k < |nodes| && forall i, j :: 0 <= i < j < |nodes| ==> nodes[i] != nodes[j]
    ensures Members(Without(nodes, k)) == Members(nodes) - {nodes[k]}
  {
    WithoutKeeps(nodes, k);
  }

  lemma NextIs<T>(list: List<T>, k: nat)
    requires list.Valid() && k < |list.nodes|
    ensures list.nodes[k].next == if k + 1 < |list.nodes| then list.nodes[k + 1] else null
  {
  }

  lemma ApartSwaps<T>(a: List<T>, b: List<T>, region: set<Node<T>>)
    ensures Apart(a, b, region) <==> Apart(b, a, region)
    ensures NoneLost(a, b, region) <==> NoneLost(b, a, region)
  {
  }

  /** LIST_ADD on one of two lists that share no entry. */
  method AddApart<T>(list: List<T>, other: List<T>, ent: Node<T>, ghost region: set<Node<T>>)
    requires list.Valid() && other.Valid() && Apart(list, other, region)
    requires ent in region && ent.live && ent !in list.nodes && ent !in other.nodes
    modifies list, region
    ensures list.Valid() && other.Valid() && Apart(list, other, region)
    ensures list.nodes == [ent] + old(list.nodes)
    ensures old(forall n | n in region && n.live && n != ent :: n in list.nodes || n in other.nodes) ==> NoneLost(list, other, region)
  {
    list.Add(ent);
    assert other.Valid();
  }

  /** The inner walk (usbcompat.h:459-469, 792-800): delete and free the entry with this key; that
      entry, if there was one. */
  method CancelOne<T>(known: List<T>, found: List<T>, key: Byte, ghost region: set<Node<T>>)
    returns (removed: Node?<T>)
    requires known.Valid() && found.Valid() && Apart(found, known, region) && DistinctKeys(found.nodes)
    modifies found, region
    ensures known.Valid() && found.Valid() && Apart(found, known, region)
    ensures old(NoneLost(known, found, region)) ==> NoneLost(known, found, region)
    ensures removed != null <==> key in Keys(old(found.nodes))
    ensures removed != null ==> removed.key == key && removed in old(Members(found.nodes)) && !removed.live
    ensures Members(found.nodes) == old(Members(found.nodes)) - if removed == null then {} else {removed}
    ensures found.nodes == Drop(old(found.nodes), {key})
    ensures forall l {:trigger old(found.nodes)[l]} :: 0 <= l < |old(found.nodes)| && old(found.nodes)[l].key == key ==>
      !old(found.nodes)[l].live
  {
    ghost var N := found.nodes;
    ghost var j := 0;
    var ent := found.head;
    while ent != null
      invariant 0 <= j <= |N|
      invariant ent == if j < |N| then N[j] else null
      invariant forall l :: 0 <= l < j ==> N[l].key != key
      decreases |N| - j
    {
      assert ent == found.nodes[j];
      var following := ent.next;
      if ent.key == key {
        DropOne(N, j);
        DeleteAndFree(found, known, ent, j, region);
        return ent;
      }
      ent := following;
      j := j + 1;
    }
    DropNothing(N, {key});
    return null;
  }

  /** What one turn of the walk does to the new list ... */
  lemma CancelStepFound<T>(K: seq<Node<T>>, N: seq<Node<T>>, i: nat)
    requires DistinctKeys(K) && DistinctKeys(N) && i < |K|
    ensures DistinctKeys(Drop(N, Keys(K[..i])))
    ensures K[i].key in Keys(Drop(N, Keys(K[..i]))) <==> K[i].key in Keys(N)
    ensures Drop(Drop(N, Keys(K[..i])), {K[i].key}) == Drop(N, Keys(K[..i + 1]))
  {
    hide Drop, Keys, DistinctKeys;
    var ks := Keys(K[..i]);
    DropKeepsDistinct(N, ks);
    DropTwice(N, ks, {K[i].key});
    KeysExtend(K, i);
    NotDropped(N, ks, K[i].key);
  }

  lemma KeysExtend<T>(K: seq<Node<T>>, i: nat)
    requires i < |K| && DistinctKeys(K)
    ensures Keys(K[..i + 1]) == Keys(K[..i]) + {K[i].key} && K[i].key !in Keys(K[..i])
  {
    assert K[..i + 1] == K[..i] + [K[i]];
  }

  lemma NotDropped<T>(N: seq<Node<T>>, ks: set<Byte>, key: Byte)
    requires key !in ks
    ensures key in Keys(Drop(N, ks)) <==> key in Keys(N)
  {
    hide Drop;
    DropMembers(N, ks);
    if key in Keys(N) {
      var n :| n in N && n.key == key;
      var j :| 0 <= j < |N| && N[j] == n;
      assert N[j] in Drop(N, ks);
    }
  }

  /** The known list once the walk has passed its first i entries. */
  ghost function Passed<T>(K: seq<Node<T>>, ks: set<Byte>, i: nat): seq<Node<T>>
    requires i <= |K|
  {
    Keep(K[..i], ks) + K[i..]
  }

  /** ... and to the known one. */
  lemma CancelStepKnown<T>(K: seq<Node<T>>, ks: set<Byte>, i: nat)
    requires i < |K|
    ensures var at, now := |Keep(K[..i], ks)|, Passed(K, ks, i);
            && at < |now| && now[at] == K[i]
            && |now| - at == |K| - i
            && (i + 1 < |K| ==> now[at + 1] == K[i + 1])
            && Passed(K, ks, i + 1) == if K[i].key in ks then now else Without(now, at)
  {
    KeepExtends(K, i, ks);
    assert K[i..] == [K[i]] + K[i + 1..];
  }

  lemma WalkStarts<T>(K: seq<Node<T>>, N: seq<Node<T>>)
    ensures Passed(K, Keys(N), 0) == K && Drop(N, Keys(K[..0])) == N && Keep(K[..0], Keys(N)) == []
  {
    assert Keys(K[..0]) == {};
    DropNothing(N, {});
  }

  lemma WalkEnds<T>(K: seq<Node<T>>, N: seq<Node<T>>)
    ensures Passed(K, Keys(N), |K|) == Keep(K, Keys(N)) && K[..|K|] == K
  {
    assert K[..|K|] == K;
  }

  lemma HeadIs<T>(list: List<T>)
    requires list.Valid()
    ensures list.head == if list.nodes == [] then null else list.nodes[0]
  {
  }

  /** The body of the walk. */
  method CancelAt<T>(known: List<T>, found: List<T>, ent: Node<T>,
                     ghost K: seq<Node<T>>, ghost N: seq<Node<T>>, ghost i: nat, ghost region: set<Node<T>>)
    returns (following: Node?<T>, duplicate: Node?<T>)
    requires known.Valid() && found.Valid() && Apart(found, known, region)
    requires DistinctKeys(K) && DistinctKeys(N)
    requires i < |K| && K[i] == ent
    requires known.nodes == Passed(K, Keys(N), i) && found.nodes == Drop(N, Keys(K[..i]))
    modifies known, found, region
    ensures known.Valid() && found.Valid() && Apart(found, known, region)
    ensures known.nodes == Passed(K, Keys(N), i + 1) && found.nodes == Drop(N, Keys(K[..i + 1]))
    ensures following == if i + 1 < |K| then K[i + 1] else null
    ensures duplicate != null <==> ent.key in Keys(N)
    ensures duplicate != null ==> duplicate.key == ent.key && duplicate in old(Members(found.nodes))
    ensures Members(known.nodes) == old(Members(known.nodes)) - if duplicate == null then {ent} else {}
    ensures Members(found.nodes) == old(Members(found.nodes)) - if duplicate == null then {} else {duplicate}
    ensures old(NoneLost(known, found, region)) ==> NoneLost(known, found, region)
  {
    hide Keep, Drop, Keys, Passed, Members, DistinctKeys, Apart, NoneLost, Linked;
    ghost var at := |Keep(K[..i], Keys(N))|;
    CancelStepKnown(K, Keys(N), i);
    ApartSwaps(known, found, region);
    NextIs(known, at);
    following := ent.next;
    CancelStepFound(K, N, i);
    duplicate := CancelOne(known, found, ent.key, region);
    ApartSwaps(known, found, region);
    if duplicate == null {
      DeleteAndFree(known, found, ent, at, region);
    }
    ApartSwaps(known, found, region);
  }

  /** usbcompat.h:448-480 and 783-811: walk the known list; an entry found again cancels its
      duplicate in the new list, an entry not found is deleted and freed. */
  method Cancel<T>(known: List<T>, found: List<T>, ghost region: set<Node<T>>) returns (changes: nat)
    requires known.Valid() && found.Valid() && Apart(found, known, region)
    requires DistinctKeys(known.nodes) && DistinctKeys(found.nodes)
    modifies known, found, region
    ensures known.Valid() && found.Valid() && Apart(found, known, region)
    ensures known.nodes == Keep(old(known.nodes), Keys(old(found.nodes)))
    ensures found.nodes == Drop(old(found.nodes), Keys(old(known.nodes)))
    ensures changes == |old(known.nodes)| - |known.nodes|
    ensures old(NoneLost(known, found, region)) ==> NoneLost(known, found, region)
  {
    hide Keep, Drop, Keys, Passed, DistinctKeys, Linked, Apart, NoneLost;
    ghost var K, N := known.nodes, found.nodes;
    ghost var i := 0;
    changes := 0;
    var ent := known.head;
    WalkStarts(K, N);
    HeadIs(known);
    while ent != null
      invariant 0 <= i <= |K|
      invariant ent == if i < |K| then K[i] else null
      invariant known.Valid() && found.Valid() && Apart(found, known, region)
      invariant known.nodes == Passed(K, Keys(N), i) && found.nodes == Drop(N, Keys(K[..i]))
      invariant old(NoneLost(known, found, region)) ==> NoneLost(known, found, region)
      invariant changes == i - |Keep(K[..i], Keys(N))|
      decreases |K| - i
    {
      KeepExtends(K, i, Keys(N));
      var following, duplicate := CancelAt(known, found, ent, K, N, i, region);
      if duplicate == null {
        changes := changes + 1;
      }
      ent := following;
      i := i + 1;
    }
    WalkEnds(K, N);
  }

  lemma ReversedSnoc<T>(s: seq<T>, x: T)
    ensures Reversed(s + [x]) == [x] + Reversed(s)
  {
    assert (s + [x])[..|s|] == s;
  }

  /** The body of the move: initialise the entry, and link it unless that fails. */
  method AdoptHead<T>(known: List<T>, found: List<T>, ent: Node<T>, admit: T -> bool, ghost region: set<Node<T>>)
    returns (following: Node?<T>, admitted: bool)
    requires known.Valid() && found.Valid() && Apart(found, known, region)
    requires ent == found.head
    modifies known, found, region
    ensures Members(found.nodes) == old(Members(found.nodes)) - {ent}
    ensures Members(known.nodes) == old(Members(known.nodes)) + if admitted then {ent} else {}
    ensures known.Valid() && found.Valid() && Apart(found, known, region)
    ensures found.nodes == old(found.nodes)[1..] && following == found.head
    ensures admitted == admit(ent.val)
    ensures known.nodes == if admitted then [ent] + old(known.nodes) else old(known.nodes)
    ensures old(NoneLost(known, found, region)) ==> NoneLost(known, found, region)
  {
    hide Members, Apart, NoneLost;
    assert ent == found.nodes[0];
    WithoutMembers(found.nodes, 0);
    following := ent.next;
    admitted := admit(ent.val);
    ApartSwaps(known, found, region);
    if admitted {
      MoveToFront(known, found, ent, region);
    } else {
      DeleteAndFree(found, known, ent, 0, region);
    }
    ApartSwaps(known, found, region);
  }

  /** LIST_DEL from the front of one list, then LIST_ADD to the other. */
  method MoveToFront<T>(known: List<T>, found: List<T>, ent: Node<T>, ghost region: set<Node<T>>)
    requires known.Valid() && found.Valid() && Apart(found, known, region)
    requires |found.nodes| > 0 && ent == found.nodes[0]
    modifies known, found, region
    ensures known.Valid() && found.Valid() && Apart(known, found, region)
    ensures found.nodes == old(found.nodes)[1..] && Members(found.nodes) == old(Members(found.nodes)) - {ent}
    ensures known.nodes == [ent] + old(known.nodes) && Members(known.nodes) == old(Members(known.nodes)) + {ent}
    ensures old(NoneLost(known, found, region)) ==> NoneLost(known, found, region)
  {
    WithoutMembers(found.nodes, 0);
    DeleteApart(found, known, ent, 0, region);
    ApartSwaps(known, found, region);
    AddApart(known, found, ent, region);
  }

  /** nodes pushed one by one, if admitted, onto the front of a list. */
  ghost function Pushed<T>(nodes: seq<Node<T>>, admit: T -> bool, onto: seq<Node<T>>): seq<Node<T>> {
    if nodes == [] then onto
    else
      var last, before := nodes[|nodes| - 1], Pushed(nodes[..|nodes| - 1], admit, onto);
      if admit(last.val) then [last] + before else before
  }

  lemma NonePushed<T>(nodes: seq<Node<T>>, admit: T -> bool, onto: seq<Node<T>>)
    ensures Pushed(nodes[..0], admit, onto) == onto && Admitted(nodes[..0], admit) == [] && Reversed(Admitted(nodes[..0], admit)) == []
  {
  }

  /** Pushing reverses: the last of the admitted entries ends up first. */
  lemma {:induction false} PushedReverses<T>(nodes: seq<Node<T>>, admit: T -> bool, onto: seq<Node<T>>)
    ensures Pushed(nodes, admit, onto) == Reversed(Admitted(nodes, admit)) + onto
    ensures |Pushed(nodes, admit, onto)| == |Admitted(nodes, admit)| + |onto|
  {
    hide Reversed, Pushed, Admitted;
    if nodes == [] {
      NonePushed(nodes, admit, onto);
      assert nodes[..0] == nodes;
    } else {
      var init, last := nodes[..|nodes| - 1], nodes[|nodes| - 1];
      assert nodes == init + [last];
      PushedReverses(init, admit, onto);
      PushedSnoc(init, last, admit, onto);
      AdmittedSnoc(init, last, admit);
      var rest := Admitted(init, admit);
      if admit(last.val) {
        ReversedSnoc(rest, last);
        InFront(last, Reversed(rest), onto);
      }
    }
  }

  lemma InFront<T>(x: T, a: seq<T>, b: seq<T>)
    ensures [x] + a + b == [x] + (a + b)
  {
  }

  lemma PushedSnoc<T>(init: seq<Node<T>>, last: Node<T>, admit: T -> bool, onto: seq<Node<T>>)
    ensures var before := Pushed(init, admit, onto);
            Pushed(init + [last], admit, onto) == if admit(last.val) then [last] + before else before
  {
    assert (init + [last])[..|init|] == init;
  }

  lemma {:induction false} AdmittedMembers<T>(nodes: seq<Node<T>>, admit: T -> bool)
    ensures forall i {:trigger Admitted(nodes, admit)[i]} :: 0 <= i < |Admitted(nodes, admit)| ==>
              Admitted(nodes, admit)[i] in nodes && admit(Admitted(nodes, admit)[i].val)
    ensures DistinctKeys(nodes) ==> DistinctKeys(Admitted(nodes, admit))
  {
    if nodes == [] {
      NonePushed(nodes, admit, []);
      assert nodes[..0] == nodes;
    } else {
      hide Admitted;
      var init, last := nodes[..|nodes| - 1], nodes[|nodes| - 1];
      assert nodes == init + [last];
      AdmittedMembers(init, admit);
      AdmittedSnoc(init, last, admit);
      var rest := Admitted(init, admit);
      if DistinctKeys(nodes) && admit(last.val) {
        forall i | 0 <= i < |rest|
          ensures rest[i].key != last.key
        {
          assert rest[i] in init;
        }
        DistinctSnoc(rest, last);
      }
    }
  }

  /** Numbers stay distinct. */
  lemma ReconciledIsDistinct<T>(K: seq<Node<T>>, N: seq<Node<T>>, admit: T -> bool)
    requires DistinctKeys(K) && DistinctKeys(N)
    ensures DistinctKeys(Reversed(Admitted(Drop(N, Keys(K)), admit)) + Keep(K, Keys(N)))
  {
    var left, added, kept := Drop(N, Keys(K)), Admitted(Drop(N, Keys(K)), admit), Keep(K, Keys(N));
    DropMembers(N, Keys(K));
    DropKeepsDistinct(N, Keys(K));
    AdmittedMembers(left, admit);
    KeepMembers(K, Keys(N));
    KeepKeepsDistinct(K, Keys(N));
    DistinctSides(added, kept, Keys(K));
  }

  lemma ReversedIsDistinct<T>(nodes: seq<Node<T>>)
    requires DistinctKeys(nodes)
    ensures DistinctKeys(Reversed(nodes))
  {
    hide Reversed;
  }

  lemma DistinctSides<T>(added: seq<Node<T>>, kept: seq<Node<T>>, ks: set<Byte>)
    requires DistinctKeys(added) && DistinctKeys(kept)
    requires forall i {:trigger added[i]} :: 0 <= i < |added| ==> added[i].key !in ks
    requires forall i {:trigger kept[i]} :: 0 <= i < |kept| ==> kept[i].key in ks
    ensures DistinctKeys(Reversed(added) + kept)
  {
    hide Reversed;
    var front := Reversed(added);
    ReversedIsDistinct(added);
    forall i | 0 <= i < |front|
      ensures front[i].key !in ks
    {
      assert front[i] == added[|added| - 1 - i];
    }
    DistinctConcat(front, kept, ks);
  }

  lemma DistinctConcat<T>(a: seq<Node<T>>, b: seq<Node<T>>, ks: set<Byte>)
    requires DistinctKeys(a) && DistinctKeys(b)
    requires forall i {:trigger a[i]} :: 0 <= i < |a| ==> a[i].key !in ks
    requires forall i {:trigger b[i]} :: 0 <= i < |b| ==> b[i].key in ks
    ensures DistinctKeys(a + b)
  {
  }

  lemma AdmittedSnoc<T>(init: seq<Node<T>>, last: Node<T>, admit: T -> bool)
    ensures Admitted(init + [last], admit) == if admit(last.val) then Admitted(init, admit) + [last] else Admitted(init, admit)
  {
    assert (init + [last])[..|init|] == init;
  }

  /** usbcompat.h:482-491 and 813-831: move what is left of the new list, head first, onto the
      front of the known list; an entry that fails to initialise is freed instead. */
  method Adopt<T>(known: List<T>, found: List<T>, admit: T -> bool, ghost region: set<Node<T>>)
    returns (changes: nat)
    requires known.Valid() && found.Valid() && Apart(found, known, region)
    modifies known, found, region
    ensures known.Valid() && found.Valid() && Apart(found, known, region)
    ensures known.nodes == Reversed(Admitted(old(found.nodes), admit)) + old(known.nodes)
    ensures found.nodes == []
    ensures changes == |Admitted(old(found.nodes), admit)|
    ensures old(NoneLost(known, found, region)) ==> NoneLost(known, found, region)
  {
    hide Pushed, Admitted, Reversed, Apart, NoneLost, Members;
    ghost var K, N := known.nodes, found.nodes;
    ghost var i := 0;
    changes := 0;
    var ent := found.head;
    NonePushed(N, admit, K);
    while ent != null
      invariant 0 <= i <= |N|
      invariant known.Valid() && found.Valid() && Apart(found, known, region)
      invariant ent == found.head && found.nodes == N[i..]
      invariant known.nodes == Pushed(N[..i], admit, K)
      invariant old(NoneLost(known, found, region)) ==> NoneLost(known, found, region)
      invariant |known.nodes| == changes + |K|
      decreases |N| - i
    {
      TakeOneMore(N, i);
      PushedSnoc(N[..i], N[i], admit, K);
      assert N[i..][1..] == N[i + 1..];
      assert ent == found.nodes[0] == N[i];
      var following, admitted := AdoptHead(known, found, ent, admit, region);
      if admitted {
        changes := changes + 1;
      }
      ent := following;
      i := i + 1;
    }
    assert N[..|N|] == N;
    PushedReverses(N, admit, K);
  }

  /** Both phases: what is known afterwards, and the number of changes. */
  method Reconcile<T>(known: List<T>, found: List<T>, admit: T -> bool, ghost region: set<Node<T>>)
    returns (changes: int)
    requires known.Valid() && found.Valid() && Apart(found, known, region)
    requires DistinctKeys(known.nodes) && DistinctKeys(found.nodes)
    modifies known, found, region
    ensures known.Valid()
    ensures forall i {:trigger known.nodes[i]} :: 0 <= i < |known.nodes| ==> known.nodes[i] in region
    ensures var K, N := old(known.nodes), old(found.nodes);
            var added, kept := Admitted(Drop(N, Keys(K)), admit), Keep(K, Keys(N));
            known.nodes == Reversed(added) + kept && changes == |K| - |kept| + |added|
    ensures old(NoneLost(known, found, region)) ==> forall n | n in region :: n.live <==> n in known.nodes
  {
    var removed := Cancel(known, found, region);
    var added := Adopt(known, found, admit, region);
    changes := removed + added;
  }
}
