/** The intrusive doubly linked lists behind LIST_ADD and LIST_DEL. */
module LinkedLists {
  import opened Bytes

  /** A list entry. key is what the registry compares (a bus's location, a device's
      number); val holds the fields that never change once the entry is linked. */
  class Node<T> {
    const key: Byte
    const val: T
    var next: Node?<T>
    var prev: Node?<T>
    ghost var live: bool  // allocated and not yet freed

    constructor (key: Byte, val: T)
      ensures this.key == key && this.val == val && live
    {
      this.key, this.val := key, val;
      live := true;
    }
  }

  ghost predicate Linked<T>(head: Node?<T>, nodes: seq<Node<T>>)
    reads nodes
  {
    && head == (if nodes == [] then null else nodes[0])
    && (forall i, j :: 0 <= i < j < |nodes| ==> nodes[i] != nodes[j])
    && (forall i {:trigger nodes[i].prev} :: 0 <= i < |nodes| ==>
          nodes[i].prev == if i == 0 then null else nodes[i - 1])
    && (forall i {:trigger nodes[i].next} :: 0 <= i < |nodes| ==>
          nodes[i].next == if i + 1 < |nodes| then nodes[i + 1] else null)
    && (forall i {:trigger nodes[i].live} :: 0 <= i < |nodes| ==> nodes[i].live)
  }

  /** nodes without the one at index k. */
  function Without<T>(nodes: seq<T>, k: nat): (rest: seq<T>)
    requires k < |nodes|
    ensures |rest| == |nodes| - 1
    ensures forall i :: 0 <= i < |rest| ==> rest[i] == nodes[if i < k then i else i + 1]
  {
    nodes[..k] + nodes[k + 1..]
  }

  /** The node at index i, if there is one. */
  ghost function At<T>(nodes: seq<Node<T>>, i: int): Node?<T> {
    if 0 <= i < |nodes| then nodes[i] else null
  }

  /** Every entry but the one at index k is linked to the next ones on either side, past that
      one. */
  ghost predicate LinkedAround<T>(head: Node?<T>, nodes: seq<Node<T>>, k: nat)
    reads nodes
  {
    && head == At(nodes, if k == 0 then 1 else 0)
    && (forall i, j :: 0 <= i < j < |nodes| ==> nodes[i] != nodes[j])
    && (forall i {:trigger nodes[i].prev} :: 0 <= i < |nodes| && i != k ==>
          nodes[i].prev == At(nodes, if i == k + 1 then i - 2 else i - 1))
    && (forall i {:trigger nodes[i].next} :: 0 <= i < |nodes| && i != k ==>
          nodes[i].next == At(nodes, if i == k - 1 then i + 2 else i + 1))
    && (forall i {:trigger nodes[i].live} :: 0 <= i < |nodes| ==> nodes[i].live)
  }

  lemma SkipAt<T>(head: Node?<T>, nodes: seq<Node<T>>, k: nat, i: nat)
    requires k < |nodes| && LinkedAround(head, nodes, k) && i < |nodes| - 1
    ensures var rest := Without(nodes, k);
            && rest[i] != nodes[k] && rest[i].live
            && rest[i].prev == At(rest, i - 1) && rest[i].next == At(rest, i + 1)
  {
    hide Without;
    var j := if i < k then i else i + 1;
    assert Without(nodes, k)[i] == nodes[j];
  }

  /** Entries that are linked around the one at index k make a list without it. */
  lemma SkipIsLinked<T>(head: Node?<T>, nodes: seq<Node<T>>, k: nat)
    requires k < |nodes| && LinkedAround(head, nodes, k)
    ensures Linked(head, Without(nodes, k)) && nodes[k] !in Without(nodes, k)
  {
    hide LinkedAround, Without;
    var rest := Without(nodes, k);
    SkipHead(head, nodes, k);
    forall i | 0 <= i < |rest|
      ensures rest[i] != nodes[k] && rest[i].live
      ensures rest[i].prev == At(rest, i - 1) && rest[i].next == At(rest, i + 1)
    {
      SkipAt(head, nodes, k, i);
    }
  }

  lemma SkipHead<T>(head: Node?<T>, nodes: seq<Node<T>>, k: nat)
    requires k < |nodes| && LinkedAround(head, nodes, k)
    ensures head == At(Without(nodes, k), 0)
    ensures forall i, j :: 0 <= i < j < |nodes| - 1 ==> Without(nodes, k)[i] != Without(nodes, k)[j]
  {
  }

  /** A list variable: the head pointer, and the entries it leads to. */
  class List<T> {
    var head: Node?<T>
    ghost var nodes: seq<Node<T>>

    ghost predicate Valid()
      reads this, nodes
    {
      Linked(head, nodes)
    }

    constructor ()
      ensures Valid() && nodes == []
    {
      head, nodes := null, [];
    }

    /** LIST_ADD */
    method Add(ent: Node<T>)
      requires Valid() && ent !in nodes && ent.live
      modifies this, nodes`prev, ent`next, ent`prev
      ensures Valid() && nodes == [ent] + old(nodes)
    {
      if head != null {
        ent.next := head;
        ent.next.prev := ent;
      } else {
        ent.next := null;
      }
      ent.prev := null;
      head := ent;
      nodes := [ent] + nodes;
    }

    /** LIST_DEL; k is the position of ent. */
    method Delete(ent: Node<T>, ghost k: nat)
      requires Valid() && k < |nodes| && nodes[k] == ent
      modifies this, nodes`next, nodes`prev
      ensures Valid() && nodes == Without(old(nodes), k)
      ensures ent.next == null && ent.prev == null && ent !in nodes
    {
      hide Linked, LinkedAround;
      Unlink(ent, k);
      SkipIsLinked(head, nodes, k);
      nodes := Without(nodes, k);
    }

    /** The pointer writes of LIST_DEL. */
    method Unlink(ent: Node<T>, ghost k: nat)
      requires Valid() && k < |nodes| && nodes[k] == ent
      modifies this`head, nodes`next, nodes`prev
      ensures LinkedAround(head, nodes, k) && ent.next == null && ent.prev == null
    {
      SkipForwards(ent, k);
      SkipBackwards(ent, k);
      ent.prev := null;
      ent.next := null;
    }

    /** What comes before the entry leads to what comes after it. */
    method SkipForwards(ent: Node<T>, ghost k: nat)
      requires Valid() && k < |nodes| && nodes[k] == ent
      modifies this`head, nodes`next
      ensures head == At(nodes, if k == 0 then 1 else 0) && ent.next == old(ent.next)
      ensures forall i {:trigger nodes[i].next} :: 0 <= i < |nodes| && i != k ==>
                nodes[i].next == At(nodes, if i == k - 1 then i + 2 else i + 1)
    {
      assert ent.prev == At(nodes, k - 1) && ent.next == At(nodes, k + 1);
      if ent.prev != null {
        ent.prev.next := ent.next;
      } else {
        head := ent.next;
      }
    }

    /** And back. */
    method SkipBackwards(ent: Node<T>, ghost k: nat)
      requires k < |nodes| && nodes[k] == ent && ent.next == At(nodes, k + 1) && ent.prev == At(nodes, k - 1)
      requires forall i, j :: 0 <= i < j < |nodes| ==> nodes[i] != nodes[j]
      requires forall i {:trigger nodes[i].prev} :: 0 <= i < |nodes| ==> nodes[i].prev == At(nodes, i - 1)
      modifies nodes`prev
      ensures forall i {:trigger nodes[i].prev} :: 0 <= i < |nodes| && i != k ==>
                nodes[i].prev == At(nodes, if i == k + 1 then i - 2 else i - 1)
    {
      if ent.next != null {
        ent.next.prev := ent.prev;
      }
    }
  }

  /** free(ent): a second free of the same entry would not verify. */
  method Free<T>(ent: Node<T>)
    requires ent.live
    modifies ent`live
    ensures !ent.live
  {
    ghost var dead := false;
    ent.live := dead;
  }
}
