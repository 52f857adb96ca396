/** The queue of confirmable messages waiting for an acknowledgement (RFC 7252, section 4.2). Every node
    stores the time between its predecessor's deadline and its own. */
module CoapQueue {

  // ---- relative times stand for deadlines ----

  function Sum(ts: seq<nat>): nat {
    if ts == [] then 0 else Sum(ts[..|ts| - 1]) + ts[|ts| - 1]
  }

  /** The deadline of the `k`-th node, relative to the base time. */
  ghost function Deadline(ts: seq<nat>, k: nat): nat
    requires k < |ts|
  {
    Sum(ts[..k + 1])
  }

  ghost function Deadlines(ts: seq<nat>): (d: seq<nat>)
    ensures |d| == |ts| && forall k :: 0 <= k < |ts| ==> d[k] == Deadline(ts, k)
  {
    seq(|ts|, k requires 0 <= k < |ts| => Deadline(ts, k))
  }

  lemma SumSnoc(ts: seq<nat>, t: nat)
    ensures Sum(ts + [t]) == Sum(ts) + t
  {
    assert (ts + [t])[..|ts|] == ts;
  }

  lemma {:induction false} SumAppend(a: seq<nat>, b: seq<nat>)
    ensures Sum(a + b) == Sum(a) + Sum(b)
    decreases |b|
  {
    if b == [] {
      assert a + b == a;
    } else {
      var c, t := b[..|b| - 1], b[|b| - 1];
      assert a + b == (a + c) + [t] && b == c + [t];
      SumSnoc(a + c, t);
      SumSnoc(c, t);
      SumAppend(a, c);
    }
  }

  /** Deadlines never decrease along the queue. */
  lemma {:induction false} DeadlinesSorted(ts: seq<nat>, j: nat, k: nat)
    requires j <= k < |ts|
    ensures Deadline(ts, j) <= Deadline(ts, k)
  {
    assert ts[..k + 1] == ts[..j + 1] + ts[j + 1..k + 1];
    SumAppend(ts[..j + 1], ts[j + 1..k + 1]);
  }

  ghost function InsertAt<T>(s: seq<T>, i: nat, x: T): seq<T>
    requires i <= |s|
  {
    s[..i] + [x] + s[i..]
  }

  ghost function RemoveAt<T>(s: seq<T>, i: nat): seq<T>
    requires i < |s|
  {
    s[..i] + s[i + 1..]
  }

  /** The relative times after inserting a node with deadline `d` before position `i`. */
  ghost function TimesInserted(ts: seq<nat>, i: nat, d: nat): seq<nat>
    requires i <= |ts| && Sum(ts[..i]) <= d && (i < |ts| ==> d <= Deadline(ts, i))
  {
    var r := d - Sum(ts[..i]);
    if i == |ts| then ts + [r]
    else
      SumStep(ts, i);
      ts[..i] + [r, ts[i] - r] + ts[i + 1..]
  }

  lemma SumStep(ts: seq<nat>, i: nat)
    requires i < |ts|
    ensures Deadline(ts, i) == Sum(ts[..i]) + ts[i]
  {
    assert ts[..i + 1] == ts[..i] + [ts[i]];
    SumSnoc(ts[..i], ts[i]);
  }

  /** Inserting keeps every other deadline. */
  lemma InsertedDeadlines(ts: seq<nat>, i: nat, d: nat)
    requires i <= |ts| && Sum(ts[..i]) <= d && (i < |ts| ==> d <= Deadline(ts, i))
    ensures Deadlines(TimesInserted(ts, i, d)) == InsertAt(Deadlines(ts), i, d)
  {
    hide Deadline;
    var ts' := TimesInserted(ts, i, d);
    var D, D' := InsertAt(Deadlines(ts), i, d), Deadlines(ts');
    assert |D'| == |D|;
    forall k | 0 <= k < |D|
      ensures D'[k] == D[k]
    {
      InsertedDeadline(ts, i, d, k);
    }
  }

  lemma InsertedDeadline(ts: seq<nat>, i: nat, d: nat, k: nat)
    requires i <= |ts| && Sum(ts[..i]) <= d && (i < |ts| ==> d <= Deadline(ts, i)) && k <= |ts|
    ensures Deadline(TimesInserted(ts, i, d), k)
              == if k < i then Deadline(ts, k) else if k == i then d else Deadline(ts, k - 1)
  {
    hide Sum;
    var ts', r := TimesInserted(ts, i, d), d - Sum(ts[..i]);
    if k < i {
      assert ts'[..k + 1] == ts[..k + 1];
    } else if k == i {
      assert ts'[..k + 1] == ts[..i] + [r];
      SumSnoc(ts[..i], r);
    } else {
      SumStep(ts, i);
      assert ts'[..k + 1] == ts[..i] + [r, ts[i] - r] + ts[i + 1..k];
      assert ts[..k] == ts[..i] + [ts[i]] + ts[i + 1..k];
      SumSplit(ts[..i], r, ts[i] - r, ts[i + 1..k]);
    }
  }

  lemma SumSplit(a: seq<nat>, x: nat, y: nat, b: seq<nat>)
    ensures Sum(a + [x, y] + b) == Sum(a + [x + y] + b)
  {
    hide Sum;
    SumAppend(a + [x, y], b);
    SumAppend(a + [x + y], b);
    assert a + [x, y] == a + [x] + [y];
    SumSnoc(a, x + y);
    SumSnoc(a, x);
    SumSnoc(a + [x], y);
  }

  /** The relative times after removing the `i`-th node: its successor takes over its time. */
  ghost function TimesRemoved(ts: seq<nat>, i: nat): seq<nat>
    requires i < |ts|
  {
    if i + 1 == |ts| then ts[..i] else ts[..i] + [ts[i] + ts[i + 1]] + ts[i + 2..]
  }

  /** Removing keeps every other deadline. */
  lemma RemovedDeadlines(ts: seq<nat>, i: nat)
    requires i < |ts|
    ensures Deadlines(TimesRemoved(ts, i)) == RemoveAt(Deadlines(ts), i)
  {
    hide Deadline;
    var ts' := TimesRemoved(ts, i);
    var D, D' := RemoveAt(Deadlines(ts), i), Deadlines(ts');
    assert |D'| == |D|;
    forall k | 0 <= k < |D|
      ensures D'[k] == D[k]
    {
      RemovedDeadline(ts, i, k);
    }
  }

  lemma RemovedDeadline(ts: seq<nat>, i: nat, k: nat)
    requires i < |ts| && k < |TimesRemoved(ts, i)|
    ensures Deadline(TimesRemoved(ts, i), k) == if k < i then Deadline(ts, k) else Deadline(ts, k + 1)
  {
    hide Sum;
    var ts' := TimesRemoved(ts, i);
    if k < i {
      assert ts'[..k + 1] == ts[..k + 1];
    } else {
      var a, b := ts[i], ts[i + 1];
      assert ts'[..k + 1] == ts[..i] + [a + b] + ts[i + 2..k + 2];
      assert ts[..k + 2] == ts[..i] + [a] + [b] + ts[i + 2..k + 2];
      SumAppend(ts[..i] + [a + b], ts[i + 2..k + 2]);
      SumAppend(ts[..i] + [a] + [b], ts[i + 2..k + 2]);
      SumSnoc(ts[..i], a + b);
      SumSnoc(ts[..i], a);
      SumSnoc(ts[..i] + [a], b);
    }
  }

  // ---- the linked list ----

  class Node {
    var next: Node?
    var t: nat                     // time after the predecessor
    var retransmitCnt: nat
    var timeout: nat
    var id: int
    ghost var waits: seq<nat>      // the waiting times asked for so far

    constructor (id: int)
      ensures next == null && t == 0 && retransmitCnt == 0 && timeout == 0 && this.id == id && waits == []
    {
      next, t, retransmitCnt, timeout := null, 0, 0, 0;
      this.id := id;
      waits := [];
    }
  }

  ghost function Times(nodes: seq<Node>): (ts: seq<nat>)
    reads nodes
    ensures |ts| == |nodes| && forall k :: 0 <= k < |nodes| ==> ts[k] == nodes[k].t
  {
    seq(|nodes|, k requires 0 <= k < |nodes| reads nodes => nodes[k].t)
  }

  ghost function At(nodes: seq<Node>, k: nat): Node? {
    if k < |nodes| then nodes[k] else null
  }

  lemma AtIs(nodes: seq<Node>, k: nat)
    ensures At(nodes, k) == if k < |nodes| then nodes[k] else null
  {
  }

  ghost predicate Distinct(nodes: seq<Node>) {
    forall j, k :: 0 <= j < k < |nodes| ==> nodes[j] != nodes[k]
  }

  class SendQueue {
    var head: Node?
    ghost var nodes: seq<Node>

    /** The nodes are chained in this order, and none of them appears twice. */
    ghost predicate Valid()
      reads this, nodes
    {
      head == At(nodes, 0) && Distinct(nodes) && forall k :: 0 <= k < |nodes| ==> nodes[k].next == At(nodes, k + 1)
    }

    /** All deadlines, relative to the base time. */
    ghost function Due(): seq<nat>
      reads this, nodes
    {
      Deadlines(Times(nodes))
    }

    constructor ()
      ensures Valid() && nodes == []
    {
      head := null;
      nodes := [];
    }

    /** `coap_insert_node`: the node's `t` is the deadline it is to have. It comes after all nodes with an
        equal or earlier deadline, and no other deadline changes. Into an empty queue the node goes as it is,
        so its link must be null. */
    method Insert(node: Node) returns (ghost i: nat)
      requires Valid() && node !in nodes && (nodes == [] ==> node.next == null)
      modifies this, node`t, node`next, nodes`t, nodes`next
      ensures Valid() && i <= |old(nodes)| && nodes == InsertAt(old(nodes), i, node)
      ensures Slot(old(Due()), i, old(node.t))
      ensures Due() == InsertAt(old(Due()), i, old(node.t))
    {
      hide Deadline, Deadlines, Sum, InsertAt, Slot, Before, Distinct, At;
      ghost var ts, d, was := Times(nodes), node.t, nodes;
      First(ts, d);
      AtIs(was, 0);
      i := 0;
      if head == null || node.t < head.t {
        PutFirst(node);
        return;
      }
      var p: Node := head;
      Further(ts, 0, d);
      node.t := node.t - p.t;
      var q := p.next;
      i := 1;
      AtIs(was, 1);
      while q != null && q.t <= node.t
        invariant 1 <= i <= |was| && p == was[i - 1] && q == At(was, i) && nodes == was
        invariant q == if i < |was| then was[i] else null
        invariant Valid() && forall k :: 0 <= k < |was| ==> was[k].t == ts[k]
        invariant Before(ts, i, d) && node.t == d - Sum(ts[..i])
        modifies node`t
        decreases |was| - i
      {
        Further(ts, i, d);
        node.t := node.t - q.t;
        p := q;
        q := q.next;
        i := i + 1;
        AtIs(was, i);
      }
      Link(p, q, node, i);
      Spliced(was, i, node);
      Inserted(ts, i, d, Times(nodes));
    }

    /** `node` becomes the head. */
    method PutFirst(node: Node)
      requires Valid() && node !in nodes && if head == null then node.next == null else node.t < head.t
      modifies this, node`next, nodes`t
      ensures Valid() && nodes == InsertAt(old(nodes), 0, node)
      ensures Slot(old(Due()), 0, node.t)
      ensures Due() == InsertAt(old(Due()), 0, node.t)
    {
      hide Deadline, Deadlines, Sum, InsertAt, Slot, Before, Distinct, At;
      ghost var ts, was := Times(nodes), nodes;
      First(ts, node.t);
      AtIs(was, 0);
      Spliced(was, 0, node);
      if head != null {
        node.next := head;
        assert head == was[0] && head in was;
        head.t := head.t - node.t;
      }
      head := node;
      nodes := InsertAt(was, 0, node);
      LinkedFirst(was, node);
      Inserted(ts, 0, node.t, Times(nodes));
    }

    /** The last statements of `coap_insert_node`: `node` goes between `p` and `q`. */
    method Link(p: Node, q: Node?, node: Node, ghost i: nat)
      requires Valid() && 1 <= i <= |nodes| && p == nodes[i - 1] && q == At(nodes, i) && node !in nodes
      requires q != null ==> node.t <= q.t
      modifies this`nodes, node`next, nodes`t, nodes`next
      ensures Valid() && nodes == InsertAt(old(nodes), i, node)
      ensures forall k :: 0 <= k < |old(nodes)| && k != i ==> old(nodes)[k].t == old(nodes[k].t)
      ensures q != null ==> q.t == old(q.t) - old(node.t)
      ensures node.t == old(node.t)
    {
      hide InsertAt, At;
      ghost var was := nodes;
      assert p in was;
      AtIs(was, i);
      Spliced(was, i, node);
      if q != null {
        assert q in was;
        q.t := q.t - node.t;
      }
      node.next := q;
      p.next := node;
      nodes := InsertAt(was, i, node);
      forall k | 0 <= k < |nodes|
        ensures nodes[k].next == At(nodes, k + 1)
      {
        SplicedAt(was, i, node, k + 1);
      }
      AtIs(was, 0);
      SplicedAt(was, i, node, 0);
    }

    /** `coap_pop_next` */
    method PopNext() returns (popped: Node?)
      requires Valid()
      modifies this, nodes`t, nodes`next
      ensures Valid() && popped == old(head)
      ensures popped == null ==> nodes == [] == old(nodes)
      ensures popped != null ==> popped.next == null && popped.t == old(popped.t) && nodes == RemoveAt(old(nodes), 0)
      ensures popped != null ==> Due() == RemoveAt(old(Due()), 0)
    {
      hide Deadline, Deadlines, Sum, RemoveAt, Distinct, At;
      ghost var ts, was := Times(nodes), nodes;
      AtIs(was, 0);
      popped := head;
      if head != null {
        DropHead();
        Cut(was, 0);
        Removed(ts, 0, Times(nodes));
      }
    }

    /** The head leaves; its successor takes over its time. */
    method DropHead()
      requires Valid() && head != null
      modifies this, nodes`t, nodes`next
      ensures Valid() && nodes == RemoveAt(old(nodes), 0) && old(head).next == null
      ensures forall k :: 0 <= k < |old(nodes)| && k != 1 ==> old(nodes)[k].t == old(nodes[k].t)
      ensures 1 < |old(nodes)| ==> old(nodes)[1].t == old(nodes[0].t) + old(nodes[1].t)
    {
      hide RemoveAt, At;
      ghost var was := nodes;
      AtIs(was, 0);
      AtIs(was, 1);
      Cut(was, 0);
      var first: Node := head;
      assert first in was;
      head := first.next;
      if head != null {
        assert head == was[1] && head in was;
        head.t := head.t + first.t;
      }
      first.next := null;
      nodes := RemoveAt(was, 0);
      forall k | 0 <= k < |nodes|
        ensures nodes[k].next == At(nodes, k + 1)
      {
        CutAt(was, 0, k + 1);
      }
      AtIs(was, 0);
      CutAt(was, 0, 0);
    }

    /** `coap_remove_from_queue`: the first node with this id leaves the queue. */
    method Remove(id: int) returns (removed: Node?, ghost i: nat)
      requires Valid()
      modifies this, nodes`t, nodes`next
      ensures Valid() && i <= |old(nodes)| && forall k :: 0 <= k < i ==> old(nodes)[k].id != id
      ensures removed == null ==> i == |old(nodes)| && nodes == old(nodes) && Times(nodes) == old(Times(nodes))
      ensures removed != null ==>
                i < |old(nodes)| && removed == old(nodes)[i] && removed.id == id && removed.next == null
      ensures removed != null ==> nodes == RemoveAt(old(nodes), i)
      ensures removed != null ==> Due() == RemoveAt(old(Due()), i)
    {
      hide Deadline, Deadlines, Sum, RemoveAt, Distinct, At;
      removed, i := null, 0;
      AtIs(nodes, 0);
      if head == null {
        return;
      }
      if head.id == id {
        removed := PopNext();
        return;
      }
      ghost var ts, was := Times(nodes), nodes;
      var p: Node := head;
      var q := p.next;
      i := 1;
      AtIs(was, 1);
      while q != null && q.id != id
        invariant 1 <= i <= |was| && p == was[i - 1] && q == At(was, i) && nodes == was && Valid()
        invariant q == if i < |was| then was[i] else null
        invariant forall k :: 0 <= k < i ==> was[k].id != id
        modifies {}
        decreases |was| - i
      {
        p := q;
        q := q.next;
        i := i + 1;
        AtIs(was, i);
      }
      if q != null {
        Unlink(p, q, i);
        Cut(was, i);
        Removed(ts, i, Times(nodes));
        removed := q;
      }
    }

    /** The last statements of `coap_remove_from_queue`: `q` behind `p` is taken out. */
    method Unlink(p: Node, q: Node, ghost i: nat)
      requires Valid() && 1 <= i < |nodes| && p == nodes[i - 1] && q == nodes[i]
      modifies this`nodes, nodes`t, nodes`next
      ensures Valid() && nodes == RemoveAt(old(nodes), i) && q.next == null
      ensures forall k :: 0 <= k < |old(nodes)| && k != i + 1 ==> old(nodes)[k].t == old(nodes[k].t)
      ensures i + 1 < |old(nodes)| ==> old(nodes)[i + 1].t == old(nodes[i].t) + old(nodes[i + 1].t)
    {
      hide RemoveAt, At;
      ghost var was := nodes;
      AtIs(was, i + 1);
      AtIs(was, i);
      Cut(was, i);
      assert p in was && q in was;
      p.next := q.next;
      if p.next != null {
        assert p.next == was[i + 1] && was[i + 1] in was;
        p.next.t := p.next.t + q.t;
      }
      q.next := null;
      nodes := RemoveAt(was, i);
      forall k | 0 <= k < |nodes|
        ensures nodes[k].next == At(nodes, k + 1)
      {
        CutAt(was, i, k + 1);
      }
      AtIs(was, 0);
      CutAt(was, i, 0);
    }
  }

  /** Position `i` is behind all deadlines up to `d` and before all later ones. */
  ghost predicate Slot(D: seq<nat>, i: nat, d: nat) {
    i <= |D| && (forall k :: 0 <= k < i ==> D[k] <= d) && (i < |D| ==> d < D[i])
  }

  ghost predicate Before(ts: seq<nat>, i: nat, d: nat) {
    i <= |ts| && Sum(ts[..i]) <= d
  }

  lemma First(ts: seq<nat>, d: nat)
    ensures Before(ts, 0, d) && Sum(ts[..0]) == 0
  {
  }

  lemma Further(ts: seq<nat>, i: nat, d: nat)
    requires i < |ts| && Before(ts, i, d) && ts[i] <= d - Sum(ts[..i])
    ensures Before(ts, i + 1, d) && Sum(ts[..i + 1]) == Sum(ts[..i]) + ts[i]
  {
    SumStep(ts, i);
  }

  lemma Inserted(ts: seq<nat>, i: nat, d: nat, ts': seq<nat>)
    requires Before(ts, i, d) && (i < |ts| ==> d - Sum(ts[..i]) < ts[i]) && |ts'| == |ts| + 1
    requires forall k :: 0 <= k < i ==> ts'[k] == ts[k]
    requires ts'[i] == d - Sum(ts[..i]) && (i < |ts| ==> ts'[i + 1] == ts[i] - ts'[i])
    requires forall k :: i + 2 <= k < |ts'| ==> ts'[k] == ts[k - 1]
    ensures Slot(Deadlines(ts), i, d) && Deadlines(ts') == InsertAt(Deadlines(ts), i, d)
  {
    hide Sum;
    if i < |ts| {
      SumStep(ts, i);
    }
    assert ts' == TimesInserted(ts, i, d);
    InsertedDeadlines(ts, i, d);
    forall k | 0 <= k < i
      ensures Deadlines(ts)[k] <= d
    {
      DeadlinesSorted(ts, k, i - 1);
    }
  }

  lemma Removed(ts: seq<nat>, i: nat, ts': seq<nat>)
    requires i < |ts| && |ts'| == |ts| - 1
    requires forall k :: 0 <= k < i ==> ts'[k] == ts[k]
    requires i + 1 < |ts| ==> ts'[i] == ts[i] + ts[i + 1]
    requires forall k :: i + 1 <= k < |ts'| ==> ts'[k] == ts[k + 1]
    ensures Deadlines(ts') == RemoveAt(Deadlines(ts), i)
  {
    hide Sum;
    assert ts' == TimesRemoved(ts, i);
    RemovedDeadlines(ts, i);
  }

  lemma Spliced(nodes: seq<Node>, i: nat, node: Node)
    requires i <= |nodes|
    ensures var s := InsertAt(nodes, i, node);
            && |s| == |nodes| + 1
            && (forall k :: 0 <= k < i ==> s[k] == nodes[k]) && s[i] == node
            && (forall k :: i < k < |s| ==> s[k] == nodes[k - 1])
            && (Distinct(nodes) && node !in nodes ==> Distinct(s))
  {
  }

  lemma SplicedAt(nodes: seq<Node>, i: nat, node: Node, k: nat)
    requires i <= |nodes|
    ensures At(InsertAt(nodes, i, node), k) == if k < i then At(nodes, k) else if k == i then node else At(nodes, k - 1)
  {
    hide InsertAt;
    Spliced(nodes, i, node);
  }

  lemma LinkedFirst(nodes: seq<Node>, node: Node)
    requires node.next == At(nodes, 0) && forall k :: 0 <= k < |nodes| ==> nodes[k].next == At(nodes, k + 1)
    ensures var s := InsertAt(nodes, 0, node);
            At(s, 0) == node && forall k :: 0 <= k < |s| ==> s[k].next == At(s, k + 1)
  {
    hide InsertAt, At;
    var s := InsertAt(nodes, 0, node);
    Spliced(nodes, 0, node);
    forall k | 0 <= k < |s|
      ensures s[k].next == At(s, k + 1)
    {
      SplicedAt(nodes, 0, node, k + 1);
    }
    SplicedAt(nodes, 0, node, 0);
  }

  lemma Cut(nodes: seq<Node>, i: nat)
    requires i < |nodes|
    ensures var s := RemoveAt(nodes, i);
            && |s| == |nodes| - 1
            && (forall k :: 0 <= k < i ==> s[k] == nodes[k])
            && (forall k :: i <= k < |s| ==> s[k] == nodes[k + 1])
            && (Distinct(nodes) ==> Distinct(s))
  {
  }

  lemma CutAt(nodes: seq<Node>, i: nat, k: nat)
    requires i < |nodes|
    ensures At(RemoveAt(nodes, i), k) == if k < i then At(nodes, k) else At(nodes, k + 1)
  {
    hide RemoveAt;
    Cut(nodes, i);
  }
}
