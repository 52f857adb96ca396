/** Which messages a sweep of the retransmission timer serves. Every step of it takes the time of the first message
    off the time that has elapsed; but as `coap_pop_next` leaves the other messages at their times after the base
    time, the messages behind are measured against too little, and may be missed although they are due. */
module CoapSweep {
  import opened Arithmetic
  import opened CoapQueue

  const MAX_RETRANSMIT := 4

  /** A message in the queue: when it is due after the base time, its initial timeout, and its repetitions so far. */
  datatype Entry = Entry(due: nat, timeout: nat, cnt: nat)

  /** The waiting time after `cnt` repetitions. */
  ghost function Wait(timeout: nat, cnt: nat): nat {
    timeout * Pow2(cnt)
  }

  /** A message that has been repeated once more is due again its doubled waiting time after the base time. */
  ghost function Repeated(e: Entry): Entry {
    Entry(Wait(e.timeout, e.cnt + 1), e.timeout, e.cnt + 1)
  }

  ghost predicate Sorted(es: seq<Entry>) {
    forall j, k :: 0 <= j <= k < |es| ==> es[j].due <= es[k].due
  }

  /** The time that repetitions of a message take off again before a message due at `d` is reached. */
  ghost function Again(e: Entry, d: nat): nat
    decreases MAX_RETRANSMIT - e.cnt
  {
    if MAX_RETRANSMIT <= e.cnt || d <= Repeated(e).due then 0 else Repeated(e).due + Again(Repeated(e), d)
  }

  ghost function Ahead(es: seq<Entry>, d: nat): nat {
    if es == [] then 0 else es[0].due + Again(es[0], d) + Ahead(es[1..], d)
  }

  /** The time that has to elapse for the sweep to serve the `k`-th message. */
  ghost function Load(es: seq<Entry>, k: nat): nat
    requires k < |es|
  {
    Ahead(es[..k], es[k].due) + es[k].due
  }

  // ---- one step ----

  /** The queue after the first message has been served; one that is repeated comes before position `i`. */
  ghost function After(es: seq<Entry>, i: nat): seq<Entry>
    requires es != [] && i < |es|
  {
    if es[0].cnt < MAX_RETRANSMIT then InsertAt(es[1..], i, Repeated(es[0])) else es[1..]
  }

  ghost predicate Place(es: seq<Entry>, i: nat)
    requires es != []
  {
    && i < |es| && forall k :: 1 <= k < |es| && es[0].cnt < MAX_RETRANSMIT ==>
         if k <= i then es[k].due <= Repeated(es[0]).due else Repeated(es[0]).due < es[k].due
  }

  lemma PlaceIs(es: seq<Entry>, D: seq<nat>, i: nat)
    requires es != [] && Sorted(es) && |D| == |es| - 1 && forall k :: 1 <= k < |es| ==> D[k - 1] == es[k].due
    requires Slot(D, i, Repeated(es[0]).due)
    ensures Place(es, i)
  {
    hide Repeated;
    forall k | 1 <= k < |es|
      ensures if k <= i then es[k].due <= Repeated(es[0]).due else Repeated(es[0]).due < es[k].due
    {
      if k <= i {
        assert D[k - 1] <= Repeated(es[0]).due;
      } else {
        assert D[i] == es[i + 1].due <= es[k].due;
      }
    }
  }

  lemma NoPlace(es: seq<Entry>)
    requires es != [] && MAX_RETRANSMIT <= es[0].cnt
    ensures Place(es, 0)
  {
  }

  /** Where the message behind the first one is found after the step. */
  ghost function Moved(es: seq<Entry>, i: nat, k: nat): nat
    requires es != [] && 1 <= k
  {
    if es[0].cnt < MAX_RETRANSMIT && i < k then k else k - 1
  }

  lemma {:induction false} AheadAppend(a: seq<Entry>, b: seq<Entry>, d: nat)
    ensures Ahead(a + b, d) == Ahead(a, d) + Ahead(b, d)
    decreases |a|
  {
    hide Again;
    if a == [] {
      assert a + b == b;
    } else {
      assert (a + b)[1..] == a[1..] + b;
      AheadAppend(a[1..], b, d);
    }
  }

  /** A step takes the time of the first message off the load of every other message. */
  lemma StepLoad(es: seq<Entry>, i: nat, k: nat)
    requires 1 <= k < |es| && Place(es, i)
    ensures var es', k' := After(es, i), Moved(es, i, k);
            k' < |es'| && es'[k'] == es[k] && Load(es', k') + es[0].due == Load(es, k)
  {
    hide Again, Repeated, Ahead;
    var es', k', d, e := After(es, i), Moved(es, i, k), es[k].due, es[0];
    assert Again(e, d) == if e.cnt < MAX_RETRANSMIT && i < k then Repeated(e).due + Again(Repeated(e), d) else 0 by {
      Unfold(e, d);
    }
    FirstAhead(es[..k], d);
    assert es[..k][1..] == es[1..k];
    if e.cnt < MAX_RETRANSMIT && i < k {
      var a, b := es[1..i + 1], es[i + 1..k];
      assert es'[..k'] == a + ([Repeated(e)] + b) && es[1..k] == a + b;
      AheadAppend(a, [Repeated(e)] + b, d);
      AheadAppend(a, b, d);
      FirstAhead([Repeated(e)] + b, d);
      assert ([Repeated(e)] + b)[1..] == b;
    } else {
      assert es'[..k'] == es[1..k];
    }
  }

  lemma Unfold(e: Entry, d: nat)
    ensures Again(e, d)
              == if MAX_RETRANSMIT <= e.cnt || d <= Repeated(e).due then 0 else Repeated(e).due + Again(Repeated(e), d)
  {
  }

  lemma FirstAhead(es: seq<Entry>, d: nat)
    requires es != []
    ensures Ahead(es, d) == es[0].due + Again(es[0], d) + Ahead(es[1..], d)
  {
  }

  lemma LoadOfFirst(es: seq<Entry>, k: nat)
    requires k < |es|
    ensures es[0].due <= Load(es, k) && es[k].due <= Load(es, k)
    ensures k == 0 ==> Load(es, k) == es[0].due
  {
    hide Again;
    if k == 0 {
      assert es[..k] == [];
    } else {
      FirstAhead(es[..k], es[k].due);
    }
  }

  // ---- the whole sweep ----

  /** How a message was found by the sweep. */
  datatype Start = Start(due: nat, cnt: nat, load: nat)

  /** A message that has not been served still has its time after the base time, and what is left of its load; one
      that has been repeated is due its last waiting time after the base time. `used` has been taken off so far. */
  ghost predicate Follows(s: Start, e: Entry, load: nat, used: nat) {
    && s.cnt <= e.cnt
    && (e.cnt == s.cnt ==> e.due == s.due && load + used == s.load)
    && (s.cnt < e.cnt ==> e.due == Wait(e.timeout, e.cnt) && s.load <= used)
  }

  ghost predicate Tracked(book: map<Node, Start>, nodes: seq<Node>, es: seq<Entry>, used: nat) {
    && |es| == |nodes|
    && (forall k :: 0 <= k < |nodes| ==>
          nodes[k] in book && Follows(book[nodes[k]], es[k], Load(es, k), used))
    && forall n :: n in book ==> n in nodes || book[n].load <= used
  }

  ghost function Book(nodes: seq<Node>, es: seq<Entry>): map<Node, Start>
    requires |es| == |nodes| && Distinct(nodes)
  {
    map j | 0 <= j < |nodes| :: nodes[j] := Start(es[j].due, es[j].cnt, Load(es, j))
  }

  lemma TrackedFirst(nodes: seq<Node>, es: seq<Entry>)
    requires |es| == |nodes| && Distinct(nodes)
    ensures Tracked(Book(nodes, es), nodes, es, 0)
  {
    hide Load;
  }

  ghost function NodesAfter(nodes: seq<Node>, es: seq<Entry>, i: nat): seq<Node>
    requires |es| == |nodes| && nodes != [] && i < |nodes|
  {
    if es[0].cnt < MAX_RETRANSMIT then InsertAt(nodes[1..], i, nodes[0]) else nodes[1..]
  }

  lemma NodesMoved(nodes: seq<Node>, es: seq<Entry>, i: nat)
    requires |es| == |nodes| && i < |nodes|
    ensures var nodes' := NodesAfter(nodes, es, i);
            && |nodes'| == |After(es, i)|
            && (forall j :: 1 <= j < |es| ==> Moved(es, i, j) < |nodes'| && nodes'[Moved(es, i, j)] == nodes[j])
            && (es[0].cnt < MAX_RETRANSMIT ==> i < |nodes'| && nodes'[i] == nodes[0])
  {
    hide Repeated;
  }

  ghost function GivenUp(nodes: seq<Node>, es: seq<Entry>): set<Node>
    requires |es| == |nodes| && nodes != []
  {
    if es[0].cnt < MAX_RETRANSMIT then {} else {nodes[0]}
  }

  lemma GivenUpIs(nodes: seq<Node>, es: seq<Entry>)
    requires |es| == |nodes| && nodes != []
    ensures forall n :: n in GivenUp(nodes, es) ==> n == nodes[0]
  {
  }

  lemma NodeAfter(nodes: seq<Node>, es: seq<Entry>, i: nat)
    requires |es| == |nodes| && i < |nodes| && Distinct(nodes)
    ensures forall n :: n in NodesAfter(nodes, es, i) <==> n in nodes && n !in GivenUp(nodes, es)
  {
    assert nodes == [nodes[0]] + nodes[1..];
    assert nodes[1..] == nodes[1..][..i] + nodes[1..][i..];
    assert nodes[0] !in nodes[1..];
  }

  lemma TrackedStep(book: map<Node, Start>, nodes: seq<Node>, es: seq<Entry>, used: nat, i: nat)
    requires Tracked(book, nodes, es, used) && nodes != [] && i < |nodes| && Place(es, i)
    ensures Tracked(book, NodesAfter(nodes, es, i), After(es, i), used + es[0].due)
  {
    hide Load, Place, Wait;
    var nodes', es', used' := NodesAfter(nodes, es, i), After(es, i), used + es[0].due;
    LoadOfFirst(es, 0);
    assert Follows(book[nodes[0]], es[0], Load(es, 0), used);
    assert book[nodes[0]].load <= used';
    forall k | 0 <= k < |nodes'|
      ensures nodes'[k] in book && Follows(book[nodes'[k]], es'[k], Load(es', k), used')
    {
      if es[0].cnt < MAX_RETRANSMIT && k == i {
        assert es'[k] == Repeated(es[0]) && nodes'[k] == nodes[0];
      } else {
        var j := if es[0].cnt < MAX_RETRANSMIT && i < k then k else k + 1;
        StepLoad(es, i, j);
        assert nodes'[k] == nodes[j];
      }
    }
    forall n | n in book
      ensures n in nodes' || book[n].load <= used'
    {
      if n in nodes && n != nodes[0] {
        var j :| 0 <= j < |nodes| && nodes[j] == n;
        assert nodes'[Moved(es, i, j)] == n;
      }
    }
  }

  /** The outcome: the messages that have been repeated or given up are those whose load has elapsed, and those
      left over are all due in the future: `used` later than before, or than their last waiting time demands. And
      `used` is at least every load that has been served. */
  ghost predicate Swept(book: map<Node, Start>, nodes: seq<Node>, es: seq<Entry>, used: nat, elapsed: nat) {
    && |es| == |nodes| && used <= elapsed
    && (forall n :: n in book && n !in nodes ==> book[n].load <= used)
    && forall k :: 0 <= k < |nodes| ==>
         && nodes[k] in book && book[nodes[k]].cnt <= es[k].cnt && 0 < es[k].due
         && (es[k].cnt == book[nodes[k]].cnt <==> elapsed < book[nodes[k]].load)
         && (book[nodes[k]].cnt < es[k].cnt ==> book[nodes[k]].load <= used)
         && elapsed + es[k].due
              == used + if es[k].cnt == book[nodes[k]].cnt then book[nodes[k]].due else Wait(es[k].timeout, es[k].cnt)
  }

  ghost predicate Advanced(es: seq<Entry>, es': seq<Entry>, e: nat) {
    |es'| == |es| && forall k :: 0 <= k < |es| ==> es[k] == es'[k].(due := es'[k].due + e)
  }

  lemma SweepEnds(book: map<Node, Start>, nodes: seq<Node>, es: seq<Entry>, es': seq<Entry>, used: nat, elapsed: nat)
    requires Tracked(book, nodes, es, used) && used <= elapsed
    requires es != [] ==> Sorted(es) && elapsed - used < es[0].due
    requires Advanced(es, es', elapsed - used)
    ensures Swept(book, nodes, es', used, elapsed)
  {
    hide Load, Wait;
    forall k | 0 <= k < |nodes|
      ensures nodes[k] in book && Follows(book[nodes[k]], es[k], Load(es, k), used) && es[0].due <= Load(es, k)
    {
      LoadOfFirst(es, k);
    }
  }

  lemma NothingLeft(book: map<Node, Start>, nodes: seq<Node>, es: seq<Entry>, used: nat, elapsed: nat)
    requires Tracked(book, nodes, es, used) && used <= elapsed && nodes == []
    ensures Swept(book, nodes, es, used, elapsed)
  {
  }

  lemma SweptIs(all: seq<Node>, es: seq<Entry>, nodes: seq<Node>, es': seq<Entry>, used: nat, elapsed: nat)
    requires |es| == |all| && Distinct(all) && Swept(Book(all, es), nodes, es', used, elapsed)
    ensures forall j :: 0 <= j < |all| && all[j] !in nodes ==> Load(es, j) <= elapsed
    ensures forall j, k :: 0 <= j < |all| && 0 <= k < |nodes| && nodes[k] == all[j] ==>
              (es[j].cnt < es'[k].cnt <==> Load(es, j) <= elapsed)
  {
    hide Load, Wait;
    var book := Book(all, es);
    assert forall j :: 0 <= j < |all| ==> all[j] in book && book[all[j]] == Start(es[j].due, es[j].cnt, Load(es, j));
  }

  // ---- how many transmissions are left ----

  /** Every message may still be taken from the queue 5 - `cnt` times. */
  ghost function Budget(es: seq<Entry>): nat {
    if es == [] then 0 else (if es[0].cnt <= MAX_RETRANSMIT then 5 - es[0].cnt else 0) + Budget(es[1..])
  }

  lemma {:induction false} BudgetAppend(a: seq<Entry>, b: seq<Entry>)
    ensures Budget(a + b) == Budget(a) + Budget(b)
    decreases |a|
  {
    if a == [] {
      assert a + b == b;
    } else {
      assert (a + b)[1..] == a[1..] + b;
      BudgetAppend(a[1..], b);
    }
  }

  lemma BudgetAfter(es: seq<Entry>, i: nat)
    requires i < |es| && es[0].cnt <= MAX_RETRANSMIT
    ensures Budget(After(es, i)) < Budget(es)
  {
    hide Repeated, Budget;
    BudgetFirst(es[0], es[1..]);
    assert es == [es[0]] + es[1..];
    if es[0].cnt < MAX_RETRANSMIT {
      var a, e, b := es[1..][..i], Repeated(es[0]), es[1..][i..];
      assert es[1..] == a + b && After(es, i) == a + ([e] + b);
      BudgetAppend(a, [e] + b);
      BudgetAppend(a, b);
      BudgetFirst(e, b);
      RepeatedCnt(es[0]);
    }
  }

  lemma BudgetFirst(e: Entry, es: seq<Entry>)
    ensures Budget([e] + es) == (if e.cnt <= MAX_RETRANSMIT then 5 - e.cnt else 0) + Budget(es)
  {
    assert ([e] + es)[1..] == es;
  }

  lemma {:induction false} BudgetKept(es: seq<Entry>, es': seq<Entry>, e: nat)
    requires Advanced(es, es', e)
    ensures Budget(es) == Budget(es')
    decreases |es|
  {
    if es != [] {
      BudgetKept(es[1..], es'[1..], e);
    }
  }

  lemma RepeatedCnt(e: Entry)
    ensures Repeated(e).cnt == e.cnt + 1
  {
  }

  // ---- when all messages that are due are served ----

  lemma {:induction false} AgainGrows(e: Entry, d: nat, d': nat)
    requires d <= d'
    ensures Again(e, d) <= Again(e, d')
    decreases MAX_RETRANSMIT - e.cnt
  {
    if e.cnt < MAX_RETRANSMIT {
      AgainGrows(Repeated(e), d, d');
    }
  }

  lemma {:induction false} AheadGrows(es: seq<Entry>, d: nat, d': nat)
    requires d <= d'
    ensures Ahead(es, d) <= Ahead(es, d')
  {
    hide Again;
    if es != [] {
      AgainGrows(es[0], d, d');
      AheadGrows(es[1..], d, d');
    }
  }

  lemma LoadGrows(es: seq<Entry>, j: nat, k: nat)
    requires j <= k < |es| && Sorted(es)
    ensures Load(es, j) <= Load(es, k)
  {
    hide Ahead;
    AheadGrows(es[..j], es[j].due, es[k].due);
    AheadAppend(es[..j], es[j..k], es[k].due);
    assert es[..j] + es[j..k] == es[..k];
  }

  /** The messages that are served are those that are due, iff the load of the last one that is due has elapsed. */
  lemma AllDueServed(es: seq<Entry>, elapsed: nat, last: nat)
    requires Sorted(es) && last < |es| && es[last].due <= elapsed
    requires forall k :: last < k < |es| ==> elapsed < es[k].due
    ensures (forall k :: 0 <= k < |es| ==> (Load(es, k) <= elapsed <==> es[k].due <= elapsed))
            <==> Load(es, last) <= elapsed
  {
    hide Load;
    forall k | 0 <= k < |es|
      ensures es[k].due <= Load(es, k) && (k <= last ==> Load(es, k) <= Load(es, last))
    {
      LoadOfFirst(es, k);
      if k <= last {
        LoadGrows(es, k, last);
      }
    }
  }

  ghost function Dues(es: seq<Entry>): seq<nat> {
    seq(|es|, k requires 0 <= k < |es| => es[k].due)
  }

  /** Within four seconds nothing that is repeated comes again: a message is served iff its own time and those of
      the messages before it have elapsed in sum. */
  lemma EarlyLoad(es: seq<Entry>, k: nat)
    requires k < |es| && es[k].due <= 4000 && forall j :: 0 <= j < |es| ==> 2000 <= es[j].timeout
    ensures Load(es, k) == Sum(Dues(es)[..k + 1])
  {
    hide Ahead, Sum;
    EarlyAhead(es[..k], es[k].due);
    assert Dues(es)[..k + 1] == Dues(es[..k]) + [es[k].due];
    SumSnoc(Dues(es[..k]), es[k].due);
  }

  lemma {:induction false} EarlyAhead(es: seq<Entry>, d: nat)
    requires d <= 4000 && forall j :: 0 <= j < |es| ==> 2000 <= es[j].timeout
    ensures Ahead(es, d) == Sum(Dues(es))
  {
    hide Pow2;
    if es != [] {
      NotAgain(es[0], d);
      EarlyAhead(es[1..], d);
      assert Dues(es) == [es[0].due] + Dues(es[1..]);
      SumAppend([es[0].due], Dues(es[1..]));
      assert [es[0].due][..0] == [];
    }
  }

  lemma NotAgain(e: Entry, d: nat)
    requires d <= 4000 && 2000 <= e.timeout
    ensures Again(e, d) == 0
  {
    assert Pow2(e.cnt + 1) == 2 * Pow2(e.cnt);
    assert e.timeout * Pow2(e.cnt + 1) >= 2000 * 2 by { Grown(e.timeout, Pow2(e.cnt + 1)); }
  }

  lemma Grown(t: nat, p: nat)
    requires 2000 <= t && 2 <= p
    ensures 4000 <= t * p
  {
    assert t * p == 2 * t + t * (p - 2);
  }

  /** Of two messages due 5 ticks after the base time, a sweep after 6 ticks serves only the first. */
  lemma MissedMessage()
    ensures var es := [Entry(5, 2000, 0), Entry(5, 2000, 0)];
            Sorted(es) && es[1].due <= 6 && Load(es, 0) <= 6 < Load(es, 1)
  {
    var es := [Entry(5, 2000, 0), Entry(5, 2000, 0)];
    LoadOfFirst(es, 0);
    EarlyLoad(es, 1);
    assert Dues(es)[..2] == [5] + [5];
    SumSnoc([5], 5);
    SumSnoc([], 5);
    assert [] + [5] == [5];
  }
}
