/** Retransmission of confirmable messages (RFC 7252, sections 4.2 and 4.8). */
module CoapRetransmit {
  import opened Arithmetic
  import opened CoapQueue
  import opened CoapSweep

  const RESPONSE_TIMEOUT := 2
  const TICKS_PER_SECOND := 1000
  const INVALID_TID := -1

  /** The randomized timeout, from a random number of which 8 bits are used. */
  function InitialTimeout(r: nat): nat {
    RESPONSE_TIMEOUT * TICKS_PER_SECOND + RESPONSE_TIMEOUT / 2 * (TICKS_PER_SECOND * (r % 256) / 256)
  }

  /** RFC 7252, section 4.2: between two and three seconds, the 256 random values being spread evenly over the third
      second, with fractions of a tick cut off. */
  lemma InitialTimeoutRange(r: nat)
    ensures 2000 <= InitialTimeout(r) <= 2996
    ensures var extra := InitialTimeout(r) - 2000;
            256 * extra <= 1000 * (r % 256) < 256 * (extra + 1)
    ensures InitialTimeout(0) == 2000 && InitialTimeout(128) == 2500 && InitialTimeout(255) == 2996
  {
    var x := 1000 * (r % 256);
    assert x == 256 * (x / 256) + x % 256;
  }

  /** The timeout is initial, it has doubled with every retransmission, and there have been at most four. */
  ghost predicate Paced(timeout: nat, cnt: nat, waits: seq<nat>) {
    && 2000 <= timeout <= 2996 && cnt <= MAX_RETRANSMIT && |waits| == cnt + 1
    && forall k :: 0 <= k < |waits| ==> waits[k] == timeout * Pow2(k)
  }

  lemma {:induction false} WaitsTotal(timeout: nat, waits: seq<nat>)
    requires forall k :: 0 <= k < |waits| ==> waits[k] == timeout * Pow2(k)
    ensures Sum(waits) == timeout * (Pow2(|waits|) - 1)
    decreases |waits|
  {
    hide Pow2;
    if waits == [] {
      Powers();
    } else {
      var n := |waits| - 1;
      WaitsTotal(timeout, waits[..n]);
      Twofold(timeout, n);
    }
  }

  lemma Twofold(timeout: nat, n: nat)
    ensures timeout * (Pow2(n) - 1) + timeout * Pow2(n) == timeout * (Pow2(n + 1) - 1)
  {
    var p: nat := Pow2(n);
    assert Pow2(n + 1) == 2 * p;
    assert timeout * (p - 1) + timeout * p == timeout * (p - 1 + p);
  }

  /** RFC 7252, section 4.8.2: the last retransmission is sent after at most 45 seconds, and the exchange is
      given up after at most 93 seconds of waiting. */
  lemma RetransmissionBounds(timeout: nat, cnt: nat, waits: seq<nat>)
    requires Paced(timeout, cnt, waits)
    ensures Sum(waits) <= 93 * TICKS_PER_SECOND
    ensures cnt == MAX_RETRANSMIT ==> Sum(waits[..MAX_RETRANSMIT]) <= 45 * TICKS_PER_SECOND
  {
    Powers();
    WaitsTotal(timeout, waits);
    Pow2Increases(|waits|, 5);
    assert timeout * (Pow2(|waits|) - 1) <= timeout * 31;
    if cnt == MAX_RETRANSMIT {
      WaitsTotal(timeout, waits[..MAX_RETRANSMIT]);
    }
  }

  class Sender {
    const queue: SendQueue
    var basetime: nat
    ghost var gone: set<Node>      // given up for good

    ghost predicate Valid()
      reads queue, queue.nodes
    {
      queue.Valid() && forall k :: 0 <= k < |queue.nodes| ==> NodePaced(queue.nodes[k])
    }

    /** The queue in plain numbers. */
    ghost function Messages(): (es: seq<Entry>)
      reads queue, queue.nodes
      ensures |es| == |queue.nodes|
    {
      hide SendQueue.Due;
      DueLength(queue);
      Entries(queue.nodes, queue.Due())
    }

    constructor ()
      ensures Valid() && queue.nodes == [] && fresh(queue)
    {
      queue := new SendQueue();
      basetime := 0;
      gone := {};
    }

    /** RFC 7252, section 4.8.2, for every message in the queue: at most 45 seconds have been waited for before
        the last retransmission, and at most 93 seconds in all. */
    lemma QueueBounds()
      requires Valid()
      ensures forall n :: n in queue.nodes ==>
                && |n.waits| == n.retransmitCnt + 1 <= MAX_RETRANSMIT + 1 && Sum(n.waits) <= 93 * TICKS_PER_SECOND
                && (n.retransmitCnt == MAX_RETRANSMIT ==> Sum(n.waits[..MAX_RETRANSMIT]) <= 45 * TICKS_PER_SECOND)
    {
      hide Sum, SendQueue.Valid, Pow2;
      forall n | n in queue.nodes
        ensures |n.waits| == n.retransmitCnt + 1 <= MAX_RETRANSMIT + 1 && Sum(n.waits) <= 93 * TICKS_PER_SECOND
        ensures n.retransmitCnt == MAX_RETRANSMIT ==> Sum(n.waits[..MAX_RETRANSMIT]) <= 45 * TICKS_PER_SECOND
      {
        assert NodePaced(n);
        RetransmissionBounds(n.timeout, n.retransmitCnt, n.waits);
      }
    }

    /** `coap_send_confirmed`: the message is to be repeated a randomized timeout after `now`, and no other
        message's time changes. `id` is what sending it has returned; without memory for a node nothing is sent. */
    method SendConfirmed(hasMemory: bool, id: int, r: nat, now: nat) returns (node: Node?, ghost i: nat)
      requires Valid() && basetime <= now
      modifies this, queue, queue.nodes`t, queue.nodes`next
      ensures Valid() && (node == null <==> !hasMemory || id == INVALID_TID)
      ensures node == null ==>
                queue.nodes == old(queue.nodes) && queue.Due() == old(queue.Due()) && basetime == old(basetime)
      ensures node != null ==>
                fresh(node) && node.id == id && node.timeout == InitialTimeout(r) && node.retransmitCnt == 0
      ensures node != null ==>
                i <= |old(queue.nodes)| == |old(queue.Due())|
                && queue.nodes == InsertAt<Node>(old(queue.nodes), i, node)
      ensures node != null ==>
                basetime <= now && queue.Due() == InsertAt<nat>(old(queue.Due()), i, now - basetime + node.timeout)
                && Slot(old(queue.Due()), i, now - basetime + node.timeout)
      ensures old(queue.nodes) != [] ==> basetime == old(basetime)
    {
      hide SendQueue.Due, SendQueue.Valid, InsertAt, Slot, InitialTimeout, Pow2, Paced;
      node, i := null, 0;
      if !hasMemory || id == INVALID_TID {
        return;
      }
      node, i := Enqueue(id, r, now);
    }

    /** The node of a message that has been sent goes into the queue. */
    method Enqueue(id: int, r: nat, now: nat) returns (node: Node, ghost i: nat)
      requires Valid() && basetime <= now
      modifies this, queue, queue.nodes`t, queue.nodes`next
      ensures Valid() && fresh(node) && node.id == id && node.timeout == InitialTimeout(r) && node.retransmitCnt == 0
      ensures i <= |old(queue.nodes)| == |old(queue.Due())| && queue.nodes == InsertAt(old(queue.nodes), i, node)
      ensures basetime <= now && queue.Due() == InsertAt<nat>(old(queue.Due()), i, now - basetime + node.timeout)
      ensures Slot(old(queue.Due()), i, now - basetime + node.timeout)
      ensures old(queue.nodes) != [] ==> basetime == old(basetime)
    {
      hide SendQueue.Due, SendQueue.Valid, InsertAt, Slot, InitialTimeout, Pow2, Paced;
      assert |queue.Due()| == |queue.nodes| by { DueLength(queue); }
      node := NewNode(id, r);
      EmptyQueue(queue);
      if queue.head == null {
        node.t := node.timeout;
        basetime := now;
      } else {
        node.t := now - basetime + node.timeout;
      }
      ghost var was := queue.nodes;
      assert queue.Due() == old(queue.Due());
      i := queue.Insert(node);
      Spliced(was, i, node);
    }

    /** The node of a message that has been sent once. */
    static method NewNode(id: int, r: nat) returns (node: Node)
      ensures fresh(node) && node.id == id && node.timeout == InitialTimeout(r) && node.retransmitCnt == 0
      ensures NodePaced(node) && node.next == null
    {
      node := new Node(id);
      node.timeout := InitialTimeout(r);
      InitialTimeoutRange(r);
      StartsPaced(node.timeout);
      node.waits := [node.timeout];
    }

    /** The id of a node in the queue matters to nothing else. */
    method SetId(node: Node, id: int)
      requires Valid()
      modifies node`id
      ensures Valid() && queue.Due() == old(queue.Due()) && node.id == id
    {
      hide Paced, Deadlines;
      ghost var times := Times(queue.nodes);
      node.id := id;
      assert Times(queue.nodes) == times;
    }

    /** `coap_retransmit`, with the sending itself left to the network: the message is queued again with a
        doubled waiting time and, even if sending has failed, under the id that sending returns, or given up after
        the fourth time. */
    method Retransmit(node: Node, sent: int) returns (again: bool, ghost i: nat)
      requires Valid() && node !in queue.nodes && NodePaced(node) && node.next == null
      modifies this`gone, queue, node, queue.nodes`t, queue.nodes`next
      ensures Valid() && NodePaced(node) && node.timeout == old(node.timeout)
      ensures again <==> old(node.retransmitCnt) < MAX_RETRANSMIT
      ensures again ==> node.retransmitCnt == old(node.retransmitCnt) + 1 && gone == old(gone) && node.id == sent
      ensures i <= |old(queue.nodes)| == |old(queue.Due())|
      ensures again ==> queue.nodes == InsertAt(old(queue.nodes), i, node)
      ensures again ==> queue.Due() == InsertAt<nat>(old(queue.Due()), i, node.timeout * Pow2(node.retransmitCnt))
      ensures again ==> Slot(old(queue.Due()), i, node.timeout * Pow2(node.retransmitCnt))
      ensures !again ==> node.retransmitCnt == old(node.retransmitCnt) && i == 0
      ensures !again ==>
                queue.nodes == old(queue.nodes) && gone == old(gone) + {node} && node.retransmitCnt == MAX_RETRANSMIT
                && queue.Due() == old(queue.Due())
    {
      hide SendQueue.Due, SendQueue.Valid, InsertAt, Slot, Pow2, Paced;
      assert |queue.Due()| == |queue.nodes| by { DueLength(queue); }
      i := 0;
      AtMostFour(node.timeout, node.retransmitCnt, node.waits);
      ghost var was := queue.nodes;
      if node.retransmitCnt < MAX_RETRANSMIT {
        node.retransmitCnt := node.retransmitCnt + 1;
        node.t := node.timeout * Pow2(node.retransmitCnt);
        StaysPaced(node.timeout, node.retransmitCnt, node.waits);
        node.waits := node.waits + [node.t];
        assert queue.Due() == old(queue.Due());
        i := queue.Insert(node);
        Spliced(was, i, node);
        SetId(node, sent);
        again := true;
      } else {
        gone := gone + {node};
        again := false;
      }
    }

    lemma Counts()
      ensures |Messages()| == |queue.nodes| == |queue.Due()|
      ensures forall k :: 0 <= k < |queue.nodes| ==>
                var e, n := Messages()[k], queue.nodes[k];
                e.due == queue.Due()[k] && e.timeout == n.timeout && e.cnt == n.retransmitCnt
    {
      hide SendQueue.Due;
      DueLength(queue);
    }

    /** The message at the head is due first, after its own time. */
    lemma DueFirst()
      requires Valid() && queue.head != null
      ensures queue.nodes != [] && Messages()[0].due == queue.head.t && Sorted(Messages())
    {
      hide Sum, Deadline;
      HeadOf(queue);
      var ts := Times(queue.nodes);
      DeadlineFirst(ts);
      forall j, k | 0 <= j <= k < |ts|
        ensures Deadline(ts, j) <= Deadline(ts, k)
      {
        DeadlinesSorted(ts, j, k);
      }
    }

    /** `coap_retransmit` of what `coap_pop_next` takes from the queue. */
    method Serve(sent: int) returns (ghost i: nat)
      requires Valid() && queue.head != null
      modifies this`gone, queue, queue.nodes
      ensures Valid() && i < |old(queue.nodes)| == |old(queue.Due())| && NodePaced(old(queue.nodes[0]))
      ensures var was, due, e := old(queue.nodes), old(queue.Due()), old(queue.nodes[0].retransmitCnt);
              var wait := Wait(was[0].timeout, was[0].retransmitCnt);
              if e < MAX_RETRANSMIT then
                queue.nodes == InsertAt(was[1..], i, was[0]) && queue.Due() == InsertAt<nat>(due[1..], i, wait)
                && Slot(due[1..], i, wait) && was[0].retransmitCnt == e + 1 && gone == old(gone)
              else
                queue.nodes == was[1..] && queue.Due() == due[1..] && i == 0
                && was[0].retransmitCnt == e == MAX_RETRANSMIT && gone == old(gone) + {was[0]}
      ensures forall n :: n in old(queue.nodes) ==>
                n.timeout == old(n.timeout) && (n != old(queue.nodes[0]) ==> n.retransmitCnt == old(n.retransmitCnt))
    {
      hide SendQueue.Due, InsertAt, RemoveAt, Slot, Pow2, Paced, At;
      ghost var was := queue.nodes;
      HeadOf(queue);
      DueLength(queue);
      CutFirst(was);
      CutFirst(queue.Due());
      AtMostFour(was[0].timeout, was[0].retransmitCnt, was[0].waits);
      var node := queue.PopNext();
      var again;
      again, i := Retransmit(node, sent);
    }

    /** One message is taken from the queue and retransmitted or given up. */
    method Step(sent: int) returns (ghost i: nat)
      requires Valid() && queue.head != null
      modifies this`gone, queue, queue.nodes
      ensures Valid() && i < |old(queue.nodes)| && Place(old(Messages()), i)
      ensures queue.nodes == NodesAfter(old(queue.nodes), old(Messages()), i)
      ensures Messages() == After(old(Messages()), i) && old(Messages())[0].cnt <= MAX_RETRANSMIT
      ensures old(queue.head) != null && NodePaced(old(queue.nodes[0]))
      ensures forall n :: n in old(queue.nodes) && n != old(queue.nodes[0]) ==> n.retransmitCnt == old(n.retransmitCnt)
      ensures gone == old(gone) + GivenUp(old(queue.nodes), old(Messages()))
      ensures GivenUp(old(queue.nodes), old(Messages())) != {} ==> old(queue.nodes)[0].retransmitCnt == MAX_RETRANSMIT
    {
      hide SendQueue.Valid, SendQueue.Due, InsertAt, Slot, Wait, NodePaced, Messages, Place, Sorted, After;
      ghost var was, es, due := queue.nodes, Messages(), queue.Due();
      OnceEach(queue);
      HeadOf(queue);
      DueFirst();
      Counts();
      i := Serve(sent);
      Counts();
      if es[0].cnt < MAX_RETRANSMIT {
        assert was[0] in was && es[0].timeout == was[0].timeout && es[0].cnt + 1 == was[0].retransmitCnt;
        assert Repeated(es[0]).due == Wait(was[0].timeout, was[0].retransmitCnt);
        PlaceIs(es, due[1..], i);
        assert queue.Due() == DueAfter(due, es[0], i);
      } else {
        NoPlace(es);
      }
      NodesMoved(was, es, i);
      ghost var es' := Messages();
      forall j | 1 <= j < |es|
        ensures es'[Moved(es, i, j)].timeout == es[j].timeout && es'[Moved(es, i, j)].cnt == es[j].cnt
      {
        assert queue.nodes[Moved(es, i, j)] == was[j] && was[j] != was[0];
      }
      EntriesAfter(due, es, queue.Due(), es', i);
    }

    /** No message has been lost, and only messages that have been repeated four times have been given up. */
    ghost predicate Kept(all: seq<Node>, gone0: set<Node>)
      reads this`gone, queue, gone
    {
      && (forall n :: n in queue.nodes ==> n in all)
      && (forall n :: n in all ==> n in queue.nodes || n in gone)
      && forall n :: n in gone - gone0 ==>
           n in all && n !in queue.nodes && NodePaced(n) && n.retransmitCnt == MAX_RETRANSMIT
    }

    /** One turn of the loop. */
    method Turn(sent: int, ghost all: seq<Node>, ghost gone0: set<Node>, ghost book: map<Node, Start>, ghost used: nat)
      requires Valid() && queue.head != null && Kept(all, gone0) && Tracked(book, queue.nodes, Messages(), used)
      modifies this`gone, queue, queue.nodes
      ensures Valid() && Kept(all, gone0)
      ensures Tracked(book, queue.nodes, Messages(), used + old(queue.head.t))
      ensures Budget(Messages()) < old(Budget(Messages()))
    {
      hide SendQueue.Due, Pow2, Paced, NodePaced, Budget, At, Load, Sorted, Place, Tracked, NodesAfter, After, GivenUp,
           Messages, Distinct;
      HeadOf(queue);
      DueFirst();
      ghost var nodes, es := queue.nodes, Messages();
      assert Tracked(book, nodes, es, used);
      ghost var i := Step(sent);
      GivenUpIs(nodes, es);
      NodeAfter(nodes, es, i);
      BudgetAfter(es, i);
      TrackedStep(book, nodes, es, used, i);
    }

    /** What has elapsed is taken off the time of the message at the head. */
    method Shorten(elapsed: nat)
      requires Valid() && queue.head != null && elapsed < queue.head.t
      modifies queue.nodes`t
      ensures Valid() && Advanced(old(Messages()), Messages(), elapsed)
    {
      hide Pow2, Paced, At, Deadlines;
      HeadOf(queue);
      ghost var ts := Times(queue.nodes);
      assert forall k :: 1 <= k < |queue.nodes| ==> queue.nodes[k] != queue.head;
      queue.head.t := queue.head.t - elapsed;
      Shortened(ts, Times(queue.nodes), elapsed);
    }

    /** The sweep stops at a message that is not due after what is left of the time. */
    method Stop(elapsed: nat, ghost book: map<Node, Start>, ghost used: nat)
      requires Valid() && queue.head != null && elapsed < queue.head.t
      requires Tracked(book, queue.nodes, Messages(), used)
      modifies queue.nodes`t
      ensures Valid() && Swept(book, queue.nodes, Messages(), used, used + elapsed)
      ensures Budget(Messages()) == old(Budget(Messages()))
    {
      hide SendQueue.Valid, SendQueue.Due, Advanced, NodePaced, Swept, Tracked, Sorted, Messages, Budget;
      DueFirst();
      ghost var es := Messages();
      Shorten(elapsed);
      SweepEnds(book, queue.nodes, es, Messages(), used, used + elapsed);
      BudgetKept(es, Messages(), elapsed);
    }

    /** The loop of `coap_retransmittimer_execute`; `sent` are the ids that sending returns. */
    method SweepQueue(total: nat, sent: nat -> int) returns (ghost used: nat)
      requires Valid()
      modifies this`gone, queue, queue.nodes
      ensures Valid() && Kept(old(queue.nodes), old(gone)) && Distinct(old(queue.nodes))
      ensures Swept(Book(old(queue.nodes), old(Messages())), queue.nodes, Messages(), used, total)
      ensures Budget(Messages()) <= old(Budget(Messages()))
    {
      hide SendQueue.Due, InsertAt, RemoveAt, Slot, Pow2, Paced, NodePaced, Budget, At, Distinct, Load, Sorted, Tracked,
           Swept, Book, Messages, SendQueue.Valid;
      var elapsed: nat := total;
      ghost var all, found := queue.nodes, Messages();
      OnceEach(queue);
      ghost var book := Book(all, found);
      TrackedFirst(all, found);
      used := 0;
      EmptyQueue(queue);
      var nextInQueue, k: nat := queue.head, 0;
      while nextInQueue != null
        invariant Valid() && nextInQueue == queue.head && Kept(all, old(gone)) && used + elapsed == total
        invariant Tracked(book, queue.nodes, Messages(), used) && Budget(Messages()) <= Budget(found)
        decreases Budget(Messages())
      {
        HeadOf(queue);
        if nextInQueue.t > elapsed {
          Stop(elapsed, book, used);
          return;
        }
        elapsed := elapsed - nextInQueue.t;
        used := used + nextInQueue.t;
        Turn(sent(k), all, old(gone), book, used - nextInQueue.t);
        k := k + 1;
        nextInQueue := queue.head;
      }
      EmptyQueue(queue);
      NothingLeft(book, queue.nodes, Messages(), used, total);
    }

    /** `coap_retransmittimer_execute`: the sweep over the messages that are due. It ends because each step uses up
        one of the transmissions that are left; no message is lost, and only messages that have been retransmitted
        four times are given up. The messages that are served are those whose load has elapsed; all others are due in
        the future, but `used` too late. */
    method Sweep(now: nat, sent: nat -> int) returns (ghost used: nat)
      requires Valid() && basetime <= now
      modifies this, queue, queue.nodes
      ensures Valid() && basetime == now
      ensures Distinct(old(queue.nodes))
              && Swept(Book(old(queue.nodes), old(Messages())), queue.nodes, Messages(), used, now - old(basetime))
      ensures forall j :: 0 <= j < |old(queue.nodes)| ==>
                var n := old(queue.nodes)[j];
                (n !in queue.nodes || old(queue.nodes[j].retransmitCnt) < n.retransmitCnt)
                <==> Load(old(Messages()), j) <= now - old(basetime)
      ensures forall n :: n in queue.nodes ==> n in old(queue.nodes)
      ensures forall n :: n in old(queue.nodes) ==> n in queue.nodes || n in gone
      ensures forall n :: n in gone - old(gone) ==>
                n in old(queue.nodes) && NodePaced(n) && n.retransmitCnt == MAX_RETRANSMIT
      ensures Budget(Messages()) <= old(Budget(Messages()))
    {
      hide SendQueue.Due, Paced, NodePaced, Budget, Distinct, Load, Swept, Book, Messages, SendQueue.Valid;
      ghost var all, found, total: nat := queue.nodes, Messages(), now - basetime;
      Counts();
      used := SweepQueue(now - basetime, sent);
      SweptIs(all, found, queue.nodes, Messages(), used, total);
      Counts();
      basetime := now;
    }
  }

  ghost function Entries(nodes: seq<Node>, due: seq<nat>): (es: seq<Entry>)
    requires |due| == |nodes|
    reads nodes
    ensures |es| == |nodes|
    ensures forall k :: 0 <= k < |nodes| ==> es[k] == Entry(due[k], nodes[k].timeout, nodes[k].retransmitCnt)
  {
    seq(|nodes|, k requires 0 <= k < |nodes| reads nodes => Entry(due[k], nodes[k].timeout, nodes[k].retransmitCnt))
  }

  ghost function DueAfter(due: seq<nat>, first: Entry, i: nat): seq<nat>
    requires i < |due|
  {
    if first.cnt < MAX_RETRANSMIT then InsertAt<nat>(due[1..], i, Repeated(first).due) else due[1..]
  }

  /** Serving the first message changes nothing about the others. */
  lemma EntriesAfter(due: seq<nat>, es: seq<Entry>, due': seq<nat>, es': seq<Entry>, i: nat)
    requires i < |due| == |es| && due' == DueAfter(due, es[0], i) && |es'| == |due'|
    requires forall k :: 0 <= k < |es| ==> es[k].due == due[k]
    requires forall k :: 0 <= k < |es'| ==> es'[k].due == due'[k]
    requires forall j :: 1 <= j < |es| ==>
               var e := es'[Moved(es, i, j)];
               e.timeout == es[j].timeout && e.cnt == es[j].cnt
    requires es[0].cnt < MAX_RETRANSMIT ==> es'[i].timeout == es[0].timeout && es'[i].cnt == es[0].cnt + 1
    ensures es' == After(es, i)
  {
    hide Repeated, InsertAt, DueAfter, After;
    RepeatedAt(due, es, i);
    forall k | 0 <= k < |es'|
      ensures es'[k] == After(es, i)[k]
    {
      if !(es[0].cnt < MAX_RETRANSMIT && k == i) {
        var j := if es[0].cnt < MAX_RETRANSMIT && i < k then k else k + 1;
        assert Moved(es, i, j) == k;
        MovedAt(due, es, i, j);
      }
    }
  }

  lemma RepeatedAt(due: seq<nat>, es: seq<Entry>, i: nat)
    requires i < |due| == |es|
    ensures |After(es, i)| == |DueAfter(due, es[0], i)| == if es[0].cnt < MAX_RETRANSMIT then |es| else |es| - 1
    ensures es[0].cnt < MAX_RETRANSMIT ==>
              var e := After(es, i)[i];
              e.timeout == es[0].timeout && e.cnt == es[0].cnt + 1 && e.due == DueAfter(due, es[0], i)[i]
  {
    hide Wait;
  }

  lemma MovedAt(due: seq<nat>, es: seq<Entry>, i: nat, j: nat)
    requires i < |due| == |es| && 1 <= j < |es|
    ensures var k := Moved(es, i, j);
            && k < |After(es, i)| && After(es, i)[k] == es[j]
            && k < |DueAfter(due, es[0], i)| && DueAfter(due, es[0], i)[k] == due[j]
  {
    hide Repeated;
  }

  ghost predicate NodePaced(n: Node)
    reads n
  {
    Paced(n.timeout, n.retransmitCnt, n.waits)
  }

  lemma StartsPaced(timeout: nat)
    requires 2000 <= timeout <= 2996
    ensures Paced(timeout, 0, [timeout])
  {
    assert Pow2(0) == 1;
  }

  lemma StaysPaced(timeout: nat, cnt: nat, waits: seq<nat>)
    requires 0 < cnt <= MAX_RETRANSMIT && Paced(timeout, cnt - 1, waits)
    ensures Paced(timeout, cnt, waits + [timeout * Pow2(cnt)])
  {
    hide Pow2;
  }

  lemma AtMostFour(timeout: nat, cnt: nat, waits: seq<nat>)
    requires Paced(timeout, cnt, waits)
    ensures cnt <= MAX_RETRANSMIT
  {
  }

  lemma OnceEach(queue: SendQueue)
    requires queue.Valid()
    ensures Distinct(queue.nodes)
  {
  }

  lemma CutFirst<T>(s: seq<T>)
    requires s != []
    ensures RemoveAt(s, 0) == s[1..]
  {
  }

  lemma EmptyQueue(queue: SendQueue)
    requires queue.Valid()
    ensures queue.head == null <==> queue.nodes == []
  {
  }

  lemma HeadOf(queue: SendQueue)
    requires queue.Valid() && queue.head != null
    ensures queue.nodes != [] && queue.head == queue.nodes[0] && queue.head in queue.nodes
  {
  }

  lemma DeadlineFirst(ts: seq<nat>)
    requires ts != []
    ensures Deadline(ts, 0) == Sum([ts[0]]) == ts[0]
  {
    assert ts[..1] == [ts[0]] == [] + [ts[0]];
    SumSnoc([], ts[0]);
  }

  /** Taking time off the head brings every deadline forward. */
  lemma Shortened(ts: seq<nat>, ts': seq<nat>, e: nat)
    requires ts != [] && |ts'| == |ts| && ts[0] == ts'[0] + e && ts[1..] == ts'[1..]
    ensures forall k :: 0 <= k < |ts| ==> Deadlines(ts)[k] == Deadlines(ts')[k] + e
  {
    hide Sum;
    forall k | 0 <= k < |ts|
      ensures Deadline(ts, k) == Deadline(ts', k) + e
    {
      assert ts[..k + 1] == [ts[0]] + ts[1..][..k] && ts'[..k + 1] == [ts'[0]] + ts'[1..][..k];
      SumAppend([ts[0]], ts[1..][..k]);
      SumAppend([ts'[0]], ts'[1..][..k]);
      DeadlineFirst(ts);
      DeadlineFirst(ts');
    }
  }

  lemma DueLength(queue: SendQueue)
    ensures |queue.Due()| == |queue.nodes|
  {
  }
}
