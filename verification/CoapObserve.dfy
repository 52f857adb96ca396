/** Notifying the observers of a resource (RFC 7641): every observer learns of every change, although
    allocation and sending may fail at any time. */
module CoapObserve {
  const MAX_NON := 5

  /** Confirmable or non-confirmable */
  datatype Kind = Con | Non

  /** A token, or none where any will do. */
  datatype Token = NoToken | Token(bytes: seq<int>)

  class Observer {
    const peer: int
    const token: seq<int>
    var non: bool                  // non-confirmable notifications are wanted
    var nonCnt: nat                // 4 bits
    var dirty: bool                // its last notification could not be queued
    ghost var notified: nat        // the version of the resource last queued for it
    ghost var sent: seq<Kind>      // the types of the messages that sending has been tried for
    ghost var typeKept: bool       // the handler has always left the message type alone
    ghost var attempts: nat        // how often a notification has been tried

    /** `coap_subscription_init`; the answer to the registration carries the current version. */
    constructor (peer: int, token: seq<int>, non: bool, ghost version: nat)
      ensures this.peer == peer && this.token == token && this.non == non
      ensures nonCnt == 0 && !dirty && notified == version && sent == [] && typeKept && attempts == 0
    {
      this.peer, this.token := peer, token;
      this.non, nonCnt, dirty := non, 0, false;
      notified, sent, typeKept, attempts := version, [], true, 0;
    }
  }

  /** What happens while one observer is notified: whether the message and its token can be set up,
      whether the handler turns it into the other type, and whether it can be sent. */
  datatype Outcome = Outcome(pduOk: bool, tokenOk: bool, handlerFlipsType: bool, sendOk: bool)

  predicate Succeeds(o: Outcome) {
    o.pduOk && o.tokenOk && o.sendOk
  }

  /** A confirmable notification is due for an observer that has not asked for others, and after MAX_NON others. */
  ghost function Wanted(non: bool, nonCnt: nat): Kind {
    if !non || MAX_NON <= nonCnt then Con else Non
  }

  ghost function Flipped(kind: Kind, flips: bool): Kind {
    if flips then (if kind == Con then Non else Con) else kind
  }

  /** The next message of a paced sequence. */
  lemma PacedOn(non: bool, sent: seq<Kind>)
    requires Paced(non, sent)
    ensures var n := |sent| % (MAX_NON + 1);
            var kind := Wanted(non, if non then n else 0);
            && Paced(non, sent + [kind])
            && (non ==> |sent + [kind]| % (MAX_NON + 1) == if n < MAX_NON then n + 1 else 0)
  {
  }

  /** An observer that has not asked for others gets confirmable messages only; for one that has, exactly MAX_NON
      others lie between one confirmable message and the next, and in front of the first. */
  lemma PacedRuns(non: bool, sent: seq<Kind>, i: int, j: nat)
    requires Paced(non, sent) && -1 <= i < j < |sent| && sent[j] == Con && (0 <= i ==> sent[i] == Con)
    requires forall k :: i < k < j ==> sent[k] == Non
    ensures j - i == if non then MAX_NON + 1 else 1
  {
    var n := MAX_NON + 1;
    if non {
      SameRest(i + 1, j + 1);
      if n < j - i {
        PacedAt(non, sent, i + n);
      }
    } else if i + 1 < j {
      PacedAt(non, sent, i + 1);
    }
  }

  lemma PacedAt(non: bool, sent: seq<Kind>, k: nat)
    requires Paced(non, sent) && k < |sent|
    ensures sent[k] == if non && k % (MAX_NON + 1) < MAX_NON then Non else Con
  {
  }

  lemma SameRest(a: nat, b: nat)
    ensures a > 0 ==> ((a - 1) % (MAX_NON + 1) == MAX_NON <==> a % (MAX_NON + 1) == 0)
    ensures b > 0 ==> ((b - 1) % (MAX_NON + 1) == MAX_NON <==> b % (MAX_NON + 1) == 0)
    ensures a % (MAX_NON + 1) == 0 ==> (a + MAX_NON) % (MAX_NON + 1) == MAX_NON
    ensures a % (MAX_NON + 1) == 0 && b % (MAX_NON + 1) == 0 && a < b ==> MAX_NON + 1 <= b - a
  {
  }

  /** An observer that is due is approached once: it then has the current version queued, or is marked. */
  ghost predicate Treated(attempts: nat, sent: seq<Kind>, nonCnt: nat, due: bool, o: Observer, outcome: Outcome,
                          version: nat)
    reads o
  {
    && o.attempts == attempts + (if due then 1 else 0)
    && o.sent == sent + (if due && outcome.pduOk && outcome.tokenOk
                         then [Flipped(Wanted(o.non, nonCnt), outcome.handlerFlipsType)] else [])
    && (if due && !Succeeds(outcome) then o.dirty else o.notified == version && !o.dirty)
  }

  /** No update is lost: an observer has the current version queued, or the resource is still marked, or
      the observer is. */
  ghost predicate Informed(notified: nat, obsDirty: bool, version: nat, dirty: bool, partiallyDirty: bool) {
    && (notified == version || dirty || (obsDirty && partiallyDirty))
    && (obsDirty ==> partiallyDirty)
  }

  /** Every message is confirmable, or of MAX_NON + 1 messages the last one. */
  ghost predicate Paced(non: bool, sent: seq<Kind>) {
    forall k :: 0 <= k < |sent| ==> sent[k] == if non && k % (MAX_NON + 1) < MAX_NON then Non else Con
  }

  /** As long as the handler leaves the type alone, the counter is the place within such a round. */
  ghost predicate PacedNon(o: Observer)
    reads o
  {
    && o.nonCnt < 16
    && (o.typeKept ==> Paced(o.non, o.sent) && o.nonCnt == if o.non then |o.sent| % (MAX_NON + 1) else 0)
  }

  /** The observer is of this peer and, if one is given, has this token. */
  predicate Matches(o: Observer, peer: int, token: Token) {
    o.peer == peer && (token.NoToken? || token.bytes == o.token)
  }

  /** No peer is registered twice with the same token. */
  ghost predicate OnePerToken(observers: seq<Observer>) {
    forall i, j :: 0 <= i < j < |observers| ==> !Matches(observers[i], observers[j].peer, Token(observers[j].token))
  }

  ghost predicate Distinct(observers: seq<Observer>) {
    forall i, j :: 0 <= i < j < |observers| ==> observers[i] != observers[j]
  }

  class Resource {
    var dirty: bool
    var partiallyDirty: bool
    var observers: seq<Observer>
    ghost var version: nat

    ghost predicate Valid()
      reads this, observers
    {
      && Distinct(observers) && OnePerToken(observers)
      && (forall i :: 0 <= i < |observers| ==>
            && Informed(observers[i].notified, observers[i].dirty, version, dirty, partiallyDirty)
            && PacedNon(observers[i]))
    }

    constructor ()
      ensures Valid() && observers == [] && !dirty && !partiallyDirty
    {
      dirty, partiallyDirty, observers, version := false, false, [], 0;
    }

    /** The application changes the resource and marks it. */
    method Change()
      requires Valid()
      modifies this`dirty, this`version
      ensures Valid() && dirty && version == old(version) + 1
    {
      dirty := true;
      version := version + 1;
    }

    /** `coap_find_observer`: the index of the first observer that matches, or the length of the list. */
    method Find(peer: int, token: Token) returns (k: nat)
      ensures k <= |observers| && (k < |observers| ==> Matches(observers[k], peer, token))
      ensures forall i :: 0 <= i < k ==> !Matches(observers[i], peer, token)
    {
      k := 0;
      while k < |observers| && !Matches(observers[k], peer, token)
        invariant k <= |observers| && forall i :: 0 <= i < k ==> !Matches(observers[i], peer, token)
      {
        k := k + 1;
      }
    }

    /** `coap_add_observer`: an observer that is already registered is found again; a new one is added, unless there
        is no memory for it. */
    method Register(peer: int, token: Token, non: bool, hasMemory: bool) returns (o: Observer?)
      requires Valid()
      modifies this`observers
      ensures Valid()
      ensures (exists i :: 0 <= i < |old(observers)| && Matches(old(observers)[i], peer, token)) ==>
                observers == old(observers) && o in observers && Matches(o, peer, token)
      ensures (forall i :: 0 <= i < |old(observers)| ==> !Matches(old(observers)[i], peer, token)) ==>
                if hasMemory then fresh(o) && observers == old(observers) + [o] && Matches(o, peer, token)
                else o == null && observers == old(observers)
    {
      var k := Find(peer, token);
      if k < |observers| {
        return observers[k];
      }
      if !hasMemory {
        return null;
      }
      var bytes := if token.NoToken? then [] else token.bytes;
      o := new Observer(peer, bytes, non, version);
      observers := observers + [o];
    }

    /** `coap_delete_observer` */
    method Deregister(i: nat)
      requires Valid() && i < |observers|
      modifies this`observers
      ensures Valid() && observers == old(observers)[..i] + old(observers)[i + 1..]
    {
      ghost var was := observers;
      observers := observers[..i] + observers[i + 1..];
      assert forall k :: 0 <= k < |observers| ==> observers[k] == was[if k < i then k else k + 1];
    }

    /** The loop body of `coap_notify_observers` for an observer that is to be notified. */
    method NotifyOne(o: Observer, outcome: Outcome)
      requires PacedNon(o)
      modifies o, this`partiallyDirty
      ensures PacedNon(o) && o.non == old(o.non) && o.attempts == old(o.attempts) + 1
      // a message without token is never sent; any other is of the type wanted, unless the handler changes it
      ensures !(outcome.pduOk && outcome.tokenOk) ==> o.sent == old(o.sent) && o.nonCnt == old(o.nonCnt)
      ensures outcome.pduOk && outcome.tokenOk ==>
                o.sent == old(o.sent) + [Flipped(Wanted(old(o.non), old(o.nonCnt)), outcome.handlerFlipsType)]
                && o.nonCnt == if o.sent[|o.sent| - 1].Con? then 0 else (old(o.nonCnt) + 1) % 16
      ensures o.typeKept <==> old(o.typeKept) && !(outcome.pduOk && outcome.tokenOk && outcome.handlerFlipsType)
      ensures partiallyDirty == (old(partiallyDirty) || !Succeeds(outcome))
      ensures o.dirty == !Succeeds(outcome) && o.notified == if Succeeds(outcome) then version else old(o.notified)
      ensures Treated(old(o.attempts), old(o.sent), old(o.nonCnt), true, o, outcome, version)
    {
      o.dirty := false;
      o.attempts := o.attempts + 1;
      if !outcome.pduOk {
        o.dirty := true;
        partiallyDirty := true;
        return;
      }
      if !outcome.tokenOk {
        o.dirty := true;
        partiallyDirty := true;
        return;
      }
      if o.typeKept {
        PacedOn(o.non, o.sent);
      }
      var kind := if o.non && o.nonCnt < MAX_NON then Non else Con;
      if outcome.handlerFlipsType {
        kind := if kind.Con? then Non else Con;
        o.typeKept := false;
      }
      o.sent := o.sent + [kind];
      if kind.Con? {
        o.nonCnt := 0;
      } else {
        o.nonCnt := (o.nonCnt + 1) % 16;
      }
      if outcome.sendOk {
        o.notified := version;
      } else {
        o.dirty := true;
        partiallyDirty := true;
      }
    }

    /** `coap_notify_observers` for an observable resource, with arbitrary failures. An observer is
        approached exactly when the resource has changed or its own last notification failed; afterwards
        it has the current version queued, or its failure has left both marks. */
    method Notify(outcomes: seq<Outcome>)
      requires Valid() && |observers| <= |outcomes|
      modifies this`dirty, this`partiallyDirty, observers
      ensures Valid() && !dirty
      ensures forall i :: 0 <= i < |observers| ==>
                Treated(old(observers[i].attempts), old(observers[i].sent), old(observers[i].nonCnt),
                        old(dirty) || old(observers[i].dirty), observers[i], outcomes[i], version)
      ensures partiallyDirty <==> exists i :: 0 <= i < |observers| && observers[i].dirty
    {
      hide PacedNon, Treated, Succeeds;
      NothingHidden();
      if dirty || partiallyDirty {
        partiallyDirty := false;
        NotifyAll(outcomes);
      } else {
        forall i | 0 <= i < |observers|
          ensures Treated(old(observers[i].attempts), old(observers[i].sent), old(observers[i].nonCnt), false,
                          observers[i], outcomes[i], version)
        {
          LeftAlone(observers[i], outcomes[i]);
        }
      }
      dirty := false;
    }

    /** The loop of `coap_notify_observers`. */
    method NotifyAll(outcomes: seq<Outcome>)
      requires Distinct(observers) && |observers| <= |outcomes| && !partiallyDirty
      requires forall i :: 0 <= i < |observers| ==> PacedNon(observers[i])
      requires forall i :: 0 <= i < |observers| ==> dirty || observers[i].dirty || observers[i].notified == version
      modifies this`partiallyDirty, observers
      ensures forall i :: 0 <= i < |observers| ==> PacedNon(observers[i])
      ensures forall i :: 0 <= i < |observers| ==>
                Treated(old(observers[i].attempts), old(observers[i].sent), old(observers[i].nonCnt),
                        dirty || old(observers[i].dirty), observers[i], outcomes[i], version)
      ensures forall i :: 0 <= i < |observers| ==> observers[i].dirty || observers[i].notified == version
      ensures partiallyDirty <==> exists i :: 0 <= i < |observers| && observers[i].dirty
    {
      hide PacedNon, Treated, Succeeds;
      ghost var w := 0;
      for k := 0 to |observers|
        invariant forall i :: 0 <= i < |observers| ==> PacedNon(observers[i])
        invariant partiallyDirty ==> 0 <= w < k && observers[w].dirty
        invariant forall i :: 0 <= i < k && observers[i].dirty ==> partiallyDirty
        invariant forall i :: k <= i < |observers| ==>
                    && observers[i].dirty == old(observers[i].dirty)
                    && observers[i].attempts == old(observers[i].attempts)
                    && observers[i].sent == old(observers[i].sent) && observers[i].nonCnt == old(observers[i].nonCnt)
                    && (dirty || observers[i].dirty || observers[i].notified == version)
        invariant forall i :: 0 <= i < k ==> observers[i].dirty || observers[i].notified == version
        invariant forall i :: 0 <= i < k ==>
                    Treated(old(observers[i].attempts), old(observers[i].sent), old(observers[i].nonCnt),
                            dirty || old(observers[i].dirty), observers[i], outcomes[i], version)
      {
        if !dirty && !observers[k].dirty {
          LeftAlone(observers[k], outcomes[k]);
          continue;
        }
        NotifyOne(observers[k], outcomes[k]);
        if observers[k].dirty {
          w := k;
        }
      }
    }

    lemma LeftAlone(o: Observer, outcome: Outcome)
      requires !o.dirty && o.notified == version
      ensures Treated(o.attempts, o.sent, o.nonCnt, false, o, outcome, version)
    {
    }

    lemma NothingHidden()
      requires Valid()
      ensures forall i :: 0 <= i < |observers| ==> dirty || observers[i].dirty || observers[i].notified == version
      ensures !partiallyDirty ==> forall i :: 0 <= i < |observers| ==> !observers[i].dirty
    {
    }
  }

  // ---- whole runs ----

  datatype Event =
    | Changed
    | Notified(outcomes: seq<Outcome>)
    | Registered(peer: int, token: Token, non: bool, hasMemory: bool)
    | Deregistered(i: nat)

  /** Over every run of changes, notification passes with arbitrary failures, registrations and
      deregistrations no observer loses an update, and the messages sent to each are of the types that are due. */
  method Run(events: seq<Event>) returns (r: Resource)
    ensures fresh(r) && r.Valid()
    ensures forall o :: o in r.observers ==> o.notified == r.version || r.dirty || (o.dirty && r.partiallyDirty)
    ensures forall o :: o in r.observers && o.typeKept ==> Paced(o.non, o.sent)
    ensures OnePerToken(r.observers)
  {
    r := new Resource();
    for k := 0 to |events|
      invariant fresh(r) && r.Valid() && forall i :: 0 <= i < |r.observers| ==> fresh(r.observers[i])
    {
      match events[k]
      case Changed => r.Change();
      case Notified(outcomes) =>
        if |r.observers| <= |outcomes| {
          r.Notify(outcomes);
        }
      case Registered(peer, token, non, hasMemory) => var o := r.Register(peer, token, non, hasMemory);
      case Deregistered(i) =>
        if i < |r.observers| {
          r.Deregister(i);
        }
    }
  }

  /** Two passes: whatever failed in the first is made good by a second one without failures. */
  method CatchUp(r: Resource, first: seq<Outcome>, second: seq<Outcome>)
    requires r.Valid() && |r.observers| <= |first| && |r.observers| <= |second|
    requires forall o :: o in second ==> Succeeds(o)
    modifies r, r.observers
    ensures r.Valid() && !r.dirty && !r.partiallyDirty && r.version == old(r.version)
    ensures forall i :: 0 <= i < |r.observers| ==> r.observers[i].notified == r.version
  {
    r.Notify(first);
    r.Notify(second);
  }
}
