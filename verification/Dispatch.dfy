/** How accepted connections reach the workers: each worker's queue, and the interleaved steps of all threads. */
module Dispatch {
  import opened Arithmetic
  import opened Sequences

  // ---------------------------------------------------------------- the queue of one worker

  class Item {
    const sfd: int
    var next: Item?

    constructor (sfd: int)
      ensures this.sfd == sfd && next == null
    {
      this.sfd, next := sfd, null;
    }
  }

  function Descriptors(items: seq<Item>): (s: seq<int>)
    ensures |s| == |items| && forall i :: 0 <= i < |items| ==> s[i] == items[i].sfd
  {
    if items == [] then [] else [items[0].sfd] + Descriptors(items[1..])
  }

  class Queue {
    var head: Item?
    var tail: Item?
    ghost var items: seq<Item>

    /** The items are distinct and linked in order; both ends are null when there are none. */
    ghost predicate Valid()
      reads this, items
    {
      && (head == if items == [] then null else items[0])
      && (tail == if items == [] then null else items[|items| - 1])
      && (forall i :: 0 <= i < |items| - 1 ==> items[i].next == items[i + 1])
      && (items != [] ==> items[|items| - 1].next == null)
      && (forall i, j :: 0 <= i < j < |items| ==> items[i] != items[j])
    }

    ghost function Contents(): (s: seq<int>)
      reads this
    {
      Descriptors(items)
    }

    constructor ()
      ensures Valid() && Contents() == []
    {
      head, tail, items := null, null, [];
    }

    /** cq_push */
    method Push(item: Item)
      requires Valid() && item !in items
      modifies this, item`next, (if tail == null then {} else {tail})`next
      ensures Valid() && items == old(items) + [item]
      ensures Contents() == old(Contents()) + [item.sfd]
    {
      item.next := null;
      if tail == null {
        head := item;
      } else {
        tail.next := item;
      }
      tail := item;
      items := items + [item];
      assert Contents() == old(Contents()) + [item.sfd];
    }

    /** cq_pop; the item's own link is left as it was. */
    method Pop() returns (item: Item?)
      requires Valid()
      modifies this
      ensures Valid()
      ensures item == null <==> old(items) == []
      ensures item == null ==> items == [] && Contents() == old(Contents()) == []
      ensures item != null ==> item == old(items)[0] && items == old(items)[1..]
      ensures item != null ==> old(Contents()) == [item.sfd] + Contents()
    {
      item := head;
      if item != null {
        assert |items| > 1 ==> items[0].next == items[1];
        head := item.next;
        if head == null {
          tail := null;
        }
        items := items[1..];
      }
    }

    /** The loop of async_cb: every queued connection is adopted, oldest first. */
    method Drain() returns (adopted: seq<int>)
      requires Valid()
      modifies this
      ensures Valid() && Contents() == [] && adopted == old(Contents())
    {
      hide *;
      adopted := [];
      ghost var all := Contents();
      var item := Pop();
      while item != null
        invariant Valid()
        invariant item == null ==> adopted == all && Contents() == []
        invariant item != null ==> all == adopted + ([item.sfd] + Contents())
        decreases |items|, item != null
      {
        Regroup(adopted, [item.sfd], Contents());
        adopted := adopted + [item.sfd];
        item := Pop();
        if item == null { Regroup(adopted, [], []); }
      }
    }
  }

  // ---------------------------------------------------------------- the threads

  const WORKERS: nat := 5

  datatype Worker = Worker(started: bool, queue: seq<int>, signalled: bool, draining: bool, adopted: seq<int>)

  /** The accepting thread: waiting for the workers, between connections, or inside dispath_conn before and after the push. */
  datatype Boss = Starting | Idle | Holding(fd: int) | Pushed(worker: nat)

  /** `accepted` lists every descriptor that accept has returned, in order. */
  datatype State = State(workers: seq<Worker>, initCount: nat, roundRobin: nat, boss: Boss, accepted: seq<int>)

  /** What one thread does at a time; a push, a send and a pop each happen at once. */
  datatype Action =
    | Start(w: nat)
    | Ready
    | Accept(fd: int)
    | Push
    | Send
    | Wake(w: nat)
    | Pop(w: nat)
    | Stop(w: nat)

  predicate Enabled(s: State, a: Action) {
    && |s.workers| == WORKERS
    && match a
       case Start(w) => w < WORKERS && !s.workers[w].started
       case Ready => s.boss == Starting && s.initCount >= WORKERS
       case Accept(_) => s.boss == Idle
       case Push => s.boss.Holding? && s.initCount > 0 && s.roundRobin % s.initCount < WORKERS
       case Send => s.boss.Pushed? && s.boss.worker < WORKERS
       case Wake(w) => w < WORKERS && s.workers[w].started && s.workers[w].signalled && !s.workers[w].draining
       case Pop(w) => w < WORKERS && s.workers[w].draining && s.workers[w].queue != []
       case Stop(w) => w < WORKERS && s.workers[w].draining && s.workers[w].queue == []
  }

  function Apply(s: State, a: Action): (t: State)
    requires Enabled(s, a)
    ensures |t.workers| == WORKERS
  {
    match a
    case Start(w) => s.(initCount := s.initCount + 1, workers := s.workers[w := s.workers[w].(started := true)])
    case Ready => s.(boss := Idle)
    case Accept(fd) => s.(boss := Holding(fd), accepted := s.accepted + [fd])
    case Push =>
      var w := s.roundRobin % s.initCount;
      s.(boss := Pushed(w), workers := s.workers[w := s.workers[w].(queue := s.workers[w].queue + [s.boss.fd])])
    case Send =>
      var w := s.boss.worker;
      s.(boss := Idle, roundRobin := s.roundRobin + 1, workers := s.workers[w := s.workers[w].(signalled := true)])
    case Wake(w) => s.(workers := s.workers[w := s.workers[w].(signalled := false, draining := true)])
    case Pop(w) =>
      var me := s.workers[w];
      s.(workers := s.workers[w := me.(queue := me.queue[1..], adopted := me.adopted + [me.queue[0]])])
    case Stop(w) => s.(workers := s.workers[w := s.workers[w].(draining := false)])
  }

  function Initial(): State {
    State(seq(WORKERS, _ => Worker(false, [], false, false, [])), 0, 0, Starting, [])
  }

  /** A run of any interleaving. */
  predicate Runs(s: State, actions: seq<Action>)
    decreases |actions|
  {
    actions != [] ==> Enabled(s, actions[0]) && Runs(Apply(s, actions[0]), actions[1..])
  }

  function Outcome(s: State, actions: seq<Action>): State
    requires Runs(s, actions)
    decreases |actions|
  {
    if actions == [] then s else Outcome(Apply(s, actions[0]), actions[1..])
  }

  // ---------------------------------------------------------------- who gets what

  /** Every fifth of the accepted connections, starting with the w-th. */
  function Share(accepted: seq<int>, w: nat): seq<int> {
    if accepted == [] then []
    else
      var last := |accepted| - 1;
      Share(accepted[..last], w) + if last % WORKERS == w then [accepted[last]] else []
  }

  /** The connections that have been pushed. */
  function Dispatched(s: State): (d: seq<int>) {
    if s.boss.Holding? && s.accepted != [] then s.accepted[..|s.accepted| - 1] else s.accepted
  }

  function Started(workers: seq<Worker>): nat {
    if workers == [] then 0 else Started(workers[..|workers| - 1]) + if workers[|workers| - 1].started then 1 else 0
  }

  /** The accepting thread's place in dispath_conn. */
  predicate BossInv(s: State) {
    && (s.boss.Starting? ==> s.accepted == [])
    && (s.boss.Holding? ==> s.accepted != [] && s.boss.fd == s.accepted[|s.accepted| - 1])
    && (s.boss.Pushed? ==> s.roundRobin + 1 == |s.accepted| && s.boss.worker == s.roundRobin % WORKERS)
    && (!s.boss.Pushed? ==> s.roundRobin == |Dispatched(s)|)
    && (!s.boss.Starting? ==> s.initCount == WORKERS)
  }

  /** A worker's connections, served and queued, are exactly its share; none is queued without somebody about to come for it. */
  predicate WorkerInv(s: State, w: nat)
    requires w < |s.workers|
  {
    var me := s.workers[w];
    && me.adopted + me.queue == Share(Dispatched(s), w)
    && (me.queue != [] ==> me.signalled || me.draining || s.boss == Pushed(w))
    && (me.draining ==> me.started)
    && (!s.boss.Starting? ==> me.started)
  }

  predicate Inv(s: State) {
    && |s.workers| == WORKERS
    && s.initCount == Started(s.workers)
    && BossInv(s)
    && forall w :: 0 <= w < WORKERS ==> WorkerInv(s, w)
  }

  lemma {:induction false} StartedBound(workers: seq<Worker>)
    ensures Started(workers) <= |workers|
    ensures Started(workers) == |workers| ==> forall w :: 0 <= w < |workers| ==> workers[w].started
  {
    if workers != [] { StartedBound(workers[..|workers| - 1]); }
  }

  lemma {:induction false} StartedAfter(workers: seq<Worker>, w: nat, me: Worker)
    requires w < |workers|
    ensures Started(workers[w := me]) ==
            Started(workers) + (if me.started then 1 else 0) - (if workers[w].started then 1 else 0)
  {
    var last := |workers| - 1;
    if w == last {
      assert workers[w := me][..last] == workers[..last];
    } else {
      assert workers[w := me][..last] == workers[..last][w := me];
      StartedAfter(workers[..last], w, me);
    }
  }

  lemma InitialInv()
    ensures Inv(Initial())
  {
    NoneStarted(Initial().workers);
  }

  lemma {:induction false} NoneStarted(workers: seq<Worker>)
    requires forall me :: me in workers ==> !me.started
    ensures Started(workers) == 0
  {
    if workers != [] { NoneStarted(workers[..|workers| - 1]); }
  }

  /** The worker that a step changes; the accepting thread's own steps change none. */
  function Target(s: State, a: Action): nat
    requires Enabled(s, a)
  {
    match a
    case Start(w) => w
    case Push => s.roundRobin % s.initCount
    case Send => s.boss.worker
    case Wake(w) => w
    case Pop(w) => w
    case Stop(w) => w
    case _ => 0
  }

  lemma CountKept(s: State, a: Action)
    requires Inv(s) && Enabled(s, a)
    ensures Apply(s, a).initCount == Started(Apply(s, a).workers) <= WORKERS
  {
    var t, w := Apply(s, a), Target(s, a);
    assert t.workers == s.workers[w := t.workers[w]];
    StartedAfter(s.workers, w, t.workers[w]);
    StartedBound(t.workers);
  }

  /** What is dispatched only grows by a push, and by the connection that was held. */
  lemma DispatchedAfter(s: State, a: Action)
    requires Inv(s) && Enabled(s, a)
    ensures BossInv(Apply(s, a))
    ensures !a.Push? ==> Dispatched(Apply(s, a)) == Dispatched(s)
    ensures a.Push? ==> Dispatched(Apply(s, a)) == Dispatched(s) + [s.boss.fd] && |Dispatched(s)| == s.roundRobin
  {
    hide Share;
    var t := Apply(s, a);
    CountKept(s, a);
    if a.Accept? { assert t.accepted[..|t.accepted| - 1] == s.accepted; }
    if a.Push? { assert s.accepted == Dispatched(s) + [s.boss.fd]; }
  }

  lemma ShareGrows(accepted: seq<int>, fd: int, w: nat)
    ensures Share(accepted + [fd], w) == Share(accepted, w) + if |accepted| % WORKERS == w then [fd] else []
  {
    assert (accepted + [fd])[..|accepted|] == accepted;
  }

  lemma WorkerKept(s: State, a: Action, w: nat)
    requires Inv(s) && Enabled(s, a) && w < WORKERS
    ensures WorkerInv(Apply(s, a), w)
  {
    hide Share, Started;
    var t := Apply(s, a);
    var me, after := s.workers[w], t.workers[w];
    assert WorkerInv(s, w);
    DispatchedAfter(s, a);
    if a.Push? {
      ShareGrows(Dispatched(s), s.boss.fd, w);
      if w == s.roundRobin % WORKERS {
        assert after.adopted + after.queue == me.adopted + me.queue + [s.boss.fd];
      }
    } else if a == Pop(w) {
      assert after.adopted + after.queue == me.adopted + me.queue;
    } else if a.Ready? {
      StartedBound(s.workers);
    }
  }

  /** Every step of every thread keeps the invariant. */
  lemma StepKeeps(s: State, a: Action)
    requires Inv(s) && Enabled(s, a)
    ensures Inv(Apply(s, a))
  {
    hide WorkerInv, BossInv, Started, Apply;
    CountKept(s, a);
    DispatchedAfter(s, a);
    forall w | 0 <= w < WORKERS ensures WorkerInv(Apply(s, a), w) {
      WorkerKept(s, a, w);
    }
  }

  lemma {:induction false} RunKeeps(s: State, actions: seq<Action>)
    requires Inv(s) && Runs(s, actions)
    ensures Inv(Outcome(s, actions))
    decreases |actions|
  {
    hide Inv, Enabled, Apply;
    if actions != [] {
      StepKeeps(s, actions[0]);
      RunKeeps(Apply(s, actions[0]), actions[1..]);
    }
  }

  // ---------------------------------------------------------------- what holds in every reachable state

  /** All the connections that workers 0 to n - 1 have adopted or will find in their queues. */
  function Placed(s: State, n: nat): multiset<int>
    requires n <= |s.workers|
  {
    if n == 0 then multiset{} else Placed(s, n - 1) + multiset(s.workers[n - 1].adopted) + multiset(s.workers[n - 1].queue)
  }

  function Shares(accepted: seq<int>, n: nat): multiset<int> {
    if n == 0 then multiset{} else Shares(accepted, n - 1) + multiset(Share(accepted, n - 1))
  }

  lemma ShareBagGrows(accepted: seq<int>, fd: int, w: nat)
    ensures multiset(Share(accepted + [fd], w)) ==
            multiset(Share(accepted, w)) + if |accepted| % WORKERS == w then multiset{fd} else multiset{}
  {
    ShareGrows(accepted, fd, w);
  }

  lemma {:induction false} SharesGrow(accepted: seq<int>, fd: int, n: nat)
    ensures Shares(accepted + [fd], n) == Shares(accepted, n) + if |accepted| % WORKERS < n then multiset{fd} else multiset{}
  {
    hide Share, Shares;
    SharesStep(accepted, n);
    SharesStep(accepted + [fd], n);
    if n > 0 {
      SharesGrow(accepted, fd, n - 1);
      ShareBagGrows(accepted, fd, n - 1);
      hide *;
      BagPair(Shares(accepted, n - 1), multiset(Share(accepted, n - 1)), multiset{fd});
    }
  }

  lemma SharesStep(accepted: seq<int>, n: nat)
    ensures Shares(accepted, n) == if n == 0 then multiset{} else Shares(accepted, n - 1) + multiset(Share(accepted, n - 1))
  {
    hide Share;
  }

  lemma BagPair(a: multiset<int>, b: multiset<int>, x: multiset<int>)
    ensures (a + x) + (b + multiset{}) == (a + b) + x == (a + multiset{}) + (b + x)
    ensures (a + multiset{}) + (b + multiset{}) == (a + b) + multiset{}
  {
  }

  lemma {:induction false} NoShares(n: nat)
    ensures Shares([], n) == multiset{}
  {
    if n > 0 { NoShares(n - 1); }
  }

  /** The shares of the workers are all of what was accepted. */
  lemma LastBag(s: seq<int>)
    requires s != []
    ensures var last := |s| - 1; s == s[..last] + [s[last]] && multiset(s) == multiset(s[..last]) + multiset{s[last]}
  {
    var last := |s| - 1;
    assert s == s[..last] + [s[last]];
  }

  lemma {:induction false} SharesTotal(accepted: seq<int>)
    ensures Shares(accepted, WORKERS) == multiset(accepted)
  {
    hide Shares, Share;
    if accepted == [] {
      NoShares(WORKERS);
    } else {
      var last := |accepted| - 1;
      SharesTotal(accepted[..last]);
      SharesGrow(accepted[..last], accepted[last], WORKERS);
      LastBag(accepted);
    }
  }

  lemma Bags(a: seq<int>, b: seq<int>)
    ensures multiset(a + b) == multiset(a) + multiset(b)
  {
  }

  lemma {:induction false} PlacedIsShares(s: State, n: nat)
    requires Inv(s) && n <= WORKERS
    ensures Placed(s, n) == Shares(Dispatched(s), n)
  {
    if n > 0 {
      PlacedIsShares(s, n - 1);
      assert WorkerInv(s, n - 1);
      var me := s.workers[n - 1];
      hide Inv, WorkerInv, Share, Dispatched;
      Bags(me.adopted, me.queue);
    }
  }

  /** In the accepting thread's hand, in a queue or with a worker: each accepted connection is in one place, once. */
  lemma ExactlyOnce(s: State)
    requires Inv(s)
    ensures multiset(s.accepted) == Placed(s, WORKERS) + if s.boss.Holding? then multiset{s.boss.fd} else multiset{}
  {
    hide Share, Shares, Placed, WorkerInv;
    PlacedIsShares(s, WORKERS);
    SharesTotal(Dispatched(s));
    if s.boss.Holding? { assert s.accepted == Dispatched(s) + [s.boss.fd]; }
  }

  lemma {:induction false} ShareSize(accepted: seq<int>, w: nat)
    requires w < WORKERS
    ensures |Share(accepted, w)| == (|accepted| + WORKERS - 1 - w) / WORKERS
  {
    hide Share;
    if accepted == [] {
      ShareOfNone(w);
      Quotient(WORKERS - 1 - w, 0, WORKERS - 1 - w, WORKERS);
    } else {
      var last := |accepted| - 1;
      ShareSize(accepted[..last], w);
      ShareGrows(accepted[..last], accepted[last], w);
      assert accepted == accepted[..last] + [accepted[last]];
      OneMoreShared(last, w);
    }
  }

  lemma ShareOfNone(w: nat)
    ensures Share([], w) == []
  {
  }

  /** The m-th connection, counted from 0, goes to one worker. */
  lemma OneMoreShared(m: nat, w: nat)
    requires w < WORKERS
    ensures (m + 1 + WORKERS - 1 - w) / WORKERS == (m + WORKERS - 1 - w) / WORKERS + if m % WORKERS == w then 1 else 0
  {
    var q, r := m / WORKERS, m % WORKERS;
    var before, after := r + WORKERS - 1 - w, r + WORKERS - w;
    assert m == q * WORKERS + r;
    if r < w {
      Quotient(m + WORKERS - 1 - w, q, before, WORKERS);
      Quotient(m + WORKERS - w, q, after, WORKERS);
    } else if r == w {
      Quotient(m + WORKERS - 1 - w, q, before, WORKERS);
      Quotient(m + WORKERS - w, q + 1, after - WORKERS, WORKERS);
    } else {
      Quotient(m + WORKERS - 1 - w, q + 1, before - WORKERS, WORKERS);
      Quotient(m + WORKERS - w, q + 1, after - WORKERS, WORKERS);
    }
  }

  /** A share by place: of every five connections in a row, one. */
  lemma {:induction false} ShareAt(accepted: seq<int>, w: nat, k: nat)
    requires w < WORKERS && k < |Share(accepted, w)|
    ensures WORKERS * k + w < |accepted| && Share(accepted, w)[k] == accepted[WORKERS * k + w]
  {
    hide Share;
    if accepted == [] {
      ShareOfNone(w);
    } else {
      var last := |accepted| - 1;
      var before := Share(accepted[..last], w);
      ShareGrows(accepted[..last], accepted[last], w);
      assert accepted == accepted[..last] + [accepted[last]];
      if k < |before| {
        ShareAt(accepted[..last], w, k);
      } else {
        ShareSize(accepted[..last], w);
        TurnOf(last, w);
      }
    }
  }

  /** How often a worker's turn has come before the m-th connection, which is its own. */
  lemma TurnOf(m: nat, w: nat)
    requires w < WORKERS && m % WORKERS == w
    ensures WORKERS * ((m + WORKERS - 1 - w) / WORKERS) + w == m
  {
    Quotient(m + WORKERS - 1 - w, m / WORKERS, WORKERS - 1, WORKERS);
  }

  /** No two workers' counts of connections differ by more than one. */
  lemma Balanced(s: State, v: nat, w: nat)
    requires Inv(s) && v < WORKERS && w < WORKERS
    ensures var a, b := s.workers[v], s.workers[w];
            |a.adopted| + |a.queue| <= |b.adopted| + |b.queue| + 1
  {
    assert WorkerInv(s, v) && WorkerInv(s, w);
    ShareSize(Dispatched(s), v);
    ShareSize(Dispatched(s), w);
  }

  /** Each worker adopts in the order of acceptance: of the five workers, w gets connections w, w + 5, w + 10 and so on. */
  lemma InOrder(s: State, w: nat)
    requires Inv(s) && w < WORKERS
    ensures |s.workers| == 5 && s.workers[w].adopted <= Share(s.accepted, w)
    ensures forall k :: 0 <= k < |s.workers[w].adopted| ==>
              5 * k + w < |s.accepted| && s.workers[w].adopted[k] == s.accepted[5 * k + w]
  {
    hide Share;
    assert WorkerInv(s, w);
    forall k | 0 <= k < |Share(s.accepted, w)|
      ensures 5 * k + w < |s.accepted| && Share(s.accepted, w)[k] == s.accepted[5 * k + w]
    {
      ShareAt(s.accepted, w, k);
    }
    if s.boss.Holding? {
      assert s.accepted == Dispatched(s) + [s.boss.fd];
      ShareGrows(Dispatched(s), s.boss.fd, w);
    }
  }

  // ---------------------------------------------------------------- no connection is left behind

  predicate OfWorker(a: Action) {
    a.Wake? || a.Pop? || a.Stop?
  }

  /** When the accepting thread is between connections and no worker can move, every connection has been adopted. */
  lemma Quiet(s: State, w: nat)
    requires Inv(s) && s.boss.Idle? && w < WORKERS
    requires forall a :: Enabled(s, a) ==> !OfWorker(a)
    ensures s.workers[w].queue == [] && s.workers[w].adopted == Share(s.accepted, w)
    ensures |s.workers[w].adopted| == (|s.accepted| + 4 - w) / 5
  {
    ShareSize(s.accepted, w);
    assert WorkerInv(s, w);
    assert !Enabled(s, Wake(w)) && !Enabled(s, Pop(w)) && !Enabled(s, Stop(w));
  }

  /** How many more steps the workers can take on their own. */
  function Work(workers: seq<Worker>): nat {
    if workers == [] then 0 else Work(workers[..|workers| - 1]) + WorkOf(workers[|workers| - 1])
  }

  function WorkOf(me: Worker): nat {
    |me.queue| + (if me.signalled then 2 else 0) + if me.draining then 1 else 0
  }

  lemma {:induction false} WorkAfter(workers: seq<Worker>, w: nat, me: Worker)
    requires w < |workers|
    ensures Work(workers[w := me]) == Work(workers) + WorkOf(me) - WorkOf(workers[w])
  {
    var last := |workers| - 1;
    if w == last {
      assert workers[w := me][..last] == workers[..last];
    } else {
      assert workers[w := me][..last] == workers[..last][w := me];
      WorkAfter(workers[..last], w, me);
    }
  }

  lemma WorkShrinks(s: State, a: Action)
    requires Enabled(s, a) && OfWorker(a)
    ensures Work(Apply(s, a).workers) < Work(s.workers)
  {
    hide Work;
    var t, w := Apply(s, a), Target(s, a);
    assert t.workers == s.workers[w := t.workers[w]];
    WorkAfter(s.workers, w, t.workers[w]);
  }

  /** Left to themselves the workers come to rest: no run of theirs is longer than the work there is. */
  lemma {:induction false} WorkersRest(s: State, actions: seq<Action>)
    requires Runs(s, actions) && forall a :: a in actions ==> OfWorker(a)
    ensures |actions| + Work(Outcome(s, actions).workers) <= Work(s.workers)
    decreases |actions|
  {
    hide Work, Apply, Enabled;
    if actions != [] {
      WorkShrinks(s, actions[0]);
      WorkersRest(Apply(s, actions[0]), actions[1..]);
    }
  }
}
