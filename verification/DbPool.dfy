/**
 The connection pool of server/src/db/mod.rs: a semaphore of max_conns permits in front of an
 r2d2 pool of max_conns connections. A task first takes a permit, then a connection; dropping the
 connection hands both to a background thread that returns the connection before the permit.
 Every event below is one atomic action of one task; runs interleave them freely.
 */
module DbPool {

  type Task = nat

  /** `abandoned` and `strays`: checkouts whose caller was cancelled, before and after they got a connection. */
  datatype Pool = Pool(
    max: nat, permits: nat, connections: int,
    waiting: set<Task>, holding: set<Task>, dropping: set<Task>, draining: set<Task>,
    abandoned: set<Task>, strays: set<Task>)
  {
    /** Tasks that own a permit. */
    function Owners(): (r: set<Task>) {
      waiting + holding + dropping + draining
    }
  }

  datatype Event =
    | Acquire(task: Task)          // the semaphore gives a permit
    | Checkout(task: Task)         // the pool gives a connection: DbPool::get returns
    | CheckoutFails(task: Task)    // the pool times out: the error path drops the permit
    | Drop(task: Task)             // DbConn is dropped; a background thread takes over
    | ReturnConnection(task: Task) // that thread drops the connection ...
    | ReleasePermit(task: Task)    // ... and then the permit
    | Cancel(task: Task)           // the caller of get goes away while the pool is being asked
    | StrayCheckout(task: Task)    // the pool answers nobody
    | StrayReturn(task: Task)
    | StrayFails(task: Task)       // the pool times out for nobody

  function Empty(max: nat): (r: Pool) {
    Pool(max, max, 0, {}, {}, {}, {}, {}, {})
  }

  /** A free permit, a free connection, and the stage its caller must be at. */
  predicate Enabled(p: Pool, e: Event) {
    match e
    case Acquire(t) => p.permits > 0 && t !in p.Owners() + p.abandoned + p.strays
    case Checkout(t) => t in p.waiting && p.connections < p.max
    case CheckoutFails(t) => t in p.waiting
    case Drop(t) => t in p.holding
    case ReturnConnection(t) => t in p.dropping
    case ReleasePermit(t) => t in p.draining
    case Cancel(t) => t in p.waiting
    case StrayCheckout(t) => t in p.abandoned && p.connections < p.max
    case StrayReturn(t) => t in p.strays
    case StrayFails(t) => t in p.abandoned
  }

  function Step(p: Pool, e: Event): (r: Pool) {
    if !Enabled(p, e) then p
    else
      match e
      case Acquire(t) => p.(permits := p.permits - 1, waiting := p.waiting + {t})
      case Checkout(t) => p.(connections := p.connections + 1, waiting := p.waiting - {t}, holding := p.holding + {t})
      case CheckoutFails(t) => p.(permits := p.permits + 1, waiting := p.waiting - {t})
      case Drop(t) => p.(holding := p.holding - {t}, dropping := p.dropping + {t})
      case ReturnConnection(t) =>
        p.(connections := p.connections - 1, dropping := p.dropping - {t}, draining := p.draining + {t})
      case ReleasePermit(t) => p.(permits := p.permits + 1, draining := p.draining - {t})
      case Cancel(t) => p.(permits := p.permits + 1, waiting := p.waiting - {t}, abandoned := p.abandoned + {t})
      case StrayCheckout(t) =>
        p.(connections := p.connections + 1, abandoned := p.abandoned - {t}, strays := p.strays + {t})
      case StrayReturn(t) => p.(connections := p.connections - 1, strays := p.strays - {t})
      case StrayFails(t) => p.(abandoned := p.abandoned - {t})
  }

  function Run(p: Pool, events: seq<Event>): (r: Pool) {
    if events == [] then p else Step(Run(p, events[..|events| - 1]), events[|events| - 1])
  }

  /** A task is at one stage at a time. */
  predicate Stages(p: Pool) {
    && p.waiting !! p.holding && p.waiting !! p.dropping && p.waiting !! p.draining
    && p.waiting !! p.abandoned && p.waiting !! p.strays
    && p.holding !! p.dropping && p.holding !! p.draining && p.holding !! p.abandoned && p.holding !! p.strays
    && p.dropping !! p.draining && p.dropping !! p.abandoned && p.dropping !! p.strays
    && p.draining !! p.abandoned && p.draining !! p.strays
    && p.abandoned !! p.strays
  }

  /** Permits are conserved, and every connection out of the pool is accounted for. */
  predicate Inv(p: Pool) {
    && Stages(p)
    && p.permits + |p.waiting| + |p.holding| + |p.dropping| + |p.draining| == p.max
    && p.connections == |p.holding| + |p.dropping| + |p.strays|
    && p.connections <= p.max
  }

  lemma StepKeepsStages(p: Pool, e: Event)
    requires Stages(p)
    ensures Stages(Step(p, e))
  {
  }

  lemma StepKeepsInv(p: Pool, e: Event)
    requires Inv(p)
    ensures Inv(Step(p, e)) && Step(p, e).max == p.max
  {
    StepKeepsStages(p, e);
    if Enabled(p, e) {
      match e
      case Acquire(t) => MoveTask({t}, p.waiting, t);
      case Checkout(t) => MoveTask(p.waiting, p.holding, t);
      case CheckoutFails(t) => MoveTask(p.waiting, {}, t);
      case Drop(t) => MoveTask(p.holding, p.dropping, t);
      case ReturnConnection(t) => MoveTask(p.dropping, p.draining, t);
      case ReleasePermit(t) => MoveTask(p.draining, {}, t);
      case Cancel(t) => MoveTask(p.waiting, p.abandoned, t);
      case StrayCheckout(t) => MoveTask(p.abandoned, p.strays, t);
      case StrayReturn(t) => MoveTask(p.strays, {}, t);
      case StrayFails(t) => MoveTask(p.abandoned, {}, t);
    }
  }

  lemma MoveTask(a: set<Task>, b: set<Task>, t: Task)
    ensures t in a ==> |a - {t}| == |a| - 1
    ensures t !in b ==> |b + {t}| == |b| + 1
  {
  }

  lemma {:induction false} RunKeepsInv(max: nat, events: seq<Event>)
    ensures Inv(Run(Empty(max), events)) && Run(Empty(max), events).max == max
  {
    if events != [] {
      RunKeepsInv(max, events[..|events| - 1]);
      StepKeepsInv(Run(Empty(max), events[..|events| - 1]), events[|events| - 1]);
    }
  }

  lemma OwnersCounted(p: Pool)
    requires Inv(p)
    ensures p.permits + |p.Owners()| == p.max
  {
  }

  // ----- nothing leaks -----

  /** One caller's way through the pool: when it has the permit, when the connection, and that both come back in the end. */
  lemma OneCall(p: Pool, t: Task)
    requires p.permits > 0 && p.connections < p.max && t !in p.Owners() + p.abandoned + p.strays
    ensures var p1 := Step(p, Acquire(t));
            var p2 := Step(p1, Checkout(t));
            var p3 := Step(p2, Drop(t));
            var p4 := Step(p3, ReturnConnection(t));
            && t in p1.waiting && p1.permits == p.permits - 1 && p1.connections == p.connections
            && t in p2.holding && p2.permits == p.permits - 1 && p2.connections == p.connections + 1
            && t in p3.dropping && p3.permits == p.permits - 1 && p3.connections == p.connections + 1
            && t in p4.draining && p4.permits == p.permits - 1 && p4.connections == p.connections
            && Step(p4, ReleasePermit(t)) == p && Step(p1, CheckoutFails(t)) == p
  {
    AddRemove(p.waiting, t);
    AddRemove(p.holding, t);
    AddRemove(p.dropping, t);
    AddRemove(p.draining, t);
    var p1 := p.(permits := p.permits - 1, waiting := p.waiting + {t});
    assert Step(p, Acquire(t)) == p1;
    var p2 := p.(permits := p.permits - 1, connections := p.connections + 1, holding := p.holding + {t});
    assert Step(p1, Checkout(t)) == p2;
    var p3 := p.(permits := p.permits - 1, connections := p.connections + 1, dropping := p.dropping + {t});
    assert Step(p2, Drop(t)) == p3;
    var p4 := p.(permits := p.permits - 1, draining := p.draining + {t});
    assert Step(p3, ReturnConnection(t)) == p4;
  }

  lemma AddRemove(a: set<Task>, t: Task)
    requires t !in a
    ensures a + {t} - {t} == a && t in a + {t}
  {
  }

  /** A cancelled call: the permit is free at once, the connection is taken later and comes back too. */
  lemma CancelledCall(p: Pool, t: Task)
    requires p.permits > 0 && p.connections < p.max && t !in p.Owners() + p.abandoned + p.strays
    ensures var p1 := Step(Step(p, Acquire(t)), Cancel(t));
            var p2 := Step(p1, StrayCheckout(t));
            && t in p1.abandoned && p1.permits == p.permits && p1.connections == p.connections
            && t in p2.strays && p2.permits == p.permits && p2.connections == p.connections + 1
            && Step(p2, StrayReturn(t)) == p && Step(p1, StrayFails(t)) == p
  {
    AddRemove(p.waiting, t);
    AddRemove(p.abandoned, t);
    AddRemove(p.strays, t);
    var p1 := p.(abandoned := p.abandoned + {t});
    assert Step(Step(p, Acquire(t)), Cancel(t)) == p1;
    var p2 := p.(connections := p.connections + 1, strays := p.strays + {t});
    assert Step(p1, StrayCheckout(t)) == p2;
  }

  /** What there is left to do before everybody is done. */
  function Work(p: Pool): (n: nat) {
    |p.waiting| + 3 * |p.holding| + 2 * |p.dropping| + |p.draining| + |p.abandoned| + |p.strays|
  }

  /** An event that brings some task closer to its end. */
  lemma NextEvent(p: Pool) returns (e: Event)
    requires Inv(p) && Work(p) > 0
    ensures Inv(Step(p, e)) && Step(p, e).max == p.max && Work(Step(p, e)) < Work(p)
  {
    if t :| t in p.waiting {
      e := CheckoutFails(t);
    } else if t :| t in p.holding {
      e := Drop(t);
    } else if t :| t in p.dropping {
      e := ReturnConnection(t);
    } else if t :| t in p.draining {
      e := ReleasePermit(t);
    } else if t :| t in p.abandoned {
      e := StrayFails(t);
    } else {
      var t :| t in p.strays;
      e := StrayReturn(t);
    }
    StepKeepsInv(p, e);
  }

  lemma RunCons(p: Pool, e: Event, rest: seq<Event>)
    ensures Run(p, [e] + rest) == Run(Step(p, e), rest)
  {
    if rest == [] {
      assert [e] + rest == [e] && [e][..0] == [];
    } else {
      var n := |rest| - 1;
      RunCons(p, e, rest[..n]);
      assert ([e] + rest)[..n + 1] == [e] + rest[..n];
    }
  }

  lemma {:induction false} Drains(p: Pool) returns (events: seq<Event>)
    requires Inv(p)
    ensures Run(p, events) == Empty(p.max)
    decreases Work(p)
  {
    events := [];
    if Work(p) > 0 {
      hide Work;
      var e := NextEvent(p);
      var rest := Drains(Step(p, e));
      RunCons(p, e, rest);
      events := [e] + rest;
    }
  }

  lemma {:induction false} RunConcat(p: Pool, a: seq<Event>, b: seq<Event>)
    ensures Run(p, a + b) == Run(Run(p, a), b)
  {
    if b == [] {
      assert a + b == a;
    } else {
      var n := |b| - 1;
      assert (a + b)[..|a| + n] == a + b[..n];
      RunConcat(p, a, b[..n]);
    }
  }

  /** From every reachable state the callers can finish, and then every permit and every connection is back. */
  lemma EverythingComesBack(max: nat, events: seq<Event>) returns (more: seq<Event>)
    ensures Run(Empty(max), events + more) == Empty(max)
  {
    RunKeepsInv(max, events);
    hide Run, Inv;
    more := Drains(Run(Empty(max), events));
    RunConcat(Empty(max), events, more);
  }

  predicate NoCancel(events: seq<Event>) {
    forall i :: 0 <= i < |events| ==> !events[i].Cancel?
  }

  lemma {:induction false} NoStrays(max: nat, events: seq<Event>)
    requires NoCancel(events)
    ensures Run(Empty(max), events).abandoned == {} && Run(Empty(max), events).strays == {}
  {
    if events != [] {
      NoStrays(max, events[..|events| - 1]);
    }
  }

  /**
   In every interleaving without cancellation, connections out <= permits held <= max_conns, permits
   are conserved, and a task that has a permit but no connection finds one free.
   */
  lemma PermitGuaranteesConnection(max: nat, events: seq<Event>, t: Task)
    requires NoCancel(events)
    ensures var p := Run(Empty(max), events);
            && p.connections <= |p.Owners()| <= max
            && p.permits + |p.Owners()| == max
            && (t in p.waiting ==> p.connections < max && Enabled(p, Checkout(t)))
  {
    var p := Run(Empty(max), events);
    RunKeepsInv(max, events);
    NoStrays(max, events);
    OwnersCounted(p);
    hide Run;
    if t in p.waiting {
      assert |p.waiting| >= 1 by { assert {t} <= p.waiting; MoveTask(p.waiting, {}, t); }
    }
  }

  /**
   With cancellation, a task that has a permit finds a connection exactly while fewer strays hold one
   than there are permits free, waiting or about to be released.
   */
  lemma OnlyStraysExhaust(max: nat, events: seq<Event>, t: Task)
    ensures var p := Run(Empty(max), events);
            && p.connections <= |p.Owners()| + |p.strays|
            && (t in p.waiting ==>
                  (Enabled(p, Checkout(t)) <==> |p.strays| < p.permits + |p.waiting| + |p.draining|))
            && (t in p.waiting && !Enabled(p, Checkout(t)) ==> p.strays != {})
  {
    var p := Run(Empty(max), events);
    RunKeepsInv(max, events);
    OwnersCounted(p);
    hide Run;
    if t in p.waiting {
      assert |p.waiting| >= 1 by { assert {t} <= p.waiting; MoveTask(p.waiting, {}, t); }
    }
  }

  /** A run in which that happens: one permit, a cancelled checkout, and a second caller. */
  lemma CancelledCheckoutStarves()
    ensures var p := Run(Empty(1), [Acquire(0), Cancel(0), StrayCheckout(0), Acquire(1)]);
            1 in p.waiting && !Enabled(p, Checkout(1))
  {
    var s0 := [Acquire(0)];
    var s1 := [Acquire(0), Cancel(0)];
    var s2 := [Acquire(0), Cancel(0), StrayCheckout(0)];
    var s3 := [Acquire(0), Cancel(0), StrayCheckout(0), Acquire(1)];
    assert s0[..0] == [] && s1[..1] == s0 && s2[..2] == s1 && s3[..3] == s2;
    var p0 := Step(Empty(1), Acquire(0));
    assert Run(Empty(1), s0) == p0;
    assert Run(Empty(1), s1) == Step(p0, Cancel(0));
    assert Run(Empty(1), s2) == Step(Step(p0, Cancel(0)), StrayCheckout(0));
  }

  /** The other order: a background thread that releases the permit while it still has the connection. */
  function PermitFirst(p: Pool, t: Task): (r: Pool) {
    p.(permits := p.permits + 1, dropping := p.dropping - {t}, strays := p.strays + {t})
  }

  /** Releasing the permit first would leave the next task with a permit and no free connection. */
  lemma OrderMatters()
    ensures var p := Run(Empty(1), [Acquire(0), Checkout(0), Drop(0)]);
            var q := Step(PermitFirst(p, 0), Acquire(1));
            0 in p.dropping && 1 in q.waiting && !Enabled(q, Checkout(1))
  {
    var s0 := [Acquire(0)];
    var s1 := [Acquire(0), Checkout(0)];
    var s2 := [Acquire(0), Checkout(0), Drop(0)];
    assert s0[..0] == [] && s1[..1] == s0 && s2[..2] == s1;
    var p0 := Step(Empty(1), Acquire(0));
    assert Run(Empty(1), s0) == p0;
    assert Run(Empty(1), s1) == Step(p0, Checkout(0));
  }
}
