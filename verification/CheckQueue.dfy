/**
 * The parallel check queue of src/checkqueue.h: one master and any number of workers, as
 * a state machine whose steps are the critical sections of CCheckQueue::Loop and Add plus
 * the evaluation of one check outside the lock.
 *
 * Thread 0 is the master (CCheckQueueControl lets one master in at a time); the others are
 * workers.  A check is represented by the result its operator() returns.
 */
module CheckQueue {

  datatype Phase =
    | Outside                                          // not in Loop
    | Ready(nNow: nat, fOk: bool)                      // in Loop, about to take the mutex
    | Asleep(notified: bool)                           // in cond.wait
    | Working(vChecks: seq<bool>, nNow: nat, fOk: bool) // batch in hand; vChecks are still to be run

  // What one call of Wait returned, and the checks added since the call before it.
  datatype Verdict = Verdict(result: bool, checks: seq<bool>)

  datatype State = State(
    queue: seq<bool>,
    nIdle: int,
    nTotal: int,
    fAllOk: bool,
    nTodo: int,
    threads: seq<Phase>,
    added: seq<bool>,          // history: checks added since Wait last returned
    verdicts: seq<Verdict>)    // history: what Wait returned so far

  datatype Action =
    | Add(vChecks: seq<bool>, woken: nat) // master; notify_one wakes `woken` if it sleeps
    | Enter(t: nat)                       // call Thread() or Wait()
    | Lock(t: nat)                        // first critical section of an iteration
    | Wake(t: nat)                        // cond.wait returns, notified or not
    | Work(t: nat)                        // run one check, or finish the batch

  const MASTER: nat := 0

  function Init(workers: nat): State {
    State([], 0, 0, true, 0, seq(workers + 1, i => Outside), [], [])
  }

  function AllTrue(s: seq<bool>): bool {
    forall i :: 0 <= i < |s| ==> s[i]
  }

  function Set(s: State, t: nat, p: Phase): State
    requires t < |s.threads|
  {
    s.(threads := s.threads[t := p])
  }

  // Signalling condMaster or condWorker.
  function Notify(p: Phase): Phase {
    if p.Asleep? then Asleep(true) else p
  }

  function NotifyWorkers(threads: seq<Phase>): seq<Phase> {
    seq(|threads|, i requires 0 <= i < |threads| => if i == MASTER then threads[i] else Notify(threads[i]))
  }

  function Min(a: int, b: int): int { if a < b then a else b }
  function Max(a: int, b: int): int { if a < b then b else a }

  lemma MulAtLeast(a: nat, b: nat)
    ensures a * b >= 0
  {
  }

  lemma QuotientAtMost(a: nat, b: nat)
    requires b > 0
    ensures a / b <= a && (a / b) * b <= a < (a / b + 1) * b
  {
    var q := a / b;
    MulAtLeast(b - 1, q);
    assert a == b * q + a % b;
    assert b * q == q + (b - 1) * q;
    assert (q + 1) * b == q * b + b;
  }

  // How many threads, idle ones counted twice, and one more, share the queue.
  function Sharers(s: State): int { s.nTotal + s.nIdle + 1 }

  // How many checks to take: at least one, never more than are queued or than the batch size,
  // and otherwise as many as leave an equal share for everyone.
  function BatchSize(nBatchSize: nat, s: State): (n: int)
    requires s.queue != []
    ensures 1 <= n <= |s.queue|
    ensures n > 1 ==> n <= nBatchSize && n * Sharers(s) <= |s.queue|
    ensures Sharers(s) > 0 && n < nBatchSize ==> (n + 1) * Sharers(s) > |s.queue|
  {
    var share := Sharers(s);
    if share <= 0 then 1
    else
      QuotientAtMost(|s.queue|, share);
      Max(1, Min(nBatchSize, |s.queue| / share))
  }

  function Reversed(s: seq<bool>): seq<bool> {
    seq(|s|, i requires 0 <= i < |s| => s[|s| - 1 - i])
  }

  // The top of the `while (queue.empty())` loop, with the mutex held: return, sleep or take
  // a batch from the back of the queue.
  function LoopHead(nBatchSize: nat, s: State, t: nat): State
    requires t < |s.threads|
  {
    if s.queue == [] then
      if t == MASTER && s.nTodo == 0 then
        Set(s, t, Outside).(nTotal := s.nTotal - 1, fAllOk := true, added := [],
                            verdicts := s.verdicts + [Verdict(s.fAllOk, s.added)])
      else
        Set(s, t, Asleep(false)).(nIdle := s.nIdle + 1)
    else
      var n := BatchSize(nBatchSize, s);
      Set(s, t, Working(Reversed(s.queue[|s.queue| - n..]), n, s.fAllOk)).(queue := s.queue[..|s.queue| - n])
  }

  // The clean-up of the previous iteration.
  function CleanUp(s: State, t: nat): State
    requires t < |s.threads| && s.threads[t].Ready? && |s.threads| > 0
  {
    var p := s.threads[t];
    if p.nNow == 0 then s.(nTotal := s.nTotal + 1)
    else
      var u := s.(fAllOk := s.fAllOk && p.fOk, nTodo := s.nTodo - p.nNow);
      if u.nTodo == 0 && t != MASTER then Set(u, MASTER, Notify(u.threads[MASTER])) else u
  }

  predicate Enabled(s: State, a: Action) {
    |s.threads| > 0 &&
    match a
    case Add(vChecks, woken) =>
      && s.threads[MASTER].Outside?
      && (|vChecks| == 1 && (exists w :: 0 < w < |s.threads| && s.threads[w] == Asleep(false)) ==>
            0 < woken < |s.threads| && s.threads[woken] == Asleep(false))
    case Enter(t) => t < |s.threads| && s.threads[t].Outside?
    case Lock(t) => t < |s.threads| && s.threads[t].Ready?
    case Wake(t) => t < |s.threads| && s.threads[t].Asleep?
    case Work(t) => t < |s.threads| && s.threads[t].Working?
  }

  function Do(nBatchSize: nat, s: State, a: Action): State
    requires Enabled(s, a)
  {
    match a
    case Add(vChecks, woken) =>
      var u := s.(queue := s.queue + vChecks, nTodo := s.nTodo + |vChecks|, added := s.added + vChecks);
      if |vChecks| == 1 && 0 < woken < |s.threads| then Set(u, woken, Notify(s.threads[woken]))
      else if |vChecks| > 1 then u.(threads := NotifyWorkers(s.threads))
      else u
    case Enter(t) => Set(s, t, Ready(0, true))
    case Lock(t) => LoopHead(nBatchSize, CleanUp(s, t), t)
    case Wake(t) => LoopHead(nBatchSize, s.(nIdle := s.nIdle - 1), t)
    case Work(t) =>
      var p := s.threads[t];
      if p.vChecks == [] then Set(s, t, Ready(p.nNow, p.fOk))
      else Set(s, t, Working(p.vChecks[1..], p.nNow, p.fOk && p.vChecks[0]))
  }

  // ---------- the invariant ----------

  function Idle(p: Phase): int { if p.Asleep? then 1 else 0 }
  function Counted(p: Phase): int { if p.Outside? || (p.Ready? && p.nNow == 0) then 0 else 1 }
  function InHand(p: Phase): int { if p.Ready? || p.Working? then p.nNow else 0 }

  // The checks a thread holds have not failed yet and will not.
  predicate Fine(p: Phase) {
    match p
    case Ready(nNow, fOk) => nNow > 0 ==> fOk
    case Working(vChecks, _, fOk) => fOk && AllTrue(vChecks)
    case _ => true
  }

  predicate Alert(p: Phase) { !p.Outside? && p != Asleep(false) }

  function SumOf(ps: seq<Phase>, f: Phase -> int): int {
    if ps == [] then 0 else f(ps[0]) + SumOf(ps[1..], f)
  }

  lemma {:induction false} SumOfUpdate(ps: seq<Phase>, f: Phase -> int, t: nat, p: Phase)
    requires t < |ps|
    ensures SumOf(ps[t := p], f) == SumOf(ps, f) - f(ps[t]) + f(p)
  {
    if t > 0 {
      SumOfUpdate(ps[1..], f, t - 1, p);
      assert ps[t := p][1..] == ps[1..][t - 1 := p];
    } else {
      assert ps[t := p][1..] == ps[1..];
    }
  }

  lemma {:induction false} SumOfSame(ps: seq<Phase>, qs: seq<Phase>, f: Phase -> int)
    requires |ps| == |qs| && forall i :: 0 <= i < |ps| ==> f(ps[i]) == f(qs[i])
    ensures SumOf(ps, f) == SumOf(qs, f)
  {
    if ps != [] { SumOfSame(ps[1..], qs[1..], f); }
  }

  lemma {:induction false} SumOfNonNegative(ps: seq<Phase>, f: Phase -> int)
    requires forall i :: 0 <= i < |ps| ==> f(ps[i]) >= 0
    ensures SumOf(ps, f) >= 0
    ensures forall i :: 0 <= i < |ps| ==> f(ps[i]) <= SumOf(ps, f)
  {
    if ps != [] {
      SumOfNonNegative(ps[1..], f);
      assert forall i :: 1 <= i < |ps| ==> ps[i] == ps[1..][i - 1];
    }
  }

  // nIdle, nTotal and nTodo count what they claim to count.
  ghost predicate Counts(s: State) {
    && s.nIdle == SumOf(s.threads, Idle)
    && s.nTotal == SumOf(s.threads, Counted)
    && s.nTodo == |s.queue| + SumOf(s.threads, InHand)
  }

  // Nothing false has been added iff nothing false was found or is still pending.
  predicate Truth(s: State) {
    AllTrue(s.added) <==>
      s.fAllOk && AllTrue(s.queue) && forall t :: 0 <= t < |s.threads| ==> Fine(s.threads[t])
  }

  // A sleeping master has nothing to take, and is notified once nothing is left to do.
  predicate MasterOk(s: State) {
    |s.threads| > 0 && (s.threads[MASTER].Asleep? ==> s.queue == [] && (s.threads[MASTER].notified || s.nTodo > 0))
  }

  // Checks never wait in the queue while every worker that has started sleeps un-notified.
  predicate WorkersOk(s: State) {
    s.queue != [] ==>
      || (exists t :: 0 < t < |s.threads| && Alert(s.threads[t]))
      || (forall t :: 0 < t < |s.threads| ==> s.threads[t].Outside?)
  }

  predicate VerdictsOk(vs: seq<Verdict>) {
    forall i :: 0 <= i < |vs| ==> (vs[i].result <==> AllTrue(vs[i].checks))
  }

  ghost predicate Core(s: State) {
    Counts(s) && Truth(s) && MasterOk(s) && WorkersOk(s) && VerdictsOk(s.verdicts)
  }

  predicate PhaseOk(p: Phase) {
    p.Working? ==> p.nNow > 0 && |p.vChecks| <= p.nNow
  }

  ghost predicate Inv(s: State) {
    Core(s) && forall t :: 0 <= t < |s.threads| ==> PhaseOk(s.threads[t])
  }

  // The thread holding the mutex counts as one with an empty batch.
  const BUSY: Phase := Working([], 0, true)

  ghost predicate Held(s: State, t: nat) {
    && t < |s.threads|
    && Core(Set(s, t, BUSY))
    && forall u :: 0 <= u < |s.threads| && u != t ==> PhaseOk(s.threads[u])
  }

  lemma AllTrueConcat(a: seq<bool>, b: seq<bool>)
    ensures AllTrue(a + b) <==> AllTrue(a) && AllTrue(b)
  {
    assert forall i :: 0 <= i < |a| ==> (a + b)[i] == a[i];
    assert forall i :: 0 <= i < |b| ==> (a + b)[|a| + i] == b[i];
  }

  lemma AllTrueReversed(a: seq<bool>)
    ensures AllTrue(Reversed(a)) <==> AllTrue(a)
  {
    assert forall i :: 0 <= i < |a| ==> a[i] == Reversed(a)[|a| - 1 - i];
  }

  lemma SetSums(s: State, t: nat, p: Phase)
    requires t < |s.threads|
    ensures SumOf(Set(s, t, p).threads, Idle) == SumOf(s.threads, Idle) - Idle(s.threads[t]) + Idle(p)
    ensures SumOf(Set(s, t, p).threads, Counted) == SumOf(s.threads, Counted) - Counted(s.threads[t]) + Counted(p)
    ensures SumOf(Set(s, t, p).threads, InHand) == SumOf(s.threads, InHand) - InHand(s.threads[t]) + InHand(p)
  {
    SumOfUpdate(s.threads, Idle, t, p);
    SumOfUpdate(s.threads, Counted, t, p);
    SumOfUpdate(s.threads, InHand, t, p);
  }

  lemma CountsAreNatural(s: State)
    requires Counts(s)
    ensures s.nIdle >= 0 && s.nTotal >= 0 && s.nTodo >= |s.queue|
    ensures forall t :: 0 <= t < |s.threads| ==> InHand(s.threads[t]) <= s.nTodo - |s.queue|
    ensures forall t :: 0 <= t < |s.threads| && s.threads[t].Asleep? ==> s.nIdle >= 1
  {
    SumOfNonNegative(s.threads, Idle);
    SumOfNonNegative(s.threads, Counted);
    SumOfNonNegative(s.threads, InHand);
  }

  // The thread holding the mutex lets go in a new phase: what is left to show about each
  // part of the invariant.
  lemma ReleaseCounts(s: State, t: nat, p: Phase, r: State)
    requires t < |s.threads| && Counts(Set(s, t, BUSY)) && r.threads == s.threads[t := p]
    requires r.nIdle == s.nIdle + Idle(p) && r.nTotal == s.nTotal + Counted(p) - 1
    requires r.nTodo - |r.queue| == s.nTodo - |s.queue| + InHand(p)
    ensures Counts(r)
  {
    var h := Set(s, t, BUSY);
    SetSums(h, t, p);
    assert h.threads[t := p] == r.threads;
  }

  lemma ReleaseTruth(s: State, t: nat, p: Phase, r: State)
    requires t < |s.threads| && Truth(Set(s, t, BUSY)) && r.threads == s.threads[t := p]
    requires r.added == s.added && r.fAllOk == s.fAllOk
    requires s.fAllOk ==> (AllTrue(s.queue) <==> AllTrue(r.queue) && Fine(p))
    ensures Truth(r)
  {
    var h := Set(s, t, BUSY);
    assert (forall u :: 0 <= u < |r.threads| ==> Fine(r.threads[u])) <==>
           Fine(p) && forall u :: 0 <= u < |h.threads| ==> Fine(h.threads[u]) by {
      assert forall u :: 0 <= u < |r.threads| && u != t ==> r.threads[u] == h.threads[u];
      assert Fine(h.threads[t]) && r.threads[t] == p;
    }
  }

  lemma ReleaseWorkers(s: State, t: nat, p: Phase, r: State)
    requires t < |s.threads| && WorkersOk(Set(s, t, BUSY)) && r.threads == s.threads[t := p]
    requires r.queue != [] ==> s.queue != [] && Alert(p)
    ensures WorkersOk(r)
  {
    if r.queue != [] {
      var h := Set(s, t, BUSY);
      if exists u :: 0 < u < |h.threads| && Alert(h.threads[u]) {
        var u :| 0 < u < |h.threads| && Alert(h.threads[u]);
        assert Alert(r.threads[u]);
      } else {
        assert forall u :: 0 < u < |h.threads| ==> h.threads[u].Outside?;
        assert forall u :: 0 < u < |r.threads| && u != t ==> r.threads[u] == h.threads[u];
      }
    }
  }

  lemma SleepMaster(s: State, t: nat)
    requires t < |s.threads| && Counts(Set(s, t, BUSY)) && MasterOk(Set(s, t, BUSY))
    requires s.queue == [] && !(t == MASTER && s.nTodo == 0)
    ensures MasterOk(Set(s, t, Asleep(false)))
  {
    CountsAreNatural(Set(s, t, BUSY));
  }

  // The batch is run from fAllOk on, so taking it loses no verdict.
  lemma TakeFine(s: State, n: nat)
    requires n <= |s.queue|
    ensures var k := |s.queue| - n;
            s.fAllOk ==>
              (AllTrue(s.queue) <==> AllTrue(s.queue[..k]) && Fine(Working(Reversed(s.queue[k..]), n, s.fAllOk)))
  {
    var k := |s.queue| - n;
    assert s.queue[..k] + s.queue[k..] == s.queue;
    AllTrueConcat(s.queue[..k], s.queue[k..]);
    AllTrueReversed(s.queue[k..]);
  }

  // With nothing left to do nobody holds a check, so fAllOk tells the whole truth.
  lemma IdleIsFine(s: State)
    requires Held(s, MASTER) && s.queue == [] && s.nTodo == 0
    ensures forall u :: 0 < u < |s.threads| ==> Fine(s.threads[u])
    ensures s.fAllOk <==> AllTrue(s.added)
  {
    var h := Set(s, MASTER, BUSY);
    CountsAreNatural(h);
    forall u | 0 < u < |s.threads|
      ensures Fine(s.threads[u])
    {
      assert h.threads[u] == s.threads[u];
      assert InHand(h.threads[u]) <= 0;
    }
    assert forall u :: 0 <= u < |h.threads| ==> Fine(h.threads[u]);
  }

  lemma ReturnInv(s: State, r: State)
    requires Held(s, MASTER) && s.queue == [] && s.nTodo == 0
    requires r == Set(s, MASTER, Outside).(nTotal := s.nTotal - 1, fAllOk := true, added := [],
                                           verdicts := s.verdicts + [Verdict(s.fAllOk, s.added)])
    ensures Inv(r)
  {
    hide SumOf;
    IdleIsFine(s);
    ReleaseCounts(s, MASTER, Outside, r);
    assert Fine(r.threads[MASTER]);
    assert forall u :: 0 < u < |r.threads| ==> r.threads[u] == s.threads[u];
  }

  lemma LoopHeadInv(nBatchSize: nat, s: State, t: nat)
    requires Held(s, t)
    ensures Inv(LoopHead(nBatchSize, s, t))
  {
    hide Truth, WorkersOk, VerdictsOk, AllTrue, SumOf;
    var r := LoopHead(nBatchSize, s, t);
    if s.queue == [] {
      if t == MASTER && s.nTodo == 0 {
        ReturnInv(s, r);
      } else {
        ReleaseCounts(s, t, Asleep(false), r);
        ReleaseTruth(s, t, Asleep(false), r);
        ReleaseWorkers(s, t, Asleep(false), r);
        SleepMaster(s, t);
      }
    } else {
      var n := BatchSize(nBatchSize, s);
      TakeFine(s, n);
      ReleaseCounts(s, t, r.threads[t], r);
      ReleaseTruth(s, t, r.threads[t], r);
      ReleaseWorkers(s, t, r.threads[t], r);
    }
  }

  lemma CleanUpHeld(s: State, t: nat)
    requires Inv(s) && t < |s.threads| && s.threads[t].Ready?
    ensures Held(CleanUp(s, t), t)
  {
    hide SumOf, AllTrue;
    var p := s.threads[t];
    var u := CleanUp(s, t);
    var h := Set(u, t, BUSY);
    var m := Notify(s.threads[MASTER]);
    CountsAreNatural(s);
    SetSums(s, t, BUSY);
    var b := Set(s, t, BUSY);
    if p.nNow > 0 && u.nTodo == 0 && t != MASTER {
      SetSums(b, MASTER, m);
      assert h.threads == b.threads[MASTER := m];
    } else {
      assert h.threads == b.threads;
    }
    assert Counts(h);
    FineCleanUp(s, t);
    WorkersCleanUp(s, t);
    assert forall v :: 0 <= v < |s.threads| && v != t ==> PhaseOk(s.threads[v]);
  }

  lemma FineCleanUp(s: State, t: nat)
    requires Truth(s) && t < |s.threads| && s.threads[t].Ready?
    ensures Truth(Set(CleanUp(s, t), t, BUSY))
  {
    var h := Set(CleanUp(s, t), t, BUSY);
    assert forall v :: 0 <= v < |s.threads| && v != t ==> Fine(h.threads[v]) == Fine(s.threads[v]);
    assert Fine(h.threads[t]);
    assert (forall v :: 0 <= v < |s.threads| ==> Fine(s.threads[v])) <==>
           Fine(s.threads[t]) && forall v :: 0 <= v < |h.threads| ==> Fine(h.threads[v]);
  }

  lemma WorkersCleanUp(s: State, t: nat)
    requires WorkersOk(s) && t < |s.threads| && s.threads[t].Ready?
    ensures WorkersOk(Set(CleanUp(s, t), t, BUSY))
  {
    var h := Set(CleanUp(s, t), t, BUSY);
    if s.queue != [] {
      if t > 0 {
        assert Alert(h.threads[t]);
      } else {
        assert forall v :: 0 < v < |s.threads| ==> h.threads[v] == s.threads[v];
      }
    }
  }

  lemma WakeHeld(s: State, t: nat)
    requires Inv(s) && t < |s.threads| && s.threads[t].Asleep?
    ensures Held(s.(nIdle := s.nIdle - 1), t)
  {
    var u := s.(nIdle := s.nIdle - 1);
    var h := Set(u, t, BUSY);
    CountsAreNatural(s);
    SetSums(s, t, BUSY);
    assert h.threads == Set(s, t, BUSY).threads;
    assert Truth(h) by {
      assert forall v :: 0 <= v < |s.threads| && v != t ==> h.threads[v] == s.threads[v];
      assert Fine(h.threads[t]) && Fine(s.threads[t]);
      assert (forall v :: 0 <= v < |s.threads| ==> Fine(s.threads[v])) <==>
             (forall v :: 0 <= v < |h.threads| ==> Fine(h.threads[v]));
    }
    if s.queue != [] && t > 0 {
      assert Alert(h.threads[t]);
    }
    assert WorkersOk(h);
  }

  // ---------- every step and every run ----------

  // One thread changes phase and nothing else does.
  lemma SetInv(s: State, t: nat, p: Phase)
    requires Inv(s) && t < |s.threads| && PhaseOk(p) && !p.Asleep? && !s.threads[t].Asleep? && Alert(p)
    requires InHand(p) == InHand(s.threads[t]) && Counted(p) == Counted(s.threads[t]) && Fine(p) == Fine(s.threads[t])
    ensures Inv(Set(s, t, p))
  {
    var r := Set(s, t, p);
    SetSums(s, t, p);
    assert forall v :: 0 <= v < |s.threads| ==> Fine(r.threads[v]) == Fine(s.threads[v]);
    assert Truth(r);
    assert WorkersOk(r) by {
      if t > 0 { assert Alert(r.threads[t]); }
      assert forall v :: 0 < v < |s.threads| && v != t ==> r.threads[v] == s.threads[v];
    }
  }

  lemma WorkInv(s: State, t: nat)
    requires Inv(s) && t < |s.threads| && s.threads[t].Working?
    ensures Inv(Do(0, s, Work(t)))
  {
    var p := s.threads[t];
    if p.vChecks == [] {
      SetInv(s, t, Ready(p.nNow, p.fOk));
    } else {
      assert [p.vChecks[0]] + p.vChecks[1..] == p.vChecks;
      AllTrueConcat([p.vChecks[0]], p.vChecks[1..]);
      SetInv(s, t, Working(p.vChecks[1..], p.nNow, p.fOk && p.vChecks[0]));
    }
  }

  // Threads are at most notified.
  ghost predicate OnlyNotified(ps: seq<Phase>, qs: seq<Phase>) {
    |ps| == |qs| && forall t :: 0 <= t < |ps| ==> qs[t] == ps[t] || (t != MASTER && qs[t] == Notify(ps[t]))
  }

  lemma AddInv(s: State, vChecks: seq<bool>, r: State)
    requires Inv(s) && s.threads[MASTER].Outside? && OnlyNotified(s.threads, r.threads)
    requires r == s.(queue := s.queue + vChecks, nTodo := s.nTodo + |vChecks|, added := s.added + vChecks,
                     threads := r.threads)
    requires |vChecks| > 0 ==>
               || (exists t :: 0 < t < |r.threads| && Alert(r.threads[t]))
               || (forall t :: 0 < t < |r.threads| ==> r.threads[t].Outside?)
    ensures Inv(r)
  {
    hide SumOf;
    SumOfSame(s.threads, r.threads, Idle);
    SumOfSame(s.threads, r.threads, Counted);
    SumOfSame(s.threads, r.threads, InHand);
    AllTrueConcat(s.queue, vChecks);
    AllTrueConcat(s.added, vChecks);
    assert forall t :: 0 <= t < |s.threads| ==> Fine(r.threads[t]) == Fine(s.threads[t]);
    assert Truth(r);
    if vChecks == [] {
      assert r.queue == s.queue;
      assert forall t :: 0 <= t < |s.threads| && Alert(s.threads[t]) ==> Alert(r.threads[t]);
    }
  }

  lemma AddStepInv(nBatchSize: nat, s: State, vChecks: seq<bool>, woken: nat)
    requires Inv(s) && Enabled(s, Add(vChecks, woken))
    ensures Inv(Do(nBatchSize, s, Add(vChecks, woken)))
  {
    hide Core;
    var r := Do(nBatchSize, s, Add(vChecks, woken));
    if |vChecks| > 0 && !(forall t :: 0 < t < |s.threads| ==> s.threads[t].Outside?) {
      var t :| 0 < t < |s.threads| && !s.threads[t].Outside?;
      if s.threads[t] == Asleep(false) && |vChecks| == 1 {
        assert Alert(r.threads[woken]);
      } else {
        assert Alert(r.threads[t]);
      }
    }
    AddInv(s, vChecks, r);
  }

  lemma StepInv(nBatchSize: nat, s: State, a: Action)
    requires Inv(s) && Enabled(s, a)
    ensures Inv(Do(nBatchSize, s, a))
  {
    hide Core, Held, LoopHead, CleanUp;
    match a {
      case Add(vChecks, woken) => AddStepInv(nBatchSize, s, vChecks, woken);
      case Enter(t) => SetInv(s, t, Ready(0, true));
      case Lock(t) =>
        CleanUpHeld(s, t);
        LoopHeadInv(nBatchSize, CleanUp(s, t), t);
      case Wake(t) =>
        WakeHeld(s, t);
        LoopHeadInv(nBatchSize, s.(nIdle := s.nIdle - 1), t);
      case Work(t) => WorkInv(s, t);
    }
  }

  // The states of a run: each action is enabled where it is taken.
  ghost predicate RunTo(nBatchSize: nat, s: State, run: seq<Action>, r: State)
    decreases run
  {
    if run == [] then r == s
    else Enabled(s, run[0]) && RunTo(nBatchSize, Do(nBatchSize, s, run[0]), run[1..], r)
  }

  lemma InitInv(workers: nat)
    ensures Inv(Init(workers))
  {
    var s := Init(workers);
    AllOutside(s.threads);
  }

  lemma {:induction false} AllOutside(ps: seq<Phase>)
    requires forall t :: 0 <= t < |ps| ==> ps[t] == Outside
    ensures SumOf(ps, Idle) == SumOf(ps, Counted) == SumOf(ps, InHand) == 0
  {
    if ps != [] { AllOutside(ps[1..]); }
  }

  lemma {:induction false} RunInv(nBatchSize: nat, s: State, run: seq<Action>, r: State)
    requires Inv(s) && RunTo(nBatchSize, s, run, r)
    ensures Inv(r)
    decreases run
  {
    if run != [] {
      StepInv(nBatchSize, s, run[0]);
      RunInv(nBatchSize, Do(nBatchSize, s, run[0]), run[1..], r);
    }
  }

  // ---------- what the caller did ----------

  // The checks given to Add, in order.
  function Given(run: seq<Action>): seq<bool>
    decreases run
  {
    if run == [] then [] else (if run[0].Add? then run[0].vChecks else []) + Given(run[1..])
  }

  // The step in which Wait returns: the master leaves the loop.
  predicate Returns(nBatchSize: nat, s: State, a: Action)
    requires Enabled(s, a)
  {
    !s.threads[MASTER].Outside? && |Do(nBatchSize, s, a).threads| > 0 && Do(nBatchSize, s, a).threads[MASTER].Outside?
  }

  // The checks given to Add before the first return of a run, between two returns, and after
  // the last one, read off its actions.
  ghost function Sessions(nBatchSize: nat, s: State, run: seq<Action>): (r: seq<seq<bool>>)
    ensures |r| >= 1
    decreases run
  {
    if run == [] || !Enabled(s, run[0]) then [[]]
    else
      var rest := Sessions(nBatchSize, Do(nBatchSize, s, run[0]), run[1..]);
      if run[0].Add? then [run[0].vChecks + rest[0]] + rest[1..]
      else if Returns(nBatchSize, s, run[0]) then [[]] + rest
      else rest
  }

  function Flat(s: seq<seq<bool>>): seq<bool> {
    if s == [] then [] else s[0] + Flat(s[1..])
  }

  lemma {:induction false} SessionsFlat(nBatchSize: nat, s: State, run: seq<Action>, r: State)
    requires RunTo(nBatchSize, s, run, r)
    ensures Flat(Sessions(nBatchSize, s, run)) == Given(run)
    decreases run
  {
    hide Do, Enabled, Returns, Flat;
    if run == [] {
      FlatNone();
    } else {
      SessionsFlat(nBatchSize, Do(nBatchSize, s, run[0]), run[1..], r);
      var rest := Sessions(nBatchSize, Do(nBatchSize, s, run[0]), run[1..]);
      if run[0].Add? { FlatAdd(run[0].vChecks, rest); } else { FlatReturn(rest); }
    }
  }

  lemma FlatCons(a: seq<bool>, s: seq<seq<bool>>)
    ensures Flat([a] + s) == a + Flat(s)
  {
    assert ([a] + s)[1..] == s;
  }

  lemma FlatAdd(a: seq<bool>, s: seq<seq<bool>>)
    requires |s| >= 1
    ensures Flat([a + s[0]] + s[1..]) == a + Flat(s)
  {
    hide Flat;
    var first, rest := s[0], s[1..];
    FlatCons(a + first, rest);
    FlatCons(first, rest);
    assert s == [first] + rest;
    Regroup(a, first, Flat(rest));
  }

  lemma Regroup(a: seq<bool>, b: seq<bool>, c: seq<bool>)
    ensures (a + b) + c == a + (b + c)
  {
  }

  lemma FlatReturn(s: seq<seq<bool>>)
    ensures Flat([[]] + s) == Flat(s)
  {
    FlatCons([], s);
  }

  lemma FlatNone()
    ensures Flat([[]]) == []
  {
    var one: seq<seq<bool>> := [[]];
    assert one[1..] == [];
  }

  // The history fields of the state say what a step did to them: Add gives its checks, a
  // return closes the books, nothing else touches them.
  lemma StepHistory(nBatchSize: nat, s: State, a: Action)
    requires Enabled(s, a)
    ensures var r := Do(nBatchSize, s, a);
            if a.Add? then r.added == s.added + a.vChecks && r.verdicts == s.verdicts
            else if Returns(nBatchSize, s, a) then
              r.added == [] && r.verdicts == s.verdicts + [Verdict(r.verdicts[|r.verdicts| - 1].result, s.added)]
            else r.added == s.added && r.verdicts == s.verdicts
  {
    hide LoopHead;
    if a.Lock? {
      LoopHeadHistory(nBatchSize, CleanUp(s, a.t), a.t);
    } else if a.Wake? {
      LoopHeadHistory(nBatchSize, s.(nIdle := s.nIdle - 1), a.t);
    }
  }

  lemma LoopHeadHistory(nBatchSize: nat, s: State, t: nat)
    requires t < |s.threads| && !s.threads[t].Outside?
    ensures var r := LoopHead(nBatchSize, s, t);
            && |r.threads| == |s.threads| && (t != MASTER ==> r.threads[MASTER] == s.threads[MASTER] && !r.threads[t].Outside?)
            && (if r.threads[t].Outside?
                then r.added == [] && r.verdicts == s.verdicts + [Verdict(r.verdicts[|r.verdicts| - 1].result, s.added)]
                else r.added == s.added && r.verdicts == s.verdicts)
  {
  }

  // The books of a run, with what was open when it began.
  ghost predicate Books(s: State, sessions: seq<seq<bool>>, r: State)
    requires |sessions| >= 1
  {
    var n := |s.verdicts|;
    && s.verdicts <= r.verdicts && |r.verdicts| == n + |sessions| - 1
    && (forall i :: 0 <= i < |sessions| - 1 ==> r.verdicts[n + i].checks == (if i == 0 then s.added else []) + sessions[i])
    && r.added == (if |sessions| == 1 then s.added else []) + sessions[|sessions| - 1]
  }

  lemma {:induction false} RunBooks(nBatchSize: nat, s: State, run: seq<Action>, r: State)
    requires RunTo(nBatchSize, s, run, r)
    ensures Books(s, Sessions(nBatchSize, s, run), r)
    decreases run
  {
    hide Do, Enabled, Returns;
    if run != [] {
      var u := Do(nBatchSize, s, run[0]);
      StepHistory(nBatchSize, s, run[0]);
      RunBooks(nBatchSize, u, run[1..], r);
      BooksStep(s, u, run[0], Sessions(nBatchSize, u, run[1..]), Sessions(nBatchSize, s, run), r, Returns(nBatchSize, s, run[0]));
    }
  }

  lemma BooksStep(s: State, u: State, a: Action, rest: seq<seq<bool>>, all: seq<seq<bool>>, r: State, returns_: bool)
    requires |rest| >= 1 && Books(u, rest, r)
    requires all == if a.Add? then [a.vChecks + rest[0]] + rest[1..] else if returns_ then [[]] + rest else rest
    requires if a.Add? then u.added == s.added + a.vChecks && u.verdicts == s.verdicts
             else if returns_ then |u.verdicts| > 0 && u.added == [] && u.verdicts == s.verdicts + [Verdict(u.verdicts[|u.verdicts| - 1].result, s.added)]
             else u.added == s.added && u.verdicts == s.verdicts
    ensures Books(s, all, r)
  {
    if !a.Add? && returns_ {
      var n := |s.verdicts|;
      forall i | 0 <= i < |all| - 1
        ensures r.verdicts[n + i].checks == (if i == 0 then s.added else []) + all[i]
      {
        if i == 0 {
          assert r.verdicts[n] == u.verdicts[n];
        } else {
          assert r.verdicts[|u.verdicts| + (i - 1)].checks == (if i == 1 then u.added else []) + rest[i - 1];
        }
      }
    }
  }

  lemma BooksFromStart(s: State, given: seq<seq<bool>>, r: State)
    requires |given| >= 1 && s.verdicts == [] && s.added == [] && Books(s, given, r)
    ensures |r.verdicts| == |given| - 1 && r.added == given[|given| - 1]
    ensures forall i :: 0 <= i < |r.verdicts| ==> r.verdicts[i].checks == given[i]
  {
    forall i | 0 <= i < |r.verdicts|
      ensures r.verdicts[i].checks == given[i]
    {
      assert r.verdicts[|s.verdicts| + i].checks == [] + given[i];
    }
  }

  lemma InvGives(r: State)
    requires Inv(r)
    ensures VerdictsOk(r.verdicts) && WorkersOk(r) && r.nTodo == |r.queue| + SumOf(r.threads, InHand) >= 0
    ensures |r.threads| > 0 && (r.threads[MASTER] == Asleep(false) ==> r.nTodo > 0)
  {
    CountsAreNatural(r);
  }

  // The headline of src/checkqueue.h: in every run from the start, with any number of
  // workers, under every interleaving and with spurious wake-ups, the n-th return of Wait
  // was true exactly when all checks given to Add since the return before it were true; nTodo
  // is the number of checks queued or in hand; no check waits while all started workers sleep
  // un-notified; and a sleeping master is notified unless work remains.
  lemma WaitIsExact(nBatchSize: nat, workers: nat, run: seq<Action>, r: State)
    requires RunTo(nBatchSize, Init(workers), run, r)
    ensures var given := Sessions(nBatchSize, Init(workers), run);
            && Flat(given) == Given(run) && |r.verdicts| == |given| - 1 && r.added == given[|given| - 1]
            && forall i :: 0 <= i < |r.verdicts| ==>
                 r.verdicts[i].checks == given[i] && (r.verdicts[i].result <==> AllTrue(given[i]))
    ensures r.nTodo == |r.queue| + SumOf(r.threads, InHand) >= 0
    ensures WorkersOk(r)
    ensures |r.threads| > 0 && (r.threads[MASTER] == Asleep(false) ==> r.nTodo > 0)
  {
    hide RunTo, Sessions, Flat, Inv, Given, AllTrue, WorkersOk, Books, SumOf;
    InitInv(workers);
    RunInv(nBatchSize, Init(workers), run, r);
    InvGives(r);
    RunBooks(nBatchSize, Init(workers), run, r);
    BooksFromStart(Init(workers), Sessions(nBatchSize, Init(workers), run), r);
    SessionsFlat(nBatchSize, Init(workers), run, r);
  }

  // Wait returns only when the queue is empty and no thread holds a check.
  lemma WaitReturnsWhenDone(nBatchSize: nat, s: State, a: Action)
    requires Inv(s) && Enabled(s, a)
    ensures var r := Do(nBatchSize, s, a);
            |r.verdicts| > |s.verdicts| ==>
              r.queue == [] && r.nTodo == 0 && forall t :: 0 <= t < |r.threads| ==> InHand(r.threads[t]) == 0
  {
    hide Core;
    var r := Do(nBatchSize, s, a);
    StepInv(nBatchSize, s, a);
    CoreCounts(r);
    CountsAreNatural(r);
  }

  lemma CoreCounts(s: State)
    requires Core(s)
    ensures Counts(s)
  {
  }

  // ---------- progress ----------

  // A step that is not a spurious wake-up, taken by a thread already in Loop.
  predicate Proper(s: State, a: Action) {
    && Enabled(s, a)
    && (a.Lock? || a.Work? || (a.Wake? && s.threads[a.t] == Asleep(true)))
  }

  // Outside Wait the master can always add any checks, and call Wait.
  lemma CallsPossible(s: State, vChecks: seq<bool>) returns (woken: nat)
    requires Inv(s) && s.threads[MASTER].Outside?
    ensures Enabled(s, Add(vChecks, woken)) && Enabled(s, Enter(MASTER))
  {
    woken := 0;
    if w :| 0 < w < |s.threads| && s.threads[w] == Asleep(false) {
      woken := w;
    }
  }

  // No deadlock: while the master is in Wait, some proper step is possible.
  lemma NoDeadlock(s: State) returns (a: Action)
    requires Inv(s) && !s.threads[MASTER].Outside?
    ensures Proper(s, a)
  {
    match s.threads[MASTER] {
      case Ready(_, _) => a := Lock(MASTER);
      case Working(_, _, _) => a := Work(MASTER);
      case Asleep(notified) =>
        if notified {
          a := Wake(MASTER);
        } else {
          var t := SomeoneHolds(s.threads);
          a := if s.threads[t].Ready? then Lock(t) else Work(t);
        }
    }
  }

  lemma {:induction false} SomeoneHolds(ps: seq<Phase>) returns (t: nat)
    requires SumOf(ps, InHand) > 0
    ensures t < |ps| && InHand(ps[t]) > 0
  {
    if InHand(ps[0]) > 0 {
      t := 0;
    } else {
      t := SomeoneHolds(ps[1..]);
      t := t + 1;
    }
  }

  function Cost(p: Phase): int {
    match p
    case Outside => 0
    case Ready(_, _) => 2
    case Asleep(notified) => if notified then 1 else 0
    case Working(vChecks, _, _) => |vChecks| + 3
  }

  // Steps still to come before the queue is quiet.
  function Remaining(s: State): int {
    4 * |s.queue| + SumOf(s.threads, Cost)
  }

  lemma LoopHeadCost(nBatchSize: nat, s: State, t: nat)
    requires t < |s.threads|
    ensures Remaining(LoopHead(nBatchSize, s, t)) <= Remaining(s) - Cost(s.threads[t])
  {
    var r := LoopHead(nBatchSize, s, t);
    SumOfUpdate(s.threads, Cost, t, r.threads[t]);
  }

  // No livelock: every proper step uses up some of what remains.
  lemma ProperStepsRunOut(nBatchSize: nat, s: State, a: Action)
    requires Inv(s) && Proper(s, a)
    ensures 0 <= Remaining(Do(nBatchSize, s, a)) < Remaining(s)
  {
    hide Core, LoopHead;
    SumOfNonNegative(Do(nBatchSize, s, a).threads, Cost);
    match a {
      case Lock(t) =>
        var u := CleanUp(s, t);
        SumOfUpdate(s.threads, Cost, MASTER, Notify(s.threads[MASTER]));
        assert u.queue == s.queue && Cost(u.threads[t]) == 2;
        LoopHeadCost(nBatchSize, u, t);
      case Wake(t) =>
        LoopHeadCost(nBatchSize, s.(nIdle := s.nIdle - 1), t);
      case Work(t) =>
        SumOfUpdate(s.threads, Cost, t, Do(nBatchSize, s, a).threads[t]);
    }
  }

  // The same with what a thread that has yet to enter will add.
  function FullCost(p: Phase): int { if p.Outside? then 2 else Cost(p) }

  function Budget(s: State): int {
    4 * |s.queue| + SumOf(s.threads, FullCost)
  }

  lemma LoopHeadBudget(nBatchSize: nat, s: State, t: nat)
    requires t < |s.threads|
    ensures var r := LoopHead(nBatchSize, s, t);
            && s.verdicts <= r.verdicts && |r.threads| == |s.threads| && (t != MASTER ==> r.threads[MASTER] == s.threads[MASTER])
            && (|r.verdicts| == |s.verdicts| ==> !r.threads[t].Outside? && Budget(r) <= Budget(s) - FullCost(s.threads[t]))
  {
    var r := LoopHead(nBatchSize, s, t);
    SumOfUpdate(s.threads, FullCost, t, r.threads[t]);
  }

  // While the master is in Wait no step adds to the budget, and a proper step takes from it,
  // unless Wait returns.
  lemma StepBudget(nBatchSize: nat, s: State, a: Action)
    requires Enabled(s, a) && !s.threads[MASTER].Outside?
    ensures var r := Do(nBatchSize, s, a);
            && s.verdicts <= r.verdicts
            && (|r.verdicts| == |s.verdicts| ==>
                  |r.threads| > 0 && !r.threads[MASTER].Outside? && Budget(r) <= Budget(s) - (if Proper(s, a) then 1 else 0))
  {
    hide SumOf, LoopHead;
    match a {
      case Enter(t) =>
        SumOfUpdate(s.threads, FullCost, t, Do(nBatchSize, s, a).threads[t]);
      case Lock(t) =>
        var u := CleanUp(s, t);
        SumOfUpdate(s.threads, FullCost, MASTER, Notify(s.threads[MASTER]));
        assert u.queue == s.queue && FullCost(u.threads[t]) == 2;
        LoopHeadBudget(nBatchSize, u, t);
      case Wake(t) =>
        LoopHeadBudget(nBatchSize, s.(nIdle := s.nIdle - 1), t);
      case Work(t) =>
        SumOfUpdate(s.threads, FullCost, t, Do(nBatchSize, s, a).threads[t]);
    }
  }

  // How many steps of a run are proper.
  ghost function ProperSteps(nBatchSize: nat, s: State, run: seq<Action>): nat
    decreases run
  {
    if run == [] || !Enabled(s, run[0]) then 0
    else (if Proper(s, run[0]) then 1 else 0) + ProperSteps(nBatchSize, Do(nBatchSize, s, run[0]), run[1..])
  }

  lemma {:induction false} VerdictsGrow(nBatchSize: nat, s: State, run: seq<Action>, r: State)
    requires RunTo(nBatchSize, s, run, r)
    ensures |r.verdicts| >= |s.verdicts|
    decreases run
  {
    hide LoopHead;
    if run != [] {
      VerdictsGrow(nBatchSize, Do(nBatchSize, s, run[0]), run[1..], r);
      if run[0].Lock? || run[0].Wake? {
        LoopHeadVerdicts(nBatchSize, if run[0].Lock? then CleanUp(s, run[0].t) else s.(nIdle := s.nIdle - 1), run[0].t);
      }
    }
  }

  lemma LoopHeadVerdicts(nBatchSize: nat, s: State, t: nat)
    requires t < |s.threads|
    ensures |LoopHead(nBatchSize, s, t).verdicts| >= |s.verdicts|
  {
  }

  // Wait returns: with the master in Wait, every run with more proper steps than the budget,
  // whatever other steps come between them, contains a return.
  lemma {:induction false} WaitReturns(nBatchSize: nat, s: State, run: seq<Action>, r: State)
    requires Inv(s) && RunTo(nBatchSize, s, run, r) && !s.threads[MASTER].Outside?
    requires ProperSteps(nBatchSize, s, run) > Budget(s)
    ensures |r.verdicts| > |s.verdicts|
    decreases run
  {
    hide Inv, Budget, Do, Proper;
    BudgetNatural(s);
    var u := Do(nBatchSize, s, run[0]);
    StepInv(nBatchSize, s, run[0]);
    StepBudget(nBatchSize, s, run[0]);
    if |u.verdicts| == |s.verdicts| {
      WaitReturns(nBatchSize, u, run[1..], r);
    } else {
      VerdictsGrow(nBatchSize, u, run[1..], r);
    }
  }

  lemma BudgetNatural(s: State)
    ensures Budget(s) >= 0
  {
    SumOfNonNegative(s.threads, FullCost);
  }
}
