/**
 The thread pool of limonp/ThreadPool.hpp over the blocking queue: workers that pop and run tasks until
 they take a NULL, any number of threads that add tasks, and a stop that pushes one NULL per worker.
 Threads 0..n-1 are the workers, thread n stops the pool, all others may add.
 */
module ThreadPool {
  import opened BoundedQueue
  import opened Monitor

  datatype Item = Null | Task(id: nat)

  /** Fresh: about to call Pop; InPop: waiting or woken inside it. */
  datatype Worker = Fresh | InPop | Running(task: Item) | Exited

  datatype Phase = Serving | Stopping(nulls: nat)

  /** ran collects the tasks whose Run has returned, accepted those whose Add has stored them. */
  datatype Pool = Pool(workers: seq<Worker>, mon: Mon<Item>, phase: Phase, accepted: seq<Item>, ran: multiset<Item>) {

    // ----- steps

    /** An Add that stores its task or waits for a free slot; none runs once the stop has begun. */
    ghost predicate Add(t: Tid, id: nat, stored: bool, woken: set<Tid>, s': Pool)
      requires mon.ring.Valid()
    {
      && phase == Serving && t > |workers|
      && mon.PushTry(t, Task(id), stored, woken, s'.mon)
      && s' == this.(mon := s'.mon, accepted := if stored then accepted + [Task(id)] else accepted)
    }

    /** Stop starts when no Add is under way. */
    ghost predicate BeginStop(s': Pool) {
      phase == Serving && mon.waitP == mon.readyP == {} && s' == this.(phase := Stopping(0))
    }

    ghost predicate PushNull(stored: bool, woken: set<Tid>, s': Pool)
      requires mon.ring.Valid()
    {
      && phase.Stopping? && phase.nulls < |workers|
      && mon.PushTry(|workers|, Null, stored, woken, s'.mon)
      && s' == this.(mon := s'.mon, phase := if stored then Stopping(phase.nulls + 1) else phase)
    }

    /** A worker arrives in Pop or checks again: it sleeps, exits on NULL, or starts its task. */
    ghost predicate Fetch(w: Tid, taken: bool, x: Item, woken: set<Tid>, s': Pool)
      requires mon.ring.Valid()
    {
      && w < |workers| && (workers[w] == Fresh || (workers[w] == InPop && w in mon.readyC))
      && mon.PopTry(w, taken, x, woken, s'.mon)
      && s' == this.(mon := s'.mon,
                     workers := workers[w := if !taken then InPop else if x == Null then Exited else Running(x)])
    }

    ghost predicate Finish(w: Tid, s': Pool) {
      && w < |workers| && workers[w].Running?
      && s' == this.(workers := workers[w := Fresh], ran := ran + multiset{workers[w].task})
    }

    ghost predicate Wake(t: Tid, s': Pool) {
      mon.Spurious(t, s'.mon) && s' == this.(mon := s'.mon)
    }

    /** The steps of the pool's own threads after the stop has begun, spurious wake-ups aside. */
    ghost predicate Progress(s': Pool)
      requires mon.ring.Valid()
    {
      || (exists stored, woken :: PushNull(stored, woken, s'))
      || (exists w, taken, x, woken :: Fetch(w, taken, x, woken, s'))
      || (exists w :: Finish(w, s'))
    }

    ghost predicate Step(s': Pool)
      requires mon.ring.Valid()
    {
      || (exists t, id, stored, woken :: Add(t, id, stored, woken, s'))
      || BeginStop(s')
      || Progress(s')
      || (exists t :: Wake(t, s'))
    }

    // ----- the invariant

    ghost function Nulls(): nat { if phase.Stopping? then phase.nulls else 0 }

    /** Who may be inside the queue: workers in Pop, adders before the stop, the stopping thread after it. */
    ghost predicate Placed(t: Tid) {
      && (t in mon.waitC || t in mon.readyC <==> t < |workers| && workers[t] == InPop)
      && (t in mon.waitP || t in mon.readyP ==>
            && t in mon.args
            && (if phase == Serving then t > |workers| && mon.args[t].Task?
                else t == |workers| && mon.args[t] == Null && phase.nulls < |workers|))
    }

    ghost predicate Counted() {
      && Nulls() <= |workers|
      && mon.pushed == accepted + NullSeq(Nulls())
      && (forall k :: 0 <= k < |accepted| ==> accepted[k].Task?)
      && (forall x :: Tally(x))
      && ran[Null] == 0
      && (forall w :: 0 <= w < |workers| && workers[w].Running? ==> workers[w].task.Task?)
    }

    /** Every item taken has been run or is held by a worker. */
    ghost predicate Tally(x: Item) { multiset(mon.popped)[x] == ran[x] + Held(workers, x) }

    ghost predicate Inv() {
      && |workers| > 0 && mon.Inv() && |mon.ring.buffer| == |workers|
      && (forall t :: Placed(t))
      && Counted()
    }

    ghost predicate AllExited() { forall w :: 0 <= w < |workers| ==> workers[w] == Exited }

    lemma AddKeepsPlace(t: Tid, id: nat, stored: bool, woken: set<Tid>, s': Pool, u: Tid)
      requires Inv() && Add(t, id, stored, woken, s')
      ensures s'.Placed(u)
    {
      hide Counted, Mon.NoLostWakeup, Mon.Fifo, Ring.Valid, Ring.Pushed;
      assert Placed(u) && Placed(t) && mon.InOnePlace(u) && mon.InOnePlace(t);
    }

    lemma AddKeepsCounts(t: Tid, id: nat, stored: bool, woken: set<Tid>, s': Pool)
      requires Inv() && Add(t, id, stored, woken, s')
      ensures s'.Counted()
    {
      hide Placed, Mon.Inv, Ring.Valid, Ring.Pushed, Held;
      assert forall x :: Tally(x) ==> s'.Tally(x);
      assert NullSeq(0) == [];
      assert s'.mon.pushed == s'.accepted + NullSeq(s'.Nulls());
    }

    lemma AddKeepsInv(t: Tid, id: nat, stored: bool, woken: set<Tid>, s': Pool)
      requires Inv() && Add(t, id, stored, woken, s')
      ensures s'.Inv()
    {
      hide Placed, Counted, Mon.Inv, Mon.PushTry;
      mon.PushTryKeepsInv(t, Task(id), stored, woken, s'.mon);
      forall u
        ensures s'.Placed(u)
      {
        AddKeepsPlace(t, id, stored, woken, s', u);
      }
      AddKeepsCounts(t, id, stored, woken, s');
    }

    lemma BeginStopKeepsInv(s': Pool)
      requires Inv() && BeginStop(s')
      ensures s'.Inv()
    {
      forall u
        ensures s'.Placed(u)
      {
        assert Placed(u);
      }
      assert forall x :: Tally(x) ==> s'.Tally(x);
    }

    lemma PushNullKeepsPlace(stored: bool, woken: set<Tid>, s': Pool, u: Tid)
      requires Inv() && PushNull(stored, woken, s')
      ensures s'.Placed(u)
    {
      hide Counted, Mon.NoLostWakeup, Mon.Fifo, Ring.Valid, Ring.Pushed;
      assert Placed(u) && Placed(|workers|) && mon.InOnePlace(u);
    }

    lemma PushNullKeepsCounts(stored: bool, woken: set<Tid>, s': Pool)
      requires Inv() && PushNull(stored, woken, s')
      ensures s'.Counted()
    {
      hide Placed, Mon.Inv, Ring.Valid, Ring.Pushed, Held;
      assert forall x :: Tally(x) ==> s'.Tally(x);
      if stored {
        assert NullSeq(Nulls() + 1) == NullSeq(Nulls()) + [Null];
        assert s'.mon.pushed == s'.accepted + NullSeq(s'.Nulls());
      }
    }

    lemma PushNullKeepsInv(stored: bool, woken: set<Tid>, s': Pool)
      requires Inv() && PushNull(stored, woken, s')
      ensures s'.Inv()
    {
      hide Placed, Counted, Mon.Inv, Mon.PushTry;
      mon.PushTryKeepsInv(|workers|, Null, stored, woken, s'.mon);
      forall u
        ensures s'.Placed(u)
      {
        PushNullKeepsPlace(stored, woken, s', u);
      }
      PushNullKeepsCounts(stored, woken, s');
    }

    lemma FetchKeepsPlace(w: Tid, taken: bool, x: Item, woken: set<Tid>, s': Pool, u: Tid)
      requires Inv() && Fetch(w, taken, x, woken, s')
      ensures s'.Placed(u)
    {
      hide Counted, Mon.NoLostWakeup, Mon.Fifo, Ring.Valid, Ring.Popped;
      assert Placed(u) && Placed(w) && mon.InOnePlace(u) && mon.InOnePlace(w);
    }

    /** What the worker takes comes next in the record of all items taken. */
    lemma FetchKeepsCounts(w: Tid, taken: bool, x: Item, woken: set<Tid>, s': Pool)
      requires Inv() && Fetch(w, taken, x, woken, s')
      ensures s'.Counted()
    {
      hide Placed, Mon.NoLostWakeup, Mon.Separate, Ring.Valid, Ring.Popped, Held;
      forall i
        ensures s'.Tally(i)
      {
        assert Tally(i);
        HeldUpdate(workers, w, s'.workers[w], i);
      }
    }

    lemma FetchKeepsInv(w: Tid, taken: bool, x: Item, woken: set<Tid>, s': Pool)
      requires Inv() && Fetch(w, taken, x, woken, s')
      ensures s'.Inv()
    {
      hide Placed, Counted, Mon.Inv, Mon.PopTry;
      mon.PopTryKeepsInv(w, taken, x, woken, s'.mon);
      FetchKeepsCounts(w, taken, x, woken, s');
      forall u
        ensures s'.Placed(u)
      {
        FetchKeepsPlace(w, taken, x, woken, s', u);
      }
    }

    lemma FinishKeepsInv(w: Tid, s': Pool)
      requires Inv() && Finish(w, s')
      ensures s'.Inv()
    {
      forall u
        ensures s'.Placed(u)
      {
        assert Placed(u);
      }
      forall i
        ensures s'.Tally(i)
      {
        assert Tally(i);
        HeldUpdate(workers, w, Fresh, i);
      }
    }

    lemma WakeKeepsInv(t: Tid, s': Pool)
      requires Inv() && Wake(t, s')
      ensures s'.Inv()
    {
      mon.SpuriousKeepsInv(t, s'.mon);
      forall u
        ensures s'.Placed(u)
      {
        assert Placed(u) && Placed(t) && mon.InOnePlace(t);
      }
      assert forall x :: Tally(x) ==> s'.Tally(x);
    }

    lemma StepKeepsInv(s': Pool)
      requires Inv() && Step(s')
      ensures s'.Inv() && |s'.workers| == |workers|
    {
      if t, id, stored, woken :| Add(t, id, stored, woken, s') {
        AddKeepsInv(t, id, stored, woken, s');
      } else if BeginStop(s') {
        BeginStopKeepsInv(s');
      } else if stored, woken :| PushNull(stored, woken, s') {
        PushNullKeepsInv(stored, woken, s');
      } else if w, taken, x, woken :| Fetch(w, taken, x, woken, s') {
        FetchKeepsInv(w, taken, x, woken, s');
      } else if w :| Finish(w, s') {
        FinishKeepsInv(w, s');
      } else {
        var t :| Wake(t, s');
        WakeKeepsInv(t, s');
      }
    }

    // ----- the stop

    /** Once every worker has exited: each took one NULL, the queue is empty, every accepted task ran exactly once. */
    lemma ExitedIsComplete()
      requires Inv() && AllExited()
      ensures mon.ring.Empty() && mon.popped == mon.pushed
      ensures Nulls() == |workers| && multiset(mon.popped)[Null] == |workers|
      ensures ran == multiset(accepted)
    {
      var rest, nulls := mon.ring.Contents(), NullSeq(Nulls());
      forall x
        ensures multiset(accepted)[x] + multiset(nulls)[x] == ran[x] + Held(workers, x) + multiset(rest)[x]
      {
        assert Tally(x);
        CountOfSum(accepted, nulls, x);
        CountOfSum(mon.popped, rest, x);
      }
      HeldAllExited(workers, Null);
      NullCount(Nulls(), Null);
      assert multiset(accepted)[Null] == 0 by {
        assert Null !in accepted;
      }
      assert multiset(rest)[Null] == 0;
      LastItem(accepted, nulls, mon.popped, rest);
      assert Tally(Null);
      forall x
        ensures ran[x] == multiset(accepted)[x]
      {
        HeldAllExited(workers, x);
        NullCount(Nulls(), x);
      }
    }

    /** Every item that may still be stored or taken, each store counted with its later take. */
    ghost function Remaining(): int
      requires phase.Stopping?
    {
      2 * (|workers| - phase.nulls) + mon.ring.size
    }

    ghost function CountRunning(): nat { Sum(workers, RunningWeight) }

    /** How many threads can still go to sleep: twice those outside the queue, once those woken inside. */
    ghost function Awake(): int
      requires phase.Stopping?
    {
      2 * Sum(workers, FreshWeight) + |mon.readyC|
      + (if phase.nulls == |workers| || |workers| in mon.waitP then 0 else if |workers| in mon.readyP then 1 else 2)
    }

    ghost predicate Smaller(s': Pool)
      requires phase.Stopping? && s'.phase.Stopping?
    {
      || s'.Remaining() < Remaining()
      || (s'.Remaining() == Remaining() && s'.CountRunning() < CountRunning())
      || (s'.Remaining() == Remaining() && s'.CountRunning() == CountRunning() && s'.Awake() < Awake())
    }

    lemma FetchIsSmaller(w: Tid, taken: bool, x: Item, woken: set<Tid>, s': Pool)
      requires Inv() && phase.Stopping? && Fetch(w, taken, x, woken, s')
      ensures s'.phase.Stopping? && Smaller(s')
    {
      hide Counted, Ring.Valid;
      assert Placed(w) && mon.InOnePlace(w) && mon.InOnePlace(|workers|);
      if !taken {
        SleepIsSmaller(w, s');
      }
    }

    /** A worker that goes to sleep was outside the queue, or woken inside it. */
    lemma SleepIsSmaller(w: Tid, s': Pool)
      requires phase.Stopping? && w < |workers|
      requires workers[w] == Fresh || (workers[w] == InPop && w in mon.readyC)
      requires workers[w] == Fresh ==> w !in mon.readyC
      requires s' == this.(mon := mon.PopAsleep(w), workers := workers[w := InPop])
      ensures Smaller(s')
    {
      hide Sum;
      SumUpdate(workers, w, InPop, RunningWeight);
      SumUpdate(workers, w, InPop, FreshWeight);
      if w in mon.readyC {
        assert mon.readyC == s'.mon.readyC + {w};
      } else {
        assert mon.readyC == s'.mon.readyC;
      }
    }

    lemma PushNullIsSmaller(stored: bool, woken: set<Tid>, s': Pool)
      requires Inv() && PushNull(stored, woken, s')
      ensures s'.phase.Stopping? && Smaller(s')
    {
      assert Placed(|workers|) && mon.InOnePlace(|workers|);
    }

    lemma FinishIsSmaller(w: Tid, s': Pool)
      requires Inv() && phase.Stopping? && Finish(w, s')
      ensures s'.phase.Stopping? && Smaller(s')
    {
      SumUpdate(workers, w, Fresh, RunningWeight);
    }

    /** After the stop has begun every step but a spurious wake-up decreases a well-founded measure. */
    lemma ProgressIsSmaller(s': Pool)
      requires Inv() && phase.Stopping? && Progress(s')
      ensures s'.Inv() && |s'.workers| == |workers|
      ensures s'.phase.Stopping? && Smaller(s')
      ensures s'.Remaining() >= 0 && s'.CountRunning() >= 0 && s'.Awake() >= 0
    {
      hide Smaller, PushNull, Fetch, Finish;
      StepKeepsInv(s');
      if stored, woken :| PushNull(stored, woken, s') {
        PushNullIsSmaller(stored, woken, s');
      } else if w, taken, x, woken :| Fetch(w, taken, x, woken, s') {
        FetchIsSmaller(w, taken, x, woken, s');
      } else {
        var w :| Finish(w, s');
        FinishIsSmaller(w, s');
      }
      s'.MeasureIsNatural();
    }

    lemma MeasureIsNatural()
      requires Inv() && phase.Stopping?
      ensures Remaining() >= 0 && CountRunning() >= 0 && Awake() >= 0
    {
      hide Placed, Mon.Inv, Sum;
    }

    /** As long as a worker has not exited, some thread of the pool can take a step without a spurious wake-up. */
    lemma NoDeadlock() returns (s': Pool)
      requires Inv() && phase.Stopping? && !AllExited()
      ensures Progress(s')
    {
      if w :| 0 <= w < |workers| && workers[w].Running? {
        s' := this.(workers := workers[w := Fresh], ran := ran + multiset{workers[w].task});
        assert Finish(w, s');
      } else if w :| 0 <= w < |workers| && workers[w] == Fresh {
        assert Placed(w);
        s' := FetchBy(w);
      } else if w :| w in mon.readyC {
        assert Placed(w);
        s' := FetchBy(w);
      } else {
        var w :| 0 <= w < |workers| && workers[w] != Exited;
        assert workers[w] == InPop && Placed(w) && w in mon.waitC;
        assert mon.signalledC == {} && mon.ring.size == 0;
        if phase.nulls == |workers| {
          AllNullsTaken();
        } else {
          assert Placed(|workers|) && mon.InOnePlace(|workers|);
          forall t | t in mon.readyP
            ensures t == |workers|
          {
            assert Placed(t);
          }
          if |workers| !in mon.readyP {
            assert mon.signalledP == {};
          }
          s' := PushBy();
        }
      }
    }

    lemma FetchBy(w: Tid) returns (s': Pool)
      requires Inv() && w < |workers| && (workers[w] == Fresh || (workers[w] == InPop && w in mon.readyC))
      ensures Progress(s')
    {
      assert Placed(w) && mon.InOnePlace(w);
      var m := mon;
      if m.ring.Empty() {
        s' := this.(mon := m.PopAsleep(w), workers := workers[w := InPop]);
        assert Fetch(w, false, Null, {}, s');
      } else {
        var x := m.ring.buffer[m.ring.head];
        s' := this.(mon := m.Taken(w, m.waitP), workers := workers[w := if x == Null then Exited else Running(x)]);
        assert Fetch(w, true, x, m.waitP, s');
      }
    }

    lemma PushBy() returns (s': Pool)
      requires Inv() && phase.Stopping? && phase.nulls < |workers| && |workers| !in mon.waitP && !mon.ring.Full()
      ensures Progress(s')
    {
      assert Placed(|workers|) && mon.InOnePlace(|workers|);
      var m, t := mon, |workers|;
      s' := this.(mon := m.Stored(t, Null, m.waitC), phase := Stopping(phase.nulls + 1));
      assert PushNull(true, m.waitC, s');
    }

    /** With all NULLs stored, no task running and nothing left in the queue, every worker has exited. */
    lemma AllNullsTaken()
      requires Inv() && phase == Stopping(|workers|) && mon.ring.size == 0
      requires forall w :: 0 <= w < |workers| ==> !workers[w].Running?
      ensures AllExited()
    {
      assert Tally(Null);
      assert mon.popped == mon.pushed == accepted + NullSeq(Nulls());
      CountOfSum(accepted, NullSeq(Nulls()), Null);
      NullCount(Nulls(), Null);
      HeldFull(workers);
    }

    /** So a stop that has begun always completes: from any reachable state, steps lead to every worker gone. */
    lemma {:induction false} StopCompletes() returns (ss: seq<Pool>)
      requires Inv() && phase.Stopping?
      ensures ss != [] && ss[0] == this && ss[|ss| - 1].Inv() && ss[|ss| - 1].AllExited()
      ensures Progresses(ss)
      decreases Remaining(), CountRunning(), Awake()
    {
      hide AllExited, Progress, Remaining, CountRunning, Awake;
      assert mon.ring.Valid();
      MeasureIsNatural();
      if AllExited() {
        ss := [this];
      } else {
        var s' := NoDeadlock();
        ProgressIsSmaller(s');
        var rest := s'.StopCompletes();
        ss := [this] + rest;
        OneMoreStep(this, rest);
      }
    }
  }

  /** A run of the pool's own threads. */
  ghost predicate Progresses(ss: seq<Pool>) {
    forall k :: 0 <= k < |ss| - 1 ==> ss[k].mon.ring.Valid() && ss[k].Progress(ss[k + 1])
  }

  lemma OneMoreStep(s: Pool, rest: seq<Pool>)
    requires rest != [] && s.mon.ring.Valid() && s.Progress(rest[0]) && Progresses(rest)
    ensures Progresses([s] + rest)
  {
    hide Pool.Progress, Ring.Valid;
    var ss := [s] + rest;
    forall k | 0 <= k < |ss| - 1
      ensures ss[k].mon.ring.Valid() && ss[k].Progress(ss[k + 1])
    {
      if k > 0 {
        assert ss[k] == rest[k - 1] && ss[k + 1] == rest[k];
      }
    }
  }

  // ----- what the workers hold

  /** A running worker holds its task, an exited one the NULL that made it exit. */
  function One(w: Worker, x: Item): nat {
    if (w.Running? && w.task == x) || (w.Exited? && x == Null) then 1 else 0
  }

  function Held(ws: seq<Worker>, x: Item): nat {
    if ws == [] then 0 else Held(ws[..|ws| - 1], x) + One(ws[|ws| - 1], x)
  }

  lemma {:induction false} HeldUpdate(ws: seq<Worker>, w: nat, now: Worker, x: Item)
    requires w < |ws|
    ensures Held(ws[w := now], x) + One(ws[w], x) == Held(ws, x) + One(now, x)
  {
    var n := |ws| - 1;
    if w == n {
      assert ws[w := now][..n] == ws[..n];
    } else {
      HeldUpdate(ws[..n], w, now, x);
      assert ws[w := now][..n] == ws[..n][w := now];
    }
  }

  lemma {:induction false} HeldAllExited(ws: seq<Worker>, x: Item)
    requires forall w :: 0 <= w < |ws| ==> ws[w] == Exited
    ensures Held(ws, x) == if x == Null then |ws| else 0
  {
    if ws != [] {
      HeldAllExited(ws[..|ws| - 1], x);
    }
  }

  lemma {:induction false} NullCount(n: nat, x: Item)
    ensures multiset(NullSeq(n))[x] == if x == Null then n else 0
  {
    if n > 0 {
      NullCount(n - 1, x);
      assert NullSeq(n) == NullSeq(n - 1) + [Null];
    }
  }

  ghost function NullSeq(n: nat): (s: seq<Item>)
    ensures |s| == n && forall k :: 0 <= k < n ==> s[k] == Null
  {
    seq(n, _ => Null)
  }

  /** Only exited workers hold NULLs, so as many NULLs as workers means that all have exited. */
  lemma {:induction false} HeldFull(ws: seq<Worker>)
    requires forall w :: 0 <= w < |ws| && ws[w].Running? ==> ws[w].task != Null
    ensures Held(ws, Null) <= |ws|
    ensures Held(ws, Null) == |ws| ==> forall w :: 0 <= w < |ws| ==> ws[w] == Exited
  {
    if ws != [] {
      HeldFull(ws[..|ws| - 1]);
    }
  }

  function RunningWeight(w: Worker): nat { if w.Running? then 1 else 0 }

  function FreshWeight(w: Worker): nat { if w.Fresh? then 1 else 0 }

  function Sum(ws: seq<Worker>, f: Worker -> nat): nat {
    if ws == [] then 0 else Sum(ws[..|ws| - 1], f) + f(ws[|ws| - 1])
  }

  lemma {:induction false} SumUpdate(ws: seq<Worker>, w: nat, now: Worker, f: Worker -> nat)
    requires w < |ws|
    ensures Sum(ws[w := now], f) + f(ws[w]) == Sum(ws, f) + f(now)
  {
    var n := |ws| - 1;
    if w == n {
      assert ws[w := now][..n] == ws[..n];
    } else {
      SumUpdate(ws[..n], w, now, f);
      assert ws[w := now][..n] == ws[..n][w := now];
    }
  }

  lemma LastItem(a: seq<Item>, b: seq<Item>, c: seq<Item>, d: seq<Item>)
    requires a + b == c + d
    ensures b != [] && d != [] ==> d[|d| - 1] == b[|b| - 1] && multiset(d)[b[|b| - 1]] > 0
  {
    assert b != [] ==> (a + b)[|a + b| - 1] == b[|b| - 1];
    assert d != [] ==> (c + d)[|c + d| - 1] == d[|d| - 1] && d[|d| - 1] in multiset(d);
  }

  lemma CountOfSum(a: seq<Item>, b: seq<Item>, x: Item)
    ensures multiset(a + b)[x] == multiset(a)[x] + multiset(b)[x]
  {}

  ghost predicate Init(s: Pool) {
    && |s.workers| > 0 && (forall w :: 0 <= w < |s.workers| ==> s.workers[w] == Fresh)
    && Monitor.Init(s.mon) && |s.mon.ring.buffer| == |s.workers|
    && s.phase == Serving && s.accepted == [] && s.ran == multiset{}
  }

  ghost predicate Run(ss: seq<Pool>) {
    && ss != [] && Init(ss[0])
    && forall k :: 0 <= k < |ss| - 1 ==> ss[k].mon.ring.Valid() && ss[k].Step(ss[k + 1])
  }

  lemma {:induction false} HeldAllFresh(ws: seq<Worker>, x: Item)
    requires forall w :: 0 <= w < |ws| ==> ws[w] == Fresh
    ensures Held(ws, x) == 0
  {
    if ws != [] {
      HeldAllFresh(ws[..|ws| - 1], x);
    }
  }

  lemma InitInv(s: Pool)
    requires Init(s)
    ensures s.Inv()
  {
    forall x
      ensures s.Tally(x)
    {
      HeldAllFresh(s.workers, x);
    }
    assert forall t :: s.Placed(t);
  }

  lemma RunPrefix(ss: seq<Pool>)
    requires Run(ss) && |ss| > 1
    ensures var n := |ss| - 1;
            Run(ss[..n]) && ss[..n][n - 1] == ss[n - 1] && ss[n - 1].mon.ring.Valid() && ss[n - 1].Step(ss[n])
  {
    hide Init, Pool.Step;
    var n := |ss| - 1;
    forall k | 0 <= k < n - 1
      ensures ss[..n][k].mon.ring.Valid() && ss[..n][k].Step(ss[..n][k + 1])
    {
      assert ss[..n][k] == ss[k] && ss[..n][k + 1] == ss[k + 1];
    }
  }

  lemma {:induction false} RunKeepsInv(ss: seq<Pool>)
    requires Run(ss)
    ensures ss[|ss| - 1].Inv()
  {
    var n := |ss| - 1;
    if n == 0 {
      InitInv(ss[0]);
    } else {
      RunPrefix(ss);
      RunKeepsInv(ss[..n]);
      ss[n - 1].StepKeepsInv(ss[n]);
    }
  }

  /** Poison-pill shutdown is complete in every interleaving. */
  lemma ShutdownComplete(ss: seq<Pool>)
    requires Run(ss) && ss[|ss| - 1].AllExited()
    ensures var s := ss[|ss| - 1];
            && s.mon.ring.Empty() && multiset(s.mon.popped)[Null] == |s.workers| && s.Nulls() == |s.workers|
            && s.ran == multiset(s.accepted)
  {
    RunKeepsInv(ss);
    ss[|ss| - 1].ExitedIsComplete();
  }

  /** Every run in which the stop has begun extends to one in which all workers have exited. */
  lemma StopAlwaysCompletes(ss: seq<Pool>) returns (all: seq<Pool>)
    requires Run(ss) && ss[|ss| - 1].phase.Stopping?
    ensures Run(all) && ss <= all && all[|all| - 1].AllExited()
  {
    RunKeepsInv(ss);
    var n := |ss| - 1;
    var more := ss[n].StopCompletes();
    all := ss[..n] + more;
    forall k | 0 <= k < |all| - 1
      ensures all[k].mon.ring.Valid() && all[k].Step(all[k + 1])
    {
      if k < n {
        assert all[k] == ss[k] && all[k + 1] == ss[k + 1];
      } else {
        assert all[k] == more[k - n] && all[k + 1] == more[k + 1 - n];
      }
    }
  }
}
