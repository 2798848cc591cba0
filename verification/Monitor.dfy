/**
 The blocking queue of limonp/BoundedBlockingQueue.hpp as a monitor: each step is what one thread does
 between acquiring the mutex and either releasing it or starting to wait. A woken thread competes for
 the mutex like any other and checks its condition again; wake-ups may be spurious.
 */
module Monitor {
  import opened BoundedQueue
  import opened Wrappers

  type Tid = nat

  datatype Mon<T(!new)> = Mon(
    ring: Ring<T>,
    waitP: set<Tid>,      // producers asleep on notFull
    readyP: set<Tid>,     // producers woken and about to check again
    signalledP: set<Tid>, // those of them that a signal woke
    args: map<Tid, T>,    // the argument of every producer inside Push
    waitC: set<Tid>,      // consumers asleep on notEmpty
    readyC: set<Tid>,     // consumers woken and about to check again
    signalledC: set<Tid>, // those of them that a signal woke
    pushed: seq<T>,       // everything ever stored
    popped: seq<T>        // everything ever taken
  ) {
    ghost predicate Outside(t: Tid) {
      t !in waitP && t !in readyP && t !in waitC && t !in readyC
    }

    /** A signal wakes at least one sleeper if there is one. */
    ghost predicate Wakes(asleep: set<Tid>, woken: set<Tid>) {
      woken <= asleep && (asleep != {} ==> woken != {})
    }

    /** Thread t, arriving or woken, holds the mutex in Push(x): it stores and signals, or goes to sleep. */
    ghost predicate PushTry(t: Tid, x: T, stored: bool, woken: set<Tid>, m': Mon<T>)
      requires ring.Valid()
    {
      && (Outside(t) || (t in readyP && t in args && args[t] == x))
      && stored == !ring.Full()
      && (if stored then Wakes(waitC, woken) && m' == Stored(t, x, woken) else m' == PushAsleep(t, x))
    }

    ghost function Stored(t: Tid, x: T, woken: set<Tid>): Mon<T>
      requires ring.Valid() && !ring.Full()
    {
      this.(ring := ring.Pushed(x), pushed := pushed + [x],
            readyP := readyP - {t}, signalledP := signalledP - {t}, args := args - {t},
            waitC := waitC - woken, readyC := readyC + woken, signalledC := signalledC + woken)
    }

    ghost function PushAsleep(t: Tid, x: T): Mon<T> {
      this.(waitP := waitP + {t}, readyP := readyP - {t}, signalledP := signalledP - {t}, args := args[t := x])
    }

    /** Thread t holds the mutex in Pop: it takes the head and signals, or goes to sleep. */
    ghost predicate PopTry(t: Tid, taken: bool, x: T, woken: set<Tid>, m': Mon<T>)
      requires ring.Valid()
    {
      && (Outside(t) || t in readyC)
      && taken == !ring.Empty()
      && (if taken then x == ring.buffer[ring.head] && Wakes(waitP, woken) && m' == Taken(t, woken)
          else m' == PopAsleep(t))
    }

    ghost function Taken(t: Tid, woken: set<Tid>): Mon<T>
      requires ring.Valid() && !ring.Empty()
    {
      this.(ring := ring.Popped(), popped := popped + [ring.buffer[ring.head]],
            readyC := readyC - {t}, signalledC := signalledC - {t},
            waitP := waitP - woken, readyP := readyP + woken, signalledP := signalledP + woken)
    }

    ghost function PopAsleep(t: Tid): Mon<T> {
      this.(waitC := waitC + {t}, readyC := readyC - {t}, signalledC := signalledC - {t})
    }

    /** A wake-up without a signal. */
    ghost predicate Spurious(t: Tid, m': Mon<T>) {
      || (t in waitP && m' == this.(waitP := waitP - {t}, readyP := readyP + {t}))
      || (t in waitC && m' == this.(waitC := waitC - {t}, readyC := readyC + {t}))
    }

    ghost predicate Step(m': Mon<T>)
      requires ring.Valid()
    {
      || (exists t, x, stored, woken :: PushTry(t, x, stored, woken, m'))
      || (exists t, x, taken, woken :: PopTry(t, taken, x, woken, m'))
      || (exists t :: Spurious(t, m'))
    }

    /** A thread is in one place at a time, and every waiting producer has its argument. */
    ghost predicate Separate() { forall t :: InOnePlace(t) }

    ghost predicate InOnePlace(t: Tid) {
      && (t in waitP ==> t !in readyP && t !in waitC && t !in readyC)
      && (t in readyP ==> t !in waitC && t !in readyC)
      && (t in waitC ==> t !in readyC)
      && (t in args <==> t in waitP || t in readyP)
    }

    lemma StepsSeparate(t: Tid, m': Mon<T>)
      requires ring.Valid() && Separate()
      requires || (exists x, stored, woken :: PushTry(t, x, stored, woken, m'))
               || (exists x, taken, woken :: PopTry(t, taken, x, woken, m'))
               || Spurious(t, m')
      ensures m'.Separate()
    {
      forall u
        ensures m'.InOnePlace(u)
      {
        assert InOnePlace(u) && InOnePlace(t);
      }
    }

    ghost predicate Fifo()
      requires ring.Valid()
    {
      pushed == popped + ring.Contents()
    }

    /** While somebody sleeps unsignalled, enough signalled others are on their way to every item or free slot. */
    ghost predicate NoLostWakeup() {
      && signalledC <= readyC && signalledP <= readyP
      && (waitC != {} ==> ring.size <= |signalledC|)
      && (waitP != {} ==> |ring.buffer| - ring.size <= |signalledP|)
    }

    ghost predicate Inv() {
      ring.Valid() && Separate() && Fifo() && NoLostWakeup()
    }

    lemma StoredKeepsWakeup(t: Tid, x: T, woken: set<Tid>)
      requires Inv() && !ring.Full() && Wakes(waitC, woken)
      ensures Stored(t, x, woken).NoLostWakeup()
    {
      hide Ring.Valid, Ring.Contents, Ring.Pushed;
      ring.PushedContents(x);
      assert ring.Pushed(x).size == ring.size + 1;
      assert forall u :: u in woken ==> InOnePlace(u);
      Join(signalledC, woken);
      Leave(signalledP, t);
    }

    lemma TakenKeepsWakeup(t: Tid, woken: set<Tid>)
      requires Inv() && !ring.Empty() && Wakes(waitP, woken)
      ensures Taken(t, woken).NoLostWakeup()
    {
      hide Ring.Valid, Ring.Contents, Ring.Popped;
      ring.PoppedContents();
      assert ring.Popped().size == ring.size - 1;
      assert forall u :: u in woken ==> InOnePlace(u);
      Join(signalledP, woken);
      Leave(signalledC, t);
    }

    lemma PushTryKeepsInv(t: Tid, x: T, stored: bool, woken: set<Tid>, m': Mon<T>)
      requires Inv() && PushTry(t, x, stored, woken, m')
      ensures m'.Inv() && |m'.ring.buffer| == |ring.buffer|
    {
      hide Separate, Ring.Valid, Ring.Contents, Wakes;
      StepsSeparate(t, m');
      if stored {
        StoredKeepsWakeup(t, x, woken);
        ring.PushedContents(x);
        Assoc(popped, ring.Contents(), [x]);
      } else {
      }
    }

    lemma PopTryKeepsInv(t: Tid, taken: bool, x: T, woken: set<Tid>, m': Mon<T>)
      requires Inv() && PopTry(t, taken, x, woken, m')
      ensures m'.Inv() && |m'.ring.buffer| == |ring.buffer|
    {
      hide Separate, Ring.Valid, Ring.Contents, Wakes;
      StepsSeparate(t, m');
      if taken {
        TakenKeepsWakeup(t, woken);
        ring.PoppedContents();
        Assoc(popped, [x], ring.Popped().Contents());
      } else {
      }
    }

    lemma SpuriousKeepsInv(t: Tid, m': Mon<T>)
      requires Inv() && Spurious(t, m')
      ensures m'.Inv() && |m'.ring.buffer| == |ring.buffer|
    {
      hide Ring.Valid, Ring.Contents;
      StepsSeparate(t, m');
      assert InOnePlace(t);
    }

    lemma StepKeepsInv(m': Mon<T>)
      requires Inv() && Step(m')
      ensures m'.Inv() && |m'.ring.buffer| == |ring.buffer|
    {
      if t, x, stored, woken :| PushTry(t, x, stored, woken, m') {
        PushTryKeepsInv(t, x, stored, woken, m');
      } else if t, x, taken, woken :| PopTry(t, taken, x, woken, m') {
        PopTryKeepsInv(t, taken, x, woken, m');
      } else {
        var t :| Spurious(t, m');
        SpuriousKeepsInv(t, m');
      }
    }
  }

  lemma Join(s: set<Tid>, woken: set<Tid>)
    ensures |s + woken| >= |s|
    ensures s !! woken && woken != {} ==> |s + woken| >= |s| + 1
  {
    assert |s + woken| == |s| + |woken - s|;
    if woken != {} && s !! woken {
      assert woken - s == woken;
      assert |woken| >= 1;
    }
  }

  lemma Leave(s: set<Tid>, t: Tid)
    ensures |s - {t}| >= |s| - 1
    ensures t !in s ==> s - {t} == s
  {
    if t in s {
      assert s == (s - {t}) + {t};
    }
  }

  ghost predicate Init<T(!new)>(m: Mon<T>) {
    m.ring.Valid() && m.ring.size == 0 && m.pushed == m.popped == []
    && m.waitP == m.readyP == m.signalledP == m.waitC == m.readyC == m.signalledC == {} && m.args == map[]
  }

  /** A run: every state follows from the one before it, with any interleaving, barging and spurious wake-ups. */
  ghost predicate Run<T(!new)>(ms: seq<Mon<T>>) {
    && ms != [] && Init(ms[0])
    && forall k :: 0 <= k < |ms| - 1 ==> ms[k].ring.Valid() && ms[k].Step(ms[k + 1])
  }

  lemma {:induction false} RunKeepsInv<T(!new)>(ms: seq<Mon<T>>)
    requires Run(ms)
    ensures ms[|ms| - 1].Inv() && |ms[|ms| - 1].ring.buffer| == |ms[0].ring.buffer|
  {
    if |ms| > 1 {
      var n := |ms| - 1;
      assert Run(ms[..n]);
      RunKeepsInv(ms[..n]);
      assert ms[..n][n - 1] == ms[n - 1];
      ms[n - 1].StepKeepsInv(ms[n]);
    }
  }

  /** In every run, what was taken is a prefix of what was stored, and the rest is in the buffer, in order. */
  lemma RunIsFifo<T(!new)>(ms: seq<Mon<T>>)
    requires Run(ms)
    ensures var m := ms[|ms| - 1]; m.ring.Valid() && m.popped <= m.pushed && m.pushed[|m.popped|..] == m.ring.Contents()
  {
    RunKeepsInv(ms);
  }

  /** In every run, when no signal is under way, only consumers of an empty queue or producers into a full one sleep. */
  lemma NobodyForgotten<T(!new)>(ms: seq<Mon<T>>)
    requires Run(ms)
    ensures var m := ms[|ms| - 1];
            m.signalledC == {} && m.signalledP == {} ==>
              && (m.waitC != {} ==> m.ring.Empty() && m.waitP == {})
              && (m.waitP != {} ==> m.ring.Full() && m.waitC == {})
  {
    RunKeepsInv(ms);
  }
}
