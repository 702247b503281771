/** When eloop's timeouts fire: each at the first check that finds it first and due, and once. */
module Firing {
  import opened Bytes
  import opened Timeouts

  // One check

  /**
   * The time, in microseconds, from which on a deadline is due. Microseconds below zero do not count: such a
   * deadline is only due with its second.
   */
  function DueFrom(t: Time): int {
    if t.usec < 0 then t.sec * MILLION else Micros(t)
  }

  /** A check fires the first timeout exactly if the clock has reached its deadline. */
  lemma DueAtDeadline(l: Loop, now: Time)
    requires Normal(now) && (l.ts != [] ==> l.ts[0].time.usec < MILLION)
    ensures Due(l, now) == if l.ts != [] && DueFrom(l.ts[0].time) <= Micros(now) then Some(l.ts[0]) else None
    ensures Fire(l, now) == l.(ts := if Due(l, now).Some? then l.ts[1..] else l.ts)
    ensures l.ts != [] && Normal(l.ts[0].time) ==>
              (Due(l, now).Some? <==> Micros(l.ts[0].time) <= Micros(now))
  {}

  /** select waits exactly until the first deadline is due. */
  lemma WaitsUntilDue(now: Time, deadline: Time)
    requires Normal(now) && Normal(deadline)
    ensures Before(now, deadline) ==> Micros(Sub(deadline, now)) == Micros(deadline) - Micros(now) > 0
    ensures !Before(now, deadline) ==> Micros(deadline) <= Micros(now)
  {
    SubIsDifference(deadline, now);
  }

  // Several checks

  function Checks(now: Time, n: nat): seq<Step> {
    if n == 0 then [] else [DoCheck(now)] + Checks(now, n - 1)
  }

  /** The first n timeouts of a list, fired at one time. */
  function FiredNow(ts: seq<Timeout>, now: Time, n: nat): seq<(Timeout, Time)>
    requires n <= |ts|
  {
    seq(n, i requires 0 <= i < n => (ts[i], now))
  }

  /** How many timeouts at the head of the list are due. */
  function DueCount(ts: seq<Timeout>, now: Time): (k: nat)
    ensures k <= |ts|
  {
    if ts != [] && DueFrom(ts[0].time) <= Micros(now) then 1 + DueCount(ts[1..], now) else 0
  }

  /** In a sorted list these are all that are due. */
  lemma {:induction false} DueAreFirst(ts: seq<Timeout>, now: Time)
    requires Sorted(ts) && NotAbove(ts)
    ensures forall i :: 0 <= i < |ts| ==> (DueFrom(ts[i].time) <= Micros(now) <==> i < DueCount(ts, now))
    decreases |ts|
  {
    if ts != [] {
      var rest := ts[1..];
      assert forall i :: 0 <= i < |rest| ==> rest[i] == ts[i + 1];
      DueAreFirst(rest, now);
      forall i | 0 < i < |ts|
        ensures DueFrom(ts[0].time) <= DueFrom(ts[i].time)
        ensures ts[i] == rest[i - 1]
      {
        assert Precedes(ts[0], ts[i]);
      }
    }
  }

  /**
   * Checks at one time fire the timeouts that are due by then, each once and in the order of the list, as many as
   * there are checks.
   */
  lemma {:induction false} DueAreFired(l: Loop, now: Time, n: nat)
    requires Normal(now) && NotAbove(l.ts)
    ensures var k := if n < DueCount(l.ts, now) then n else DueCount(l.ts, now);
            && Fired(l, Checks(now, n)) == FiredNow(l.ts, now, k)
            && Ran(l, Checks(now, n)) == l.(ts := l.ts[k..])
    decreases n
  {
    hide Micros, DueFrom, FiredNow, Due, Fire, After, FiredAt;
    if n == 0 {
      FiredNone(l.ts, now);
      assert l.ts[0..] == l.ts;
    } else {
      var run := Checks(now, n);
      assert run[0] == DoCheck(now) && run[1..] == Checks(now, n - 1);
      OneCheck(l, now);
      var l1 := After(l, DoCheck(now));
      DueAreFired(l1, now, n - 1);
      if DueCount(l.ts, now) > 0 {
        var rest := l.ts[1..];
        var k := if n - 1 < DueCount(rest, now) then n - 1 else DueCount(rest, now);
        FiredFirst(l.ts, now, k);
        assert rest[k..] == l.ts[k + 1..];
      } else {
        FiredNone(l.ts, now);
      }
    }
  }

  lemma OneCheck(l: Loop, now: Time)
    requires Normal(now) && NotAbove(l.ts)
    ensures DueCount(l.ts, now) > 0 ==>
              && l.ts != [] && FiredAt(l, DoCheck(now)) == [(l.ts[0], now)]
              && After(l, DoCheck(now)) == l.(ts := l.ts[1..]) && DueCount(l.ts[1..], now) == DueCount(l.ts, now) - 1
    ensures DueCount(l.ts, now) == 0 ==> FiredAt(l, DoCheck(now)) == [] && After(l, DoCheck(now)) == l
  {
    DueAtDeadline(l, now);
  }

  lemma FiredNone(ts: seq<Timeout>, now: Time)
    ensures FiredNow(ts, now, 0) == []
  {}

  lemma FiredFirst(ts: seq<Timeout>, now: Time, k: nat)
    requires k < |ts|
    ensures FiredNow(ts, now, k + 1) == [(ts[0], now)] + FiredNow(ts[1..], now, k)
  {}

  // Every timeout, over any run

  /** A step that takes a timeout from the list without firing it. */
  predicate Withdraws(s: Step, t: Timeout) {
    match s
    case DoCancel(k) => Matches(t, k.handler, k.eloopData, k.userData)
    case DoCancelOne(_, k) => Same(t, k.handler, k.eloopData, k.userData)
    case DoDeplete(_, _, _, _, k) => Matches(t, k.handler, k.eloopData, k.userData)
    case DoReplenish(_, _, _, _, k) => Matches(t, k.handler, k.eloopData, k.userData)
    case _ => false
  }

  /** The check finds the timeout at the head of the list, and due. */
  predicate Finds(l: Loop, s: Step, t: Timeout) {
    s.DoCheck? && l.ts != [] && l.ts[0] == t && Due(l, s.now).Some?
  }

  /** How often a timeout is among those fired. */
  function Times(f: seq<(Timeout, Time)>, t: Timeout): nat {
    if f == [] then 0 else (if f[0].0 == t then 1 else 0) + Times(f[1..], t)
  }

  lemma TimesOne(a: seq<(Timeout, Time)>, b: seq<(Timeout, Time)>, t: Timeout)
    requires |a| <= 1
    ensures Times(a + b, t) == Times(a, t) + Times(b, t)
  {
    if a == [] {
      assert a + b == b;
    } else {
      assert (a + b)[1..] == b && a[1..] == [];
    }
  }

  lemma RegisterHolds(l: Loop, now: Time, secs: Unsigned, usecs: Unsigned, k: Kind, t: Timeout)
    requires t.order < l.count
    ensures t in Register(l, now, secs, usecs, k).ts <==> t in l.ts
    ensures l.count <= Register(l, now, secs, usecs, k).count
  {
    hide Deadline;
    if Deadline(now, secs, usecs).Some? {
      var added := Timeout(Deadline(now, secs, usecs).value, k.handler, k.eloopData, k.userData, l.count);
      InsertHolds(l.ts, added, t);
    }
  }

  lemma InsertHolds(ts: seq<Timeout>, added: Timeout, t: Timeout)
    ensures t in Insert(ts, added) <==> t in ts || t == added
  {
    var p := Place(ts, added.time);
    assert ts == ts[..p] + ts[p..];
  }

  /** No timeout is in the list twice. */
  lemma HeldOnce(ts: seq<Timeout>, i: nat, t: Timeout)
    requires Sorted(ts) && i < |ts|
    ensures t in ts[..i] + ts[i + 1..] <==> t in ts && t != ts[i]
  {
    var r := ts[..i] + ts[i + 1..];
    assert forall j :: 0 <= j < |r| ==> r[j] == ts[if j < i then j else j + 1];
    if t in ts && t != ts[i] {
      var j :| 0 <= j < |ts| && ts[j] == t;
      assert r[if j < i then j else j - 1] == t;
    }
  }

  /** A step holds a timeout that it does not withdraw, unless it is the check that finds it. */
  lemma StepHolds(l: Loop, s: Step, t: Timeout)
    requires Ok(l) && t.order < l.count && !Withdraws(s, t)
    ensures t in After(l, s).ts <==> t in l.ts && !Finds(l, s, t)
    ensures l.count <= After(l, s).count
    ensures Times(FiredAt(l, s), t) == if Finds(l, s, t) then 1 else 0
  {
    hide Register, Matches, Due, DepleteAnswer, ReplenishAnswer;
    match s
    case DoRegister(now, secs, usecs, k) => RegisterHolds(l, now, secs, usecs, k, t);
    case DoCancel(k) =>
    case DoCancelOne(now, k) =>
      var i := First(l.ts, k.handler, k.eloopData, k.userData);
      if i < |l.ts| { HeldOnce(l.ts, i, t); }
    case DoDeplete(now, later, secs, usecs, k) => RegisterHolds(Cancel(l, k), later, secs, usecs, k, t);
    case DoReplenish(now, later, secs, usecs, k) => RegisterHolds(Cancel(l, k), later, secs, usecs, k, t);
    case DoCheck(now) =>
      DueIsHead(l, now);
      if Due(l, now).Some? {
        HeldOnce(l.ts, 0, t);
        assert l.ts[..0] + l.ts[1..] == l.ts[1..];
      }
  }

  lemma DueIsHead(l: Loop, now: Time)
    ensures Due(l, now).Some? ==> l.ts != []
  {}

  /** The run has a check that finds the timeout. */
  predicate Found(l: Loop, run: seq<Step>, t: Timeout)
    decreases |run|
  {
    run != [] && (Finds(l, run[0], t) || Found(After(l, run[0]), run[1..], t))
  }

  /**
   * Over any run, a timeout that is not withdrawn is fired exactly once if some check finds it first and due, and
   * otherwise it is still in the list.
   */
  lemma {:induction false} FiredOnce(l: Loop, run: seq<Step>, t: Timeout)
    requires Ok(l) && t.order < l.count && forall i :: 0 <= i < |run| ==> !Withdraws(run[i], t)
    ensures Times(Fired(l, run), t) == if t in l.ts && Found(l, run, t) then 1 else 0
    ensures t in Ran(l, run).ts <==> t in l.ts && !Found(l, run, t)
    decreases |run|
  {
    if run != [] {
      hide Ok, After, FiredAt, Finds, Withdraws, Times;
      var s, rest, l1 := run[0], run[1..], After(l, run[0]);
      assert forall i :: 0 <= i < |rest| ==> rest[i] == run[i + 1];
      StepHolds(l, s, t);
      StepKeepsSorted(l, s);
      FiredOnce(l1, rest, t);
      FiredAtMost(l, s);
      TimesOne(FiredAt(l, s), Fired(l1, rest), t);
      FindsHeld(l, s, t);
      FoundHeld(l1, rest, t);
    } else {
      NoTimes(t);
    }
  }

  lemma NoTimes(t: Timeout)
    ensures Times([], t) == 0
  {}

  lemma FiredAtMost(l: Loop, s: Step)
    ensures |FiredAt(l, s)| <= 1
  {}

  lemma FindsHeld(l: Loop, s: Step, t: Timeout)
    ensures Finds(l, s, t) ==> t in l.ts
  {}

  /** A timeout that has gone is not found again: its number is not given twice. */
  lemma {:induction false} FoundHeld(l: Loop, run: seq<Step>, t: Timeout)
    requires Ok(l) && t.order < l.count && forall i :: 0 <= i < |run| ==> !Withdraws(run[i], t)
    ensures Found(l, run, t) ==> t in l.ts
    decreases |run|
  {
    if run != [] {
      hide Ok, After, Finds, Withdraws;
      assert forall i :: 0 <= i < |run[1..]| ==> run[1..][i] == run[i + 1];
      StepHolds(l, run[0], t);
      StepKeepsSorted(l, run[0]);
      FindsHeld(l, run[0], t);
      FoundHeld(After(l, run[0]), run[1..], t);
    }
  }

  // The list after a request

  /** A registration adds one timeout, with the deadline asked for, and changes no other. */
  lemma Registered(l: Loop, now: Time, secs: Unsigned, usecs: Unsigned, k: Kind) returns (added: Timeout)
    requires Ok(l) && Normal(now) && secs < 0x8000_0000
    ensures var l' := Register(l, now, secs, usecs, k);
            && Ok(l') && l'.count == l.count + 1 && |l'.ts| == |l.ts| + 1
            && (forall t :: t in l'.ts <==> t in l.ts || t == added)
    ensures added.order == l.count && Same(added, k.handler, k.eloopData, k.userData) && added.time.usec < MILLION
    ensures Micros(added.time) == Micros(now) + secs * MILLION + ToInt(usecs)
  {
    hide Deadline, Micros;
    RegisterOk(l, now, secs, usecs, k);
    DeadlineIsAsked(now, secs, usecs);
    added := Timeout(Deadline(now, secs, usecs).value, k.handler, k.eloopData, k.userData, l.count);
    DeadlineBelow(now, secs, usecs);
    forall t: Timeout
      ensures t in Insert(l.ts, added) <==> t in l.ts || t == added
    {
      InsertHolds(l.ts, added, t);
    }
  }

  lemma DeadlineBelow(now: Time, secs: Unsigned, usecs: Unsigned)
    ensures Deadline(now, secs, usecs).Some? ==> Deadline(now, secs, usecs).value.usec < MILLION
  {
    CarryKeeps(Time(now.sec + ToInt(secs), now.usec + ToInt(usecs)));
  }

  /** What a deplete or replenish that acts leaves: the others, and the timeout with its added deadline. */
  ghost predicate Renewed(l: Loop, l': Loop, later: Time, secs: Unsigned, usecs: Unsigned, k: Kind, added: Timeout) {
    && Ok(l') && l'.count == l.count + 1
    && (forall t :: t in l'.ts <==>
          t == added || (t in l.ts && !Matches(t, k.handler, k.eloopData, k.userData)))
    && added.order == l.count && Same(added, k.handler, k.eloopData, k.userData)
    && Micros(added.time) == Micros(later) + secs * MILLION + ToInt(usecs)
  }

  /** Depleting and replenishing leave the list alone, or register the timeout again. */
  lemma DepleteAndReplenish(l: Loop, now: Time, later: Time, secs: Unsigned, usecs: Unsigned, k: Kind)
    returns (added: Timeout)
    requires Ok(l) && Normal(later) && secs < 0x8000_0000
    ensures if DepleteAnswer(l, now, secs, usecs, k) == 1
            then Renewed(l, Deplete(l, now, later, secs, usecs, k), later, secs, usecs, k, added)
            else Deplete(l, now, later, secs, usecs, k) == l
    ensures if ReplenishAnswer(l, now, secs, usecs, k) == 1
            then Renewed(l, Replenish(l, now, later, secs, usecs, k), later, secs, usecs, k, added)
            else Replenish(l, now, later, secs, usecs, k) == l
  {
    hide Register, DepleteAnswer, ReplenishAnswer, Matches, Micros;
    CancelOk(l, k);
    added := Registered(Cancel(l, k), later, secs, usecs, k);
  }

  /** eloop_cancel_timeout_one takes one timeout, and says what was left of it, or zero. */
  lemma CancelledOne(l: Loop, now: Time, k: Kind)
    requires Ok(l) && Normal(now) && Waits(l, k)
    ensures var i, (l', removed, left) := First(l.ts, k.handler, k.eloopData, k.userData), CancelOne(l, now, k);
            && removed && Ok(l') && (forall t :: t in l'.ts <==> t in l.ts && t != l.ts[i])
            && Normal(left) && Micros(left) == if Left(l, now, k) > 0 then Left(l, now, k) else 0
  {
    var i := First(l.ts, k.handler, k.eloopData, k.userData);
    SubIsDifference(l.ts[i].time, now);
    BeforeIsLess(now, l.ts[i].time);
    RemoveOk(l, i);
    forall t: Timeout
      ensures t in l.ts[..i] + l.ts[i + 1..] <==> t in l.ts && t != l.ts[i]
    {
      HeldOnce(l.ts, i, t);
    }
  }

  /** eloop_cancel_timeout takes the timeouts of a handler and of its data, where ELOOP_ALL_CTX stands for any data. */
  lemma CancelledAll(l: Loop, k: Kind, t: Timeout)
    ensures t in Cancel(l, k).ts <==>
              t in l.ts
              && (t.handler != k.handler
                  || (k.eloopData != ALL_CTX && t.eloopData != k.eloopData)
                  || (k.userData != ALL_CTX && t.userData != k.userData))
  {
    hide Cancelled;
  }

  /** Of one kind are the timeouts with the same handler and the same data; the first of them is meant. */
  lemma FirstOfKind(ts: seq<Timeout>, k: Kind)
    ensures var i := First(ts, k.handler, k.eloopData, k.userData);
            && (i < |ts| ==>
                ts[i].handler == k.handler && ts[i].eloopData == k.eloopData && ts[i].userData == k.userData)
            && (forall j :: 0 <= j < i ==>
                  ts[j].handler != k.handler || ts[j].eloopData != k.eloopData || ts[j].userData != k.userData)
  {
    hide First;
  }
}
