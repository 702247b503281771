/** eloop's timeouts as a sequence in the order of the list, and runs of the event loop over it. */
module Timeouts {
  import opened Bytes

  const MILLION := 1000000

  /** struct os_reltime */
  datatype Time = Time(sec: int, usec: int)

  predicate Normal(t: Time) {
    0 <= t.usec < MILLION
  }

  /** The time in microseconds. */
  function Micros(t: Time): int {
    t.sec * MILLION + t.usec
  }

  /** os_reltime_before */
  predicate Before(a: Time, b: Time) {
    a.sec < b.sec || (a.sec == b.sec && a.usec < b.usec)
  }

  /** os_reltime_sub */
  function Sub(a: Time, b: Time): Time {
    if a.usec - b.usec < 0 then Time(a.sec - b.sec - 1, a.usec - b.usec + MILLION)
        else Time(a.sec - b.sec, a.usec - b.usec)
  }

  lemma BeforeIsLess(a: Time, b: Time)
    requires Normal(a) && Normal(b)
    ensures Before(a, b) <==> Micros(a) < Micros(b)
    ensures Micros(a) == Micros(b) <==> a == b
  {}

  lemma SubIsDifference(a: Time, b: Time)
    requires Normal(a) && Normal(b)
    ensures Normal(Sub(a, b)) && Micros(Sub(a, b)) == Micros(a) - Micros(b)
  {}

  // Deadlines

  /** An unsigned int converted to int. */
  function ToInt(u: nat): int
    requires u < 0x1_0000_0000
  {
    if u < 0x8000_0000 then u else u - 0x1_0000_0000
  }

  type Unsigned = u: int | 0 <= u < 0x1_0000_0000

  /** The loop of eloop_register_timeout that brings microseconds into range from above. */
  function Carry(t: Time): Time
    decreases if t.usec >= MILLION then t.usec else 0
  {
    if t.usec >= MILLION then Carry(Time(t.sec + 1, t.usec - MILLION)) else t
  }

  /** The deadline eloop_register_timeout gives, or none for a timeout it takes to be infinite. */
  function Deadline(now: Time, secs: Unsigned, usecs: Unsigned): Option<Time> {
    if now.sec + ToInt(secs) < now.sec then None
    else Some(Carry(Time(now.sec + ToInt(secs), now.usec + ToInt(usecs))))
  }

  lemma {:induction false} CarryKeeps(t: Time)
    ensures Micros(Carry(t)) == Micros(t) && Carry(t).usec < MILLION
    ensures t.usec >= 0 <==> Normal(Carry(t))
    ensures t.usec < 0 ==> Carry(t) == t
    decreases if t.usec >= MILLION then t.usec else 0
  {
    if t.usec >= MILLION {
      CarryKeeps(Time(t.sec + 1, t.usec - MILLION));
    }
  }

  /**
   * A deadline is what was asked for, with both numbers read as int; a number of seconds from 2^31 on is taken to be
   * infinite.
   */
  lemma DeadlineIsAsked(now: Time, secs: Unsigned, usecs: Unsigned)
    requires Normal(now)
    ensures Deadline(now, secs, usecs).None? <==> secs >= 0x8000_0000
    ensures Deadline(now, secs, usecs).Some? ==>
              Micros(Deadline(now, secs, usecs).value) == Micros(now) + secs * MILLION + ToInt(usecs)
  {
    CarryKeeps(Time(now.sec + ToInt(secs), now.usec + ToInt(usecs)));
  }

  /** A deadline is in range exactly if its microseconds are not below zero before they are brought into range. */
  lemma DeadlineNormal(now: Time, secs: Unsigned, usecs: Unsigned)
    requires Normal(now) && secs < 0x8000_0000
    ensures Normal(Deadline(now, secs, usecs).value) <==> now.usec + ToInt(usecs) >= 0
    ensures usecs < 0x8000_0000
            ==> Normal(Deadline(now, secs, usecs).value) && !Before(Deadline(now, secs, usecs).value, now)
  {
    CarryKeeps(Time(now.sec + ToInt(secs), now.usec + ToInt(usecs)));
    DeadlineIsAsked(now, secs, usecs);
    if usecs < 0x8000_0000 {
      BeforeIsLess(Deadline(now, secs, usecs).value, now);
    }
  }

  /**
   * When a deadline is in the past: for the order of the list, exactly for timeouts of no seconds and 2^31
   * microseconds or more; in fact also if the seconds do not make up for the microseconds, read as negative.
   */
  lemma DeadlineInThePast(now: Time, secs: Unsigned, usecs: Unsigned)
    requires Normal(now) && secs < 0x8000_0000
    ensures var d := Deadline(now, secs, usecs).value;
            && (Before(d, now) <==> secs == 0 && usecs >= 0x8000_0000)
            && (Micros(d) < Micros(now) <==> usecs >= 0x8000_0000 && secs * MILLION < 0x1_0000_0000 - usecs)
  {
    var t := Time(now.sec + secs, now.usec + ToInt(usecs));
    CarryKeeps(t);
    CarryOnlyAdds(t);
  }

  lemma {:induction false} CarryOnlyAdds(t: Time)
    ensures Carry(t).sec >= t.sec && (Carry(t).sec == t.sec ==> Carry(t).usec == t.usec)
    ensures t.usec < MILLION ==> Carry(t) == t
    decreases if t.usec >= MILLION then t.usec else 0
  {
    if t.usec >= MILLION {
      CarryOnlyAdds(Time(t.sec + 1, t.usec - MILLION));
    }
  }

  // The list

  const ALL_CTX: int := -1

  /** struct eloop_timeout. `order` numbers the registrations; the source does not store it. */
  datatype Timeout = Timeout(time: Time, handler: int, eloopData: int, userData: int, order: nat)

  /** Where a timeout goes: before the first one with a later deadline. */
  function Place(ts: seq<Timeout>, time: Time): (p: nat)
    ensures p <= |ts|
    ensures forall i :: 0 <= i < p ==> !Before(time, ts[i].time)
    ensures p < |ts| ==> Before(time, ts[p].time)
  {
    if ts == [] then 0 else if Before(time, ts[0].time) then 0 else 1 + Place(ts[1..], time)
  }

  function Insert(ts: seq<Timeout>, t: Timeout): seq<Timeout> {
    var p := Place(ts, t.time);
    ts[..p] + [t] + ts[p..]
  }

  /** Earlier deadlines first, and earlier registrations first among equal deadlines. */
  predicate Precedes(a: Timeout, b: Timeout) {
    Before(a.time, b.time) || (a.time == b.time && a.order < b.order)
  }

  predicate Sorted(ts: seq<Timeout>) {
    forall i, j :: 0 <= i < j < |ts| ==> Precedes(ts[i], ts[j])
  }

  lemma InsertKeepsSorted(ts: seq<Timeout>, t: Timeout)
    requires Sorted(ts) && forall i :: 0 <= i < |ts| ==> ts[i].order < t.order
    ensures Sorted(Insert(ts, t))
  {
    var p, s := Place(ts, t.time), Insert(ts, t);
    forall i, j | 0 <= i < j < |s|
      ensures Precedes(s[i], s[j])
    {
      assert s[i] == if i < p then ts[i] else if i == p then t else ts[i - 1];
      assert s[j] == if j < p then ts[j] else if j == p then t else ts[j - 1];
    }
  }

  /** The test of eloop_cancel_timeout */
  predicate Matches(t: Timeout, handler: int, eloopData: int, userData: int) {
    && t.handler == handler
    && (t.eloopData == eloopData || eloopData == ALL_CTX)
    && (t.userData == userData || userData == ALL_CTX)
  }

  /** The test of the other functions */
  predicate Same(t: Timeout, handler: int, eloopData: int, userData: int) {
    t.handler == handler && t.eloopData == eloopData && t.userData == userData
  }

  /** The timeouts that are left after eloop_cancel_timeout */
  function Cancelled(ts: seq<Timeout>, handler: int, eloopData: int, userData: int): (r: seq<Timeout>)
    ensures |r| <= |ts|
    ensures forall t :: t in r <==> t in ts && !Matches(t, handler, eloopData, userData)
  {
    if ts == [] then []
    else
      var rest := Cancelled(ts[1..], handler, eloopData, userData);
      if Matches(ts[0], handler, eloopData, userData) then rest else [ts[0]] + rest
  }

  lemma {:induction false} CancelKeepsSorted(ts: seq<Timeout>, handler: int, eloopData: int, userData: int)
    requires Sorted(ts)
    ensures Sorted(Cancelled(ts, handler, eloopData, userData))
    decreases |ts|
  {
    if ts != [] {
      CancelKeepsSorted(ts[1..], handler, eloopData, userData);
      var rest := Cancelled(ts[1..], handler, eloopData, userData);
      forall j | 0 <= j < |rest|
        ensures Precedes(ts[0], rest[j])
      {
        assert rest[j] in ts[1..];
        var k :| 0 <= k < |ts[1..]| && ts[1..][k] == rest[j];
        assert ts[k + 1] == rest[j];
      }
    }
  }

  /** The first timeout of a kind, or the length if there is none. */
  function First(ts: seq<Timeout>, handler: int, eloopData: int, userData: int): (i: nat)
    ensures i <= |ts| && (i < |ts| ==> Same(ts[i], handler, eloopData, userData))
    ensures forall j :: 0 <= j < i ==> !Same(ts[j], handler, eloopData, userData)
  {
    if ts == [] then 0
    else if Same(ts[0], handler, eloopData, userData) then 0
    else 1 + First(ts[1..], handler, eloopData, userData)
  }

  // Operations

  /** The list, and how many timeouts have been registered. */
  datatype Loop = Loop(ts: seq<Timeout>, count: nat)

  predicate Ok(l: Loop) {
    Sorted(l.ts) && forall i :: 0 <= i < |l.ts| ==> l.ts[i].order < l.count
  }

  datatype Kind = Kind(handler: int, eloopData: int, userData: int)

  function Register(l: Loop, now: Time, secs: Unsigned, usecs: Unsigned, k: Kind): Loop {
    match Deadline(now, secs, usecs)
    case None => l
    case Some(time) => Loop(Insert(l.ts, Timeout(time, k.handler, k.eloopData, k.userData, l.count)), l.count + 1)
  }

  function Cancel(l: Loop, k: Kind): Loop {
    l.(ts := Cancelled(l.ts, k.handler, k.eloopData, k.userData))
  }

  /** eloop_cancel_timeout_one: also the time that was left, zero if the deadline has passed. */
  function CancelOne(l: Loop, now: Time, k: Kind): (r: (Loop, bool, Time)) {
    var i := First(l.ts, k.handler, k.eloopData, k.userData);
    if i == |l.ts| then (l, false, Time(0, 0))
    else
      (l.(ts := l.ts[..i] + l.ts[i + 1..]), true,
       if Before(now, l.ts[i].time) then Sub(l.ts[i].time, now) else Time(0, 0))
  }

  /** The end of eloop_deplete_timeout and eloop_replenish_timeout. */
  function Again(l: Loop, later: Time, secs: Unsigned, usecs: Unsigned, k: Kind): Loop {
    Register(Cancel(l, k), later, secs, usecs, k)
  }

  /** What eloop_deplete_timeout answers: 1 if the time left is more than requested, 0 if not, -1 for no timeout. */
  function DepleteAnswer(l: Loop, now: Time, secs: Unsigned, usecs: Unsigned, k: Kind): int {
    var i := First(l.ts, k.handler, k.eloopData, k.userData);
    if i == |l.ts| then -1
    else if Before(Time(ToInt(secs), ToInt(usecs)), Sub(l.ts[i].time, now)) then 1 else 0
  }

  function Deplete(l: Loop, now: Time, later: Time, secs: Unsigned, usecs: Unsigned, k: Kind): Loop {
    if DepleteAnswer(l, now, secs, usecs, k) == 1 then Again(l, later, secs, usecs, k) else l
  }

  /** eloop_replenish_timeout: 1 if the time left is less than requested. */
  function ReplenishAnswer(l: Loop, now: Time, secs: Unsigned, usecs: Unsigned, k: Kind): int {
    var i := First(l.ts, k.handler, k.eloopData, k.userData);
    if i == |l.ts| then -1
    else if Before(Sub(l.ts[i].time, now), Time(ToInt(secs), ToInt(usecs))) then 1 else 0
  }

  function Replenish(l: Loop, now: Time, later: Time, secs: Unsigned, usecs: Unsigned, k: Kind): Loop {
    if ReplenishAnswer(l, now, secs, usecs, k) == 1 then Again(l, later, secs, usecs, k) else l
  }

  /** The check of eloop_run: the first timeout is due, or none is. */
  function Due(l: Loop, now: Time): Option<Timeout> {
    if l.ts != [] && !Before(now, l.ts[0].time) then Some(l.ts[0]) else None
  }

  function Fire(l: Loop, now: Time): Loop {
    if Due(l, now).Some? then l.(ts := l.ts[1..]) else l
  }

  function Clamp(x: int, low: int, high: int): int {
    if x < low then low else if x > high then high else x
  }

  /** The first timeout of a kind has this many microseconds left. */
  function Left(l: Loop, now: Time, k: Kind): int
    requires First(l.ts, k.handler, k.eloopData, k.userData) < |l.ts|
  {
    Micros(l.ts[First(l.ts, k.handler, k.eloopData, k.userData)].time) - Micros(now)
  }

  predicate Waits(l: Loop, k: Kind) {
    var i := First(l.ts, k.handler, k.eloopData, k.userData);
    i < |l.ts| && Normal(l.ts[i].time)
  }

  /**
   * What the answers compare with the time left: the seconds and microseconds asked for, but the
   * microseconds, which are not brought into range, count for no more than a second.
   */
  lemma Answers(l: Loop, now: Time, secs: Unsigned, usecs: Unsigned, k: Kind)
    requires Normal(now) && Waits(l, k)
    ensures DepleteAnswer(l, now, secs, usecs, k) == 1
            <==> ToInt(secs) * MILLION + Clamp(ToInt(usecs), -1, MILLION - 1) < Left(l, now, k)
    ensures ReplenishAnswer(l, now, secs, usecs, k) == 1
            <==> Left(l, now, k) < ToInt(secs) * MILLION + Clamp(ToInt(usecs), 0, MILLION)
  {
    SubIsDifference(l.ts[First(l.ts, k.handler, k.eloopData, k.userData)].time, now);
  }

  /** The deadline of the first timeout of a kind, and the one it gets if it is registered again at `later`. */
  function Was(l: Loop, k: Kind): int
    requires First(l.ts, k.handler, k.eloopData, k.userData) < |l.ts|
  {
    Micros(l.ts[First(l.ts, k.handler, k.eloopData, k.userData)].time)
  }

  function Becomes(later: Time, secs: Unsigned, usecs: Unsigned): int
    requires secs < 0x8000_0000
  {
    Micros(Deadline(later, secs, usecs).value)
  }

  /**
   * Depleting shortens and replenishing prolongs the first timeout of its kind, exactly if the time left does not
   * lie between what was asked for and what it counts for. The clock is read at `now` for the answer, and again
   * at `later` for the new deadline, which moves by what lies between.
   */
  lemma DepleteShortens(l: Loop, now: Time, later: Time, secs: Unsigned, usecs: Unsigned, k: Kind)
    requires Normal(now) && Normal(later) && Waits(l, k) && secs < 0x8000_0000
    ensures var rest, u, delay := Left(l, now, k) - secs * MILLION, ToInt(usecs), Micros(later) - Micros(now);
            var less, more := Clamp(u, -1, MILLION - 1), Clamp(u, 0, MILLION);
            && ((DepleteAnswer(l, now, secs, usecs, k) == 1 <==> Becomes(later, secs, usecs) < Was(l, k))
                <==> !(less < rest <= u + delay || u + delay < rest <= less))
            && ((ReplenishAnswer(l, now, secs, usecs, k) == 1 <==> Becomes(later, secs, usecs) > Was(l, k))
                <==> !(more <= rest < u + delay || u + delay <= rest < more))
  {
    DeadlineIsAsked(later, secs, usecs);
    Answers(l, now, secs, usecs, k);
  }

  /** If the clock does not move in between, only microseconds out of range come into it. */
  lemma DepleteAtOnce(l: Loop, now: Time, secs: Unsigned, usecs: Unsigned, k: Kind)
    requires Normal(now) && Waits(l, k) && secs < 0x8000_0000
    ensures var rest, u := Left(l, now, k) - secs * MILLION, ToInt(usecs);
            && ((DepleteAnswer(l, now, secs, usecs, k) == 1 <==> Becomes(now, secs, usecs) < Was(l, k))
                <==> !(MILLION <= rest <= u || u < rest < 0))
            && ((ReplenishAnswer(l, now, secs, usecs, k) == 1 <==> Becomes(now, secs, usecs) > Was(l, k))
                <==> !(MILLION <= rest < u || u <= rest < 0))
  {
    DepleteShortens(l, now, now, secs, usecs, k);
  }

  /**
   * Less than a second of microseconds is always compared rightly. Then depleting prolongs only a timeout that
   * has little more left than was asked for, less than the clock moves in between, and replenishing always prolongs.
   */
  lemma DepleteInRange(l: Loop, now: Time, later: Time, secs: Unsigned, usecs: Unsigned, k: Kind)
    requires Normal(now) && Normal(later) && Waits(l, k) && secs < 0x8000_0000 && usecs <= MILLION
    requires Micros(now) <= Micros(later)
    ensures var asked, delay := secs * MILLION + usecs, Micros(later) - Micros(now);
            && (usecs < MILLION ==> (DepleteAnswer(l, now, secs, usecs, k) == 1 <==> asked < Left(l, now, k)))
            && (Becomes(later, secs, usecs) < Was(l, k) <==> asked + delay < Left(l, now, k))
            && (ReplenishAnswer(l, now, secs, usecs, k) == 1 <==> asked > Left(l, now, k))
            && (Becomes(later, secs, usecs) > Was(l, k) <==> asked + delay > Left(l, now, k))
  {
    DeadlineIsAsked(later, secs, usecs);
    Answers(l, now, secs, usecs, k);
  }

  /** Depleting to five million microseconds prolongs a timeout of one second to five. */
  lemma DepleteLengthens(k: Kind)
    ensures var now, one := Time(0, 0), Timeout(Time(1, 0), k.handler, k.eloopData, k.userData, 0);
            && DepleteAnswer(Loop([one], 1), now, 0, 5000000, k) == 1
            && Deadline(now, 0, 5000000) == Some(Time(5, 0))
            && Deplete(Loop([one], 1), now, now, 0, 5000000, k).ts == [one.(time := Time(5, 0), order := 1)]
  {
    var one := Timeout(Time(1, 0), k.handler, k.eloopData, k.userData, 0);
    assert Carry(Time(3, 2000000)) == Carry(Time(4, 1000000)) == Time(5, 0);
    assert Carry(Time(0, 5000000)) == Carry(Time(1, 4000000)) == Carry(Time(2, 3000000)) == Time(5, 0);
    assert Cancelled([one], k.handler, k.eloopData, k.userData) == [];
  }

  /** Depleting to 2^31 seconds or more cancels the timeout for good, and answers 1. */
  lemma DepleteForEver(l: Loop, now: Time, later: Time, secs: Unsigned, usecs: Unsigned, k: Kind)
    requires Normal(now) && Waits(l, k) && secs >= 0x8000_0000 && Left(l, now, k) >= 0
    ensures DepleteAnswer(l, now, secs, usecs, k) == 1 && Deplete(l, now, later, secs, usecs, k) == Cancel(l, k)
  {
    Answers(l, now, secs, usecs, k);
  }

  // Runs

  /** What handlers and callers may do, and the check of eloop_run, each with its readings of the clock. */
  datatype Step =
    | DoRegister(now: Time, secs: Unsigned, usecs: Unsigned, kind: Kind)
    | DoCancel(kind: Kind)
    | DoCancelOne(now: Time, kind: Kind)
    | DoDeplete(now: Time, later: Time, secs: Unsigned, usecs: Unsigned, kind: Kind)
    | DoReplenish(now: Time, later: Time, secs: Unsigned, usecs: Unsigned, kind: Kind)
    | DoCheck(now: Time)

  function After(l: Loop, s: Step): Loop {
    match s
    case DoRegister(now, secs, usecs, k) => Register(l, now, secs, usecs, k)
    case DoCancel(k) => Cancel(l, k)
    case DoCancelOne(now, k) => CancelOne(l, now, k).0
    case DoDeplete(now, later, secs, usecs, k) => Deplete(l, now, later, secs, usecs, k)
    case DoReplenish(now, later, secs, usecs, k) => Replenish(l, now, later, secs, usecs, k)
    case DoCheck(now) => Fire(l, now)
  }

  function FiredAt(l: Loop, s: Step): seq<(Timeout, Time)> {
    if s.DoCheck? && Due(l, s.now).Some? then [(l.ts[0], s.now)] else []
  }

  /** The timeouts a run fires, each with the reading of the clock at which it fires. */
  function Fired(l: Loop, run: seq<Step>): seq<(Timeout, Time)>
    decreases |run|
  {
    if run == [] then [] else FiredAt(l, run[0]) + Fired(After(l, run[0]), run[1..])
  }

  predicate NotEarlier(a: Time, b: Time) {
    Normal(b) && Micros(a) <= Micros(b)
  }

  /** A step that reads the clock monotonically. */
  predicate Reads(clock: Time, s: Step) {
    match s
    case DoRegister(now, _, _, _) => NotEarlier(clock, now)
    case DoCancel(_) => true
    case DoCancelOne(now, _) => NotEarlier(clock, now)
    case DoDeplete(now, later, _, _, _) => NotEarlier(clock, now) && NotEarlier(now, later)
    case DoReplenish(now, later, _, _, _) => NotEarlier(clock, now) && NotEarlier(now, later)
    case DoCheck(now) => NotEarlier(clock, now)
  }

  /** The last reading of a step. */
  function LastReading(clock: Time, s: Step): Time {
    match s
    case DoRegister(now, _, _, _) => now
    case DoCancel(_) => clock
    case DoCancelOne(now, _) => now
    case DoDeplete(_, later, _, _, _) => later
    case DoReplenish(_, later, _, _, _) => later
    case DoCheck(now) => now
  }

  predicate Monotone(clock: Time, run: seq<Step>)
    decreases |run|
  {
    run == [] || (Reads(clock, run[0]) && Monotone(LastReading(clock, run[0]), run[1..]))
  }

  /** The requests that cannot disturb the order of deadlines. */
  predicate Orderly(secs: Unsigned, usecs: Unsigned) {
    secs >= 0x8000_0000 || usecs < 0x8000_0000 || (secs > 0 && usecs == 0xffff_ffff)
  }

  /** A step with an orderly request, or without one, or with the request (secs, usecs). */
  predicate Asks(s: Step, secs: Unsigned, usecs: Unsigned) {
    && (s.DoRegister? || s.DoDeplete? || s.DoReplenish? ==>
          Orderly(s.secs, s.usecs) || (s.secs == secs && s.usecs == usecs))
  }

  // The order of the list, over any run

  lemma RegisterOk(l: Loop, now: Time, secs: Unsigned, usecs: Unsigned, k: Kind)
    requires Ok(l)
    ensures Ok(Register(l, now, secs, usecs, k))
  {
    if secs < 0x8000_0000 {
      var time := Deadline(now, secs, usecs).value;
      var t := Timeout(time, k.handler, k.eloopData, k.userData, l.count);
      InsertKeepsSorted(l.ts, t);
      var p, s := Place(l.ts, time), Insert(l.ts, t);
      assert forall i :: 0 <= i < |s| ==> s[i] == if i < p then l.ts[i] else if i == p then t else l.ts[i - 1];
    }
  }

  lemma CancelOk(l: Loop, k: Kind)
    requires Ok(l)
    ensures Ok(Cancel(l, k))
  {
    CancelKeepsSorted(l.ts, k.handler, k.eloopData, k.userData);
    var r := Cancel(l, k).ts;
    forall i | 0 <= i < |r|
      ensures r[i].order < l.count
    {
      assert r[i] in l.ts;
    }
  }

  lemma RemoveOk(l: Loop, i: nat)
    requires Ok(l) && i < |l.ts|
    ensures Ok(l.(ts := l.ts[..i] + l.ts[i + 1..]))
  {
    var r := l.ts[..i] + l.ts[i + 1..];
    assert forall j :: 0 <= j < |r| ==> r[j] == l.ts[if j < i then j else j + 1];
  }

  /** Every step keeps the list sorted, whatever the clock and the request. */
  lemma StepKeepsSorted(l: Loop, s: Step)
    requires Ok(l)
    ensures Ok(After(l, s))
  {
    hide Ok, Register, Cancelled;
    match s
    case DoRegister(now, secs, usecs, k) => RegisterOk(l, now, secs, usecs, k);
    case DoCancel(k) => CancelOk(l, k);
    case DoCancelOne(now, k) =>
      var i := First(l.ts, k.handler, k.eloopData, k.userData);
      if i < |l.ts| { RemoveOk(l, i); }
    case DoDeplete(now, later, secs, usecs, k) =>
      CancelOk(l, k);
      RegisterOk(Cancel(l, k), later, secs, usecs, k);
    case DoReplenish(now, later, secs, usecs, k) =>
      CancelOk(l, k);
      RegisterOk(Cancel(l, k), later, secs, usecs, k);
    case DoCheck(now) =>
      if Due(l, now).Some? {
        RemoveOk(l, 0);
        assert l.ts[..0] + l.ts[1..] == l.ts[1..];
      }
  }

  lemma {:induction false} RunKeepsSorted(l: Loop, run: seq<Step>)
    requires Ok(l)
    ensures Ok(Ran(l, run))
    decreases |run|
  {
    if run != [] {
      hide Ok, After;
      StepKeepsSorted(l, run[0]);
      RunKeepsSorted(After(l, run[0]), run[1..]);
    }
  }

  // Nothing fires early, over any run

  /** Deadlines may be below their range, but never above. */
  predicate NotAbove(ts: seq<Timeout>) {
    forall i :: 0 <= i < |ts| ==> ts[i].time.usec < MILLION
  }

  lemma StepKeepsNotAbove(l: Loop, s: Step)
    requires NotAbove(l.ts)
    ensures NotAbove(After(l, s).ts)
  {
    hide Cancelled, Carry;
    if s.DoRegister? {
      RegisterNotAbove(l, s.now, s.secs, s.usecs, s.kind);
    } else if s.DoDeplete? || s.DoReplenish? {
      CancelNotAbove(l, s.kind);
      RegisterNotAbove(Cancel(l, s.kind), s.later, s.secs, s.usecs, s.kind);
    } else if s.DoCancel? {
      CancelNotAbove(l, s.kind);
    }
  }

  lemma RegisterNotAbove(l: Loop, now: Time, secs: Unsigned, usecs: Unsigned, k: Kind)
    requires NotAbove(l.ts)
    ensures NotAbove(Register(l, now, secs, usecs, k).ts)
  {
    hide Carry;
    CarryKeeps(Time(now.sec + ToInt(secs), now.usec + ToInt(usecs)));
  }

  lemma CancelNotAbove(l: Loop, k: Kind)
    requires NotAbove(l.ts)
    ensures NotAbove(Cancel(l, k).ts)
  {
    var r := Cancel(l, k).ts;
    forall i | 0 <= i < |r|
      ensures r[i].time.usec < MILLION
    {
      assert r[i] in l.ts;
    }
  }

  /** Over any run, whatever the clock does and whatever is asked for, no timeout fires before its deadline. */
  lemma {:induction false} NeverEarly(l: Loop, run: seq<Step>, i: nat)
    requires NotAbove(l.ts) && i < |Fired(l, run)|
    ensures var (t, now) := Fired(l, run)[i]; Normal(now) ==> Micros(t.time) <= Micros(now)
    decreases |run|
  {
    hide After, Micros;
    StepKeepsNotAbove(l, run[0]);
    if run[0].DoCheck? && Due(l, run[0].now).Some? {
      if i == 0 {
        if Normal(run[0].now) { LexNotAbove(l.ts[0].time, run[0].now); }
      } else {
        NeverEarly(After(l, run[0]), run[1..], i - 1);
      }
    } else {
      NeverEarly(After(l, run[0]), run[1..], i);
    }
  }

  lemma LexNotAbove(a: Time, b: Time)
    requires a.usec < MILLION && b.usec >= -1 && !Before(b, a)
    ensures Micros(a) <= Micros(b)
  {}

  // Deadlines fire in order, over any run with a monotone clock and orderly requests

  /** A deadline in range, or one microsecond below it, that is not before `last`. */
  predicate Later(last: Time, t: Time) {
    -1 <= t.usec < MILLION && Micros(last) <= Micros(t)
  }

  /** Everything that waits is in order and not due before `last`, the deadline fired last. */
  predicate Waiting(l: Loop, clock: Time, last: Time) {
    && Ok(l) && Normal(clock) && Micros(last) <= Micros(clock)
    && forall i :: 0 <= i < |l.ts| ==> Later(last, l.ts[i].time)
  }

  lemma OrderlyDeadline(now: Time, secs: Unsigned, usecs: Unsigned)
    requires Normal(now) && Orderly(secs, usecs) && secs < 0x8000_0000
    ensures Later(now, Deadline(now, secs, usecs).value)
  {
    DeadlineIsAsked(now, secs, usecs);
    CarryKeeps(Time(now.sec + secs, now.usec + ToInt(usecs)));
  }

  lemma RegisterKeeps(l: Loop, now: Time, secs: Unsigned, usecs: Unsigned, k: Kind, last: Time)
    requires Waiting(l, now, last) && Orderly(secs, usecs)
    ensures Waiting(Register(l, now, secs, usecs, k), now, last)
  {
    hide Ok;
    RegisterOk(l, now, secs, usecs, k);
    if secs < 0x8000_0000 {
      hide Deadline;
      OrderlyDeadline(now, secs, usecs);
      DeadlineIsAsked(now, secs, usecs);
      var time := Deadline(now, secs, usecs).value;
      var t := Timeout(time, k.handler, k.eloopData, k.userData, l.count);
      var p, s := Place(l.ts, time), Insert(l.ts, t);
      assert forall i :: 0 <= i < |s| ==> s[i] == if i < p then l.ts[i] else if i == p then t else l.ts[i - 1];
    }
  }

  lemma CancelKeeps(l: Loop, clock: Time, k: Kind, last: Time)
    requires Waiting(l, clock, last)
    ensures Waiting(Cancel(l, k), clock, last)
  {
    hide Ok;
    CancelOk(l, k);
    var r := Cancel(l, k).ts;
    forall i | 0 <= i < |r|
      ensures Later(last, r[i].time)
    {
      assert r[i] in l.ts;
    }
  }

  lemma RemoveKeeps(l: Loop, clock: Time, i: nat, last: Time)
    requires Waiting(l, clock, last) && i < |l.ts|
    ensures Waiting(l.(ts := l.ts[..i] + l.ts[i + 1..]), clock, last)
  {
    hide Ok;
    RemoveOk(l, i);
    var r := l.ts[..i] + l.ts[i + 1..];
    assert forall j :: 0 <= j < |r| ==> r[j] == l.ts[if j < i then j else j + 1];
  }

  lemma LaterKeeps(l: Loop, clock: Time, later: Time, last: Time)
    requires Waiting(l, clock, last) && NotEarlier(clock, later)
    ensures Waiting(l, later, last)
  {}

  lemma StepKeeps(l: Loop, s: Step, clock: Time, last: Time)
    requires Waiting(l, clock, last) && Reads(clock, s) && Asks(s, 0, 0)
    ensures s.DoCheck? && Due(l, s.now).Some? ==>
              && Micros(last) <= Micros(l.ts[0].time)
              && Waiting(After(l, s), s.now, l.ts[0].time)
    ensures !(s.DoCheck? && Due(l, s.now).Some?) ==> Waiting(After(l, s), LastReading(clock, s), last)
  {
    hide Waiting, Register, Cancelled;
    match s
    case DoRegister(now, secs, usecs, k) =>
      LaterKeeps(l, clock, now, last);
      RegisterKeeps(l, now, secs, usecs, k, last);
    case DoCancel(k) => CancelKeeps(l, clock, k, last);
    case DoCancelOne(now, k) =>
      LaterKeeps(l, clock, now, last);
      var i := First(l.ts, k.handler, k.eloopData, k.userData);
      if i < |l.ts| { RemoveKeeps(l, now, i, last); }
    case DoDeplete(now, later, secs, usecs, k) =>
      LaterKeeps(l, clock, now, last);
      LaterKeeps(l, now, later, last);
      CancelKeeps(l, later, k, last);
      RegisterKeeps(Cancel(l, k), later, secs, usecs, k, last);
    case DoReplenish(now, later, secs, usecs, k) =>
      LaterKeeps(l, clock, now, last);
      LaterKeeps(l, now, later, last);
      CancelKeeps(l, later, k, last);
      RegisterKeeps(Cancel(l, k), later, secs, usecs, k, last);
    case DoCheck(now) =>
      LaterKeeps(l, clock, now, last);
      if Due(l, now).Some? { FireKeeps(l, now, last); }
  }

  lemma FireKeeps(l: Loop, now: Time, last: Time)
    requires Waiting(l, now, last) && Due(l, now).Some?
    ensures Waiting(Fire(l, now), now, l.ts[0].time) && Micros(last) <= Micros(l.ts[0].time)
  {
    LexNotAbove(l.ts[0].time, now);
    var r := l.ts[1..];
    assert forall i :: 0 <= i < |r| ==> r[i] == l.ts[i + 1];
    forall i | 0 <= i < |r|
      ensures Later(l.ts[0].time, r[i].time)
    {
      assert Precedes(l.ts[0], l.ts[i + 1]);
      LexNotAbove(l.ts[0].time, l.ts[i + 1].time);
    }
  }

  /** Nothing before the deadline `last`, and no deadline after a later one. */
  predicate InOrder(last: Time, f: seq<(Timeout, Time)>) {
    && (forall i :: 0 <= i < |f| ==> Micros(last) <= Micros(f[i].0.time))
    && forall i, j :: 0 <= i < j < |f| ==> Micros(f[i].0.time) <= Micros(f[j].0.time)
  }

  lemma OneMore(last: Time, t: Timeout, now: Time, rest: seq<(Timeout, Time)>)
    requires InOrder(t.time, rest) && Micros(last) <= Micros(t.time)
    ensures InOrder(last, [(t, now)] + rest)
  {
    var f := [(t, now)] + rest;
    assert forall i :: 0 < i < |f| ==> f[i] == rest[i - 1];
  }

  /**
   * Over any run with a monotone clock and orderly requests, whatever handlers register or cancel, the
   * deadlines that are fired never decrease.
   */
  lemma {:induction false} FiredInOrder(l: Loop, clock: Time, last: Time, run: seq<Step>)
    requires Waiting(l, clock, last) && Monotone(clock, run)
    requires forall i :: 0 <= i < |run| ==> Asks(run[i], 0, 0)
    ensures InOrder(last, Fired(l, run))
    decreases |run|
  {
    if run != [] {
      hide Waiting, After, InOrder, Asks;
      StepKeeps(l, run[0], clock, last);
      var rest := Fired(After(l, run[0]), run[1..]);
      if run[0].DoCheck? && Due(l, run[0].now).Some? {
        FiredInOrder(After(l, run[0]), run[0].now, l.ts[0].time, run[1..]);
        OneMore(last, l.ts[0], run[0].now, rest);
      } else {
        FiredInOrder(After(l, run[0]), LastReading(clock, run[0]), last, run[1..]);
      }
    }
  }

  /** No other request is safe: from each, some run with a monotone clock fires a deadline after a later one. */
  lemma OrderLost(secs: Unsigned, usecs: Unsigned, k: Kind) returns (run: seq<Step>)
    requires !Orderly(secs, usecs)
    ensures Monotone(Time(0, 0), run) && forall i :: 0 <= i < |run| ==> Asks(run[i], secs, usecs)
    ensures var f := Fired(Loop([], 0), run);
            |f| == 2 && Micros(f[0].0.time) > Micros(f[1].0.time)
  {
    var zero, end := Time(0, 0), Time(secs, 0);
    if secs == 0 {
      run := [DoRegister(zero, 0, 0, k), DoCheck(zero), DoRegister(zero, 0, usecs, k), DoCheck(zero)];
      MonotoneFour(zero, run[0], run[1], run[2], run[3]);
      LostNow(usecs, k);
    } else {
      run := [DoRegister(zero, secs - 1, MILLION - 1, k), DoRegister(zero, secs, usecs, k), DoCheck(end), DoCheck(end)];
      MonotoneFour(zero, run[0], run[1], run[2], run[3]);
      LostLater(secs, usecs, k);
    }
  }

  lemma MonotoneFour(clock: Time, s0: Step, s1: Step, s2: Step, s3: Step)
    requires Reads(clock, s0)
    requires var c1 := LastReading(clock, s0);
             Reads(c1, s1) && var c2 := LastReading(c1, s1); Reads(c2, s2) && Reads(LastReading(c2, s2), s3)
    ensures Monotone(clock, [s0, s1, s2, s3])
  {
    hide Reads, LastReading;
    var run := [s0, s1, s2, s3];
    assert run[1..] == [s1, s2, s3] && [s1, s2, s3][1..] == [s2, s3] && [s2, s3][1..] == [s3];
    var c1 := LastReading(clock, s0);
    var c2 := LastReading(c1, s1);
    assert Monotone(LastReading(c2, s2), [s3]);
    assert Monotone(c2, [s2, s3]);
    assert Monotone(c1, [s1, s2, s3]);
  }

  lemma FiredFour(l: Loop, s0: Step, s1: Step, s2: Step, s3: Step)
    ensures var l1 := After(l, s0);
            var l2 := After(l1, s1);
            var l3 := After(l2, s2);
            Fired(l, [s0, s1, s2, s3]) == FiredAt(l, s0) + (FiredAt(l1, s1) + (FiredAt(l2, s2) + FiredAt(l3, s3)))
  {
    hide FiredAt, After;
    var l1 := After(l, s0);
    var l2 := After(l1, s1);
    var l3 := After(l2, s2);
    assert [s0, s1, s2, s3][1..] == [s1, s2, s3] && [s1, s2, s3][1..] == [s2, s3] && [s2, s3][1..] == [s3];
    assert Fired(l3, [s3]) == FiredAt(l3, s3) + Fired(After(l3, s3), []) == FiredAt(l3, s3);
    assert Fired(l2, [s2, s3]) == FiredAt(l2, s2) + Fired(l3, [s3]);
    assert Fired(l1, [s1, s2, s3]) == FiredAt(l1, s1) + Fired(l2, [s2, s3]);
  }

  lemma LostNow(usecs: Unsigned, k: Kind)
    requires usecs >= 0x8000_0000
    ensures var zero := Time(0, 0);
            var f := Fired(Loop([], 0),
                [DoRegister(zero, 0, 0, k), DoCheck(zero), DoRegister(zero, 0, usecs, k), DoCheck(zero)]);
            |f| == 2 && Micros(f[0].0.time) > Micros(f[1].0.time)
  {
    var zero := Time(0, 0);
    var a := Timeout(zero, k.handler, k.eloopData, k.userData, 0);
    var b := Timeout(Time(0, ToInt(usecs)), k.handler, k.eloopData, k.userData, 1);
    FiredFour(Loop([], 0), DoRegister(zero, 0, 0, k), DoCheck(zero), DoRegister(zero, 0, usecs, k), DoCheck(zero));
    assert After(Loop([], 0), DoRegister(zero, 0, 0, k)) == Loop([a], 1);
    assert After(Loop([a], 1), DoCheck(zero)) == Loop([], 1);
    assert After(Loop([], 1), DoRegister(zero, 0, usecs, k)) == Loop([b], 2);
  }

  lemma LostLater(secs: Unsigned, usecs: Unsigned, k: Kind)
    requires 0 < secs < 0x8000_0000 <= usecs < 0xffff_ffff
    ensures var zero, end := Time(0, 0), Time(secs, 0);
            var f := Fired(Loop([], 0), [DoRegister(zero, secs - 1, MILLION - 1, k), DoRegister(zero, secs, usecs, k),
                                         DoCheck(end), DoCheck(end)]);
            |f| == 2 && Micros(f[0].0.time) > Micros(f[1].0.time)
  {
    var zero, end := Time(0, 0), Time(secs, 0);
    var a := Timeout(Time(secs - 1, MILLION - 1), k.handler, k.eloopData, k.userData, 0);
    var b := Timeout(Time(secs, ToInt(usecs)), k.handler, k.eloopData, k.userData, 1);
    var first, second := DoRegister(zero, secs - 1, MILLION - 1, k), DoRegister(zero, secs, usecs, k);
    FiredFour(Loop([], 0), first, second, DoCheck(end), DoCheck(end));
    assert After(Loop([], 0), first) == Loop([a], 1);
    assert Insert([a], b) == [a, b] by { assert Place([a][1..], b.time) == 0; }
    assert After(Loop([a], 1), second) == Loop([a, b], 2);
    assert After(Loop([a, b], 2), DoCheck(end)) == Loop([b], 2);
  }

  function Ran(l: Loop, run: seq<Step>): Loop
    decreases |run|
  {
    if run == [] then l else Ran(After(l, run[0]), run[1..])
  }
}
