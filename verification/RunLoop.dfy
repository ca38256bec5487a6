/**
 The agent's main loop and how it paces itself (run.go). Durations are in nanoseconds.
 */
module RunLoop {
  const SECOND := 1_000_000_000
  const MIN_BACKOFF := 15 * SECOND
  const MAX_BACKOFF := 600 * SECOND
  const MAX64 := 0x7FFF_FFFF_FFFF_FFFF

  // ---------- Backing off ----------

  function Pow2(n: nat): (p: nat)
    ensures p >= 1
  {
    if n == 0 then 1 else 2 * Pow2(n - 1)
  }

  /** The product as a 64-bit duration. Beyond the range of one, the conversion from floating point
      gives whatever the processor gives: the least or the greatest duration. */
  function AsDuration(x: nat, overflow: int): int { if x > MAX64 then overflow else x }

  predicate IsOverflow(overflow: int) { overflow == MAX64 || overflow == -MAX64 - 1 }

  /** The wait after n failures; `fraction` is the random number drawn. */
  function Backoff(n: nat, overflow: int, fraction: real): int
    requires n >= 1
  {
    var d := AsDuration(MIN_BACKOFF * Pow2(n - 1), overflow);
    var held := if d > MAX_BACKOFF || d <= 0 then MAX_BACKOFF else d;
    held + Jitter(fraction, held)
  }

  function Least(x: int, y: int): int { if x < y then x else y }

  /** Three tenths of the base times the random number, to the nanosecond below. */
  predicate IsJitter(jitter: int, fraction: real, base: nat) {
    jitter as real <= fraction * base as real * 0.3 < (jitter + 1) as real
  }

  /** The wait doubles from fifteen seconds to ten minutes, plus a random part of three tenths of that: always
      between fifteen seconds and thirteen minutes, however many failures there were. */
  lemma BackoffIsBounded(n: nat, overflow: int, fraction: real)
    requires n >= 1 && IsOverflow(overflow) && 0.0 <= fraction < 1.0
    ensures var base := Least(MIN_BACKOFF * Pow2(n - 1), MAX_BACKOFF);
            && IsJitter(Backoff(n, overflow, fraction) - base, fraction, base)
            && 0 <= Backoff(n, overflow, fraction) - base
            && 10 * (Backoff(n, overflow, fraction) - base) <= 3 * base
            && base == Least(15_000_000_000 * Pow2(n - 1), 600_000_000_000)
    ensures 15_000_000_000 <= Backoff(n, overflow, fraction) <= 780_000_000_000
  {
    hide IsJitter, Backoff, Pow2, Least, Jitter;
    BackoffIs(n, overflow, fraction);
    JitterIs(fraction, Least(MIN_BACKOFF * Pow2(n - 1), MAX_BACKOFF));
  }

  function Jitter(fraction: real, base: nat): int { (fraction * base as real * 0.3).Floor }

  lemma BackoffIs(n: nat, overflow: int, fraction: real)
    requires n >= 1 && IsOverflow(overflow)
    ensures var base := Least(MIN_BACKOFF * Pow2(n - 1), MAX_BACKOFF);
            Backoff(n, overflow, fraction) == base + Jitter(fraction, base) && MIN_BACKOFF <= base <= MAX_BACKOFF
  {
  }

  lemma JitterIs(fraction: real, base: nat)
    requires 0.0 <= fraction < 1.0
    ensures var jitter := Jitter(fraction, base);
            0 <= jitter && 10 * jitter <= 3 * base && IsJitter(jitter, fraction, base)
  {
    var b := base as real;
    FractionIsLess(fraction, b);
    FloorIsLess(fraction * b, base);
  }

  lemma FractionIsLess(fraction: real, b: real)
    requires 0.0 <= fraction < 1.0 && b >= 0.0
    ensures 0.0 <= fraction * b <= b
  {
    assert (1.0 - fraction) * b >= 0.0;
  }

  lemma FloorIsLess(x: real, base: nat)
    requires 0.0 <= x <= base as real
    ensures 0 <= (x * 0.3).Floor && 10 * (x * 0.3).Floor <= 3 * base
  {
    var f := (x * 0.3).Floor;
    assert f as real <= x * 0.3 <= base as real * 0.3;
    assert 10.0 * f as real <= 3.0 * base as real;
    assert (10 * f) as real <= (3 * base) as real;
  }

  // ---------- The loop ----------

  datatype Beat = Alive | Revoked | Skewed | Lost

  /** What one turn of the loop meets: the heartbeat's answer, the random number and overflow of a
      back-off, and whether the agent is cancelled while it waits. */
  datatype Turn = Turn(beat: Beat, fraction: real, overflow: int, cancelled: bool)

  /** What the loop does, in order. */
  datatype Event =
    | Heartbeat(beat: Beat)
    | RenewDue
    | InstallCycle(reachable: bool)
    | InventoryIfDue
    | Wait(duration: int)
    | Stopped(revoked: bool)

  function FailuresAfter(failures: nat, beat: Beat): nat { if beat == Alive then 0 else failures + 1 }

  /** The events of one turn, `failures` being those before it. */
  function TurnEvents(failures: nat, turn: Turn, interval: int): seq<Event> {
    match turn.beat
    case Revoked => [Heartbeat(Revoked), Stopped(true)]
    case Alive =>
      [Heartbeat(Alive), RenewDue, InstallCycle(true), InventoryIfDue, Wait(interval)]
      + (if turn.cancelled then [Stopped(false)] else [])
    case _ =>
      [Heartbeat(turn.beat), InstallCycle(false), Wait(Backoff(failures + 1, turn.overflow, turn.fraction))]
      + (if turn.cancelled then [Stopped(false)] else [])
  }

  predicate Ends(turn: Turn) { turn.beat == Revoked || turn.cancelled }

  /** The events of a run, up to its end or for as many turns as are given. */
  function Events(failures: nat, turns: seq<Turn>, interval: int): seq<Event>
    decreases |turns|
  {
    if turns == [] then []
    else TurnEvents(failures, turns[0], interval)
         + (if Ends(turns[0]) then [] else Events(FailuresAfter(failures, turns[0].beat), turns[1..], interval))
  }

  class Agent {
    var failures: nat
    var events: seq<Event>

    constructor ()
      ensures failures == 0 && events == []
    {
      failures, events := 0, [];
    }

    /** One turn of the loop, up to and including its wait. */
    method TakeTurn(turn: Turn, interval: int) returns (ended: bool)
      modifies this
      ensures events == old(events) + TurnEvents(old(failures), turn, interval)
      ensures ended == Ends(turn)
      ensures failures == if turn.beat == Revoked then old(failures) else FailuresAfter(old(failures), turn.beat)
    {
      hide Backoff;
      ghost var was := events;
      events := events + [Heartbeat(turn.beat)];
      var wait := interval;
      match turn.beat {
        case Alive =>
          failures := 0;
          events := events + [RenewDue, InstallCycle(true), InventoryIfDue];
        case Revoked =>
          events := events + [Stopped(true)];
          return true;
        case _ =>
          failures := failures + 1;
      }
      if failures > 0 {
        events := events + [InstallCycle(false)];
        wait := Backoff(failures, turn.overflow, turn.fraction);
      }
      events := events + [Wait(wait)];
      if turn.cancelled {
        events := events + [Stopped(false)];
      }
      ended := turn.cancelled;
    }

    /** The loop, for as many turns as are given or until it returns. */
    method Run(turns: seq<Turn>, interval: int)
      requires failures == 0 && events == []
      modifies this
      ensures events == Events(0, turns, interval)
    {
      hide TurnEvents, Backoff;
      var k := 0;
      while k < |turns|
        invariant 0 <= k <= |turns|
        invariant events + Events(failures, turns[k..], interval) == Events(0, turns, interval)
      {
        ghost var was, before := events, failures;
        EventsStep(was, before, turns, k, interval);
        var ended := TakeTurn(turns[k], interval);
        if ended {
          return;
        }
        k := k + 1;
      }
    }
  }

  /** A run from a point on is its first turn, then what follows that. */
  lemma EventsStep(was: seq<Event>, failures: nat, turns: seq<Turn>, k: nat, interval: int)
    requires k < |turns|
    ensures was + Events(failures, turns[k..], interval)
            == was + TurnEvents(failures, turns[k], interval)
               + (if Ends(turns[k]) then [] else Events(FailuresAfter(failures, turns[k].beat), turns[k + 1..], interval))
  {
    hide TurnEvents, Backoff;
    assert turns[k..][0] == turns[k] && turns[k..][1..] == turns[k + 1..];
  }

  // ---------- Guarantees ----------

  /** How many of the last turns failed in a row. */
  function Streak(turns: seq<Turn>): nat {
    if turns == [] || turns[|turns| - 1].beat == Alive then 0 else 1 + Streak(turns[..|turns| - 1])
  }

  function FailuresOver(failures: nat, turns: seq<Turn>): nat {
    if turns == [] then failures
    else FailuresAfter(FailuresOver(failures, turns[..|turns| - 1]), turns[|turns| - 1].beat)
  }

  /** The counter is the length of the current streak of failed heartbeats. */
  lemma {:induction false} FailuresAreTheStreak(turns: seq<Turn>)
    ensures FailuresOver(0, turns) == Streak(turns)
  {
    if turns != [] {
      FailuresAreTheStreak(turns[..|turns| - 1]);
    }
  }

  lemma {:induction false} FailuresShift(failures: nat, first: Turn, rest: seq<Turn>)
    ensures FailuresOver(failures, [first] + rest) == FailuresOver(FailuresAfter(failures, first.beat), rest)
  {
    var all := [first] + rest;
    if rest == [] {
      assert all[..0] == [];
    } else {
      assert all[..|all| - 1] == [first] + rest[..|rest| - 1];
      FailuresShift(failures, first, rest[..|rest| - 1]);
    }
  }

  lemma Slices(turns: seq<Turn>, k: nat)
    requires 0 < k < |turns|
    ensures var rest := turns[1..];
            && rest[..k - 1] == turns[1..k] && rest[k - 1] == turns[k] && rest[k..] == turns[k + 1..]
            && turns[..k] == [turns[0]] + turns[1..k] && turns[..k][0] == turns[0] && turns[..k][1..] == turns[1..k]
  {
  }

  /** A run goes turn by turn: what comes before a point and what comes after it. */
  lemma {:induction false} EventsSplit(failures: nat, turns: seq<Turn>, k: nat, interval: int)
    requires k < |turns| && forall i | 0 <= i < k :: !Ends(turns[i])
    ensures Events(failures, turns, interval)
            == Events(failures, turns[..k], interval)
               + TurnEvents(FailuresOver(failures, turns[..k]), turns[k], interval)
               + (if Ends(turns[k]) then []
                  else Events(FailuresAfter(FailuresOver(failures, turns[..k]), turns[k].beat), turns[k + 1..], interval))
    decreases k
  {
    hide TurnEvents, Backoff;
    if k > 0 {
      var rest, next := turns[1..], FailuresAfter(failures, turns[0].beat);
      Slices(turns, k);
      EventsSplit(next, rest, k - 1, interval);
      FailuresShift(failures, turns[0], turns[1..k]);
    } else {
      assert turns[..0] == [];
    }
  }

  /**
   A turn that follows turns that did not end waits, after a failure, for the back-off of the
   current streak of failures, this one included; and after a success for the interval.
   */
  lemma WaitFollowsTheStreak(turns: seq<Turn>, k: nat, interval: int)
    requires k < |turns| && (forall i | 0 <= i < k :: !Ends(turns[i])) && turns[k].beat != Revoked
    ensures var wait := if turns[k].beat == Alive then interval
                        else Backoff(Streak(turns[..k + 1]), turns[k].overflow, turns[k].fraction);
            var at := |Events(0, turns[..k], interval)| + if turns[k].beat == Alive then 4 else 2;
            at < |Events(0, turns, interval)| && Events(0, turns, interval)[at] == Wait(wait)
  {
    hide Events, Backoff, FailuresOver;
    EventsSplit(0, turns, k, interval);
    FailuresAreTheStreak(turns[..k]);
    assert turns[..k + 1][..k] == turns[..k] && turns[..k + 1][k] == turns[k];
    var at := TurnEvents(Streak(turns[..k]), turns[k], interval);
    assert at[if turns[k].beat == Alive then 4 else 2].Wait?;
  }

  function Cycles(events: seq<Event>): nat {
    if events == [] then 0 else (if events[0].InstallCycle? then 1 else 0) + Cycles(events[1..])
  }

  lemma {:induction false} CyclesAdd(a: seq<Event>, b: seq<Event>)
    ensures Cycles(a + b) == Cycles(a) + Cycles(b)
  {
    if a == [] {
      assert a + b == b;
    } else {
      assert (a + b)[0] == a[0] && (a + b)[1..] == a[1..] + b;
      CyclesAdd(a[1..], b);
    }
  }

  function TurnsTaken(turns: seq<Turn>): nat
    decreases |turns|
  {
    if turns == [] || turns[0].beat == Revoked then 0
    else 1 + if turns[0].cancelled then 0 else TurnsTaken(turns[1..])
  }

  lemma OneCycleATurn(failures: nat, turn: Turn, interval: int)
    ensures Cycles(TurnEvents(failures, turn, interval)) == if turn.beat == Revoked then 0 else 1
  {
    var at := TurnEvents(failures, turn, interval);
    assert Cycles(at[|at|..]) == 0;
    CyclesAre(at);
  }

  lemma CyclesAre(at: seq<Event>)
    requires 2 <= |at| <= 6
    ensures Cycles(at) == Cycles([at[0]]) + Cycles([at[1]])
                          + (if |at| > 2 then Cycles([at[2]]) else 0) + (if |at| > 3 then Cycles([at[3]]) else 0)
                          + (if |at| > 4 then Cycles([at[4]]) else 0) + (if |at| > 5 then Cycles([at[5]]) else 0)
  {
    assert at == [at[0]] + ([at[1]] + at[2..]);
    CyclesAdd([at[0]], [at[1]] + at[2..]);
    CyclesAdd([at[1]], at[2..]);
    if |at| > 2 { assert at[2..] == [at[2]] + at[3..]; CyclesAdd([at[2]], at[3..]); }
    if |at| > 3 { assert at[3..] == [at[3]] + at[4..]; CyclesAdd([at[3]], at[4..]); }
    if |at| > 4 { assert at[4..] == [at[4]] + at[5..]; CyclesAdd([at[4]], at[5..]); }
    if |at| > 5 { assert at[5..] == [at[5]] + []; }
  }

  /** Every turn but one that finds the credential revoked runs exactly one install cycle. */
  lemma {:induction false} OneInstallCycleATurn(failures: nat, turns: seq<Turn>, interval: int)
    ensures Cycles(Events(failures, turns, interval)) == TurnsTaken(turns)
    decreases |turns|
  {
    if turns != [] {
      var next := FailuresAfter(failures, turns[0].beat);
      OneCycleATurn(failures, turns[0], interval);
      OneInstallCycleATurn(next, turns[1..], interval);
      CyclesAdd(TurnEvents(failures, turns[0], interval), if Ends(turns[0]) then [] else Events(next, turns[1..], interval));
    }
  }

  /** The agent posts nothing but a heartbeat, and renews nothing, unless a heartbeat has just
      succeeded, and then it does all of it; after one that failed it installs what it holds and waits; it
      stops for good after a revoked one or when cancelled in a wait. */
  predicate OrderlyAt(events: seq<Event>, i: int)
    requires 0 <= i < |events|
  {
    match events[i]
    case RenewDue => i >= 1 && events[i - 1] == Heartbeat(Alive)
    case InstallCycle(true) => i >= 2 && events[i - 1] == RenewDue && events[i - 2] == Heartbeat(Alive)
    case InstallCycle(false) => i >= 1 && events[i - 1].Heartbeat? && events[i - 1].beat in {Skewed, Lost}
    case InventoryIfDue => i >= 3 && events[i - 1] == InstallCycle(true)
    case Heartbeat(Revoked) => i == |events| - 2 && events[i + 1] == Stopped(true)
    case Heartbeat(Alive) =>
      && i + 4 < |events| && events[i + 1] == RenewDue && events[i + 2] == InstallCycle(true)
      && events[i + 3] == InventoryIfDue && events[i + 4].Wait?
    case Heartbeat(_) => i + 2 < |events| && events[i + 1] == InstallCycle(false) && events[i + 2].Wait?
    case Wait(_) => i == |events| - 1 || events[i + 1].Heartbeat? || events[i + 1] == Stopped(false)
    case Stopped(revoked) => i == |events| - 1 && i >= 1 && if revoked then events[i - 1] == Heartbeat(Revoked) else events[i - 1].Wait?
  }

  predicate Orderly(events: seq<Event>) { forall i | 0 <= i < |events| :: OrderlyAt(events, i) }

  lemma OrderlyBefore(a: seq<Event>, b: seq<Event>, i: nat)
    requires i < |a| && OrderlyAt(a, i) && !a[i].Stopped? && a[i] != Heartbeat(Revoked)
    requires b != [] ==> b[0].Heartbeat?
    ensures OrderlyAt(a + b, i)
  {
    assert forall j | 0 <= j < |a| :: (a + b)[j] == a[j];
    assert b != [] ==> (a + b)[|a|] == b[0];
  }

  lemma OrderlyBeyond(a: seq<Event>, b: seq<Event>, i: nat)
    requires i < |b| && OrderlyAt(b, i)
    ensures OrderlyAt(a + b, |a| + i)
  {
    assert (a + b)[|a| + i] == b[i];
    assert forall j | 0 <= j < |b| :: (a + b)[|a| + j] == b[j];
    assert i >= 1 ==> (a + b)[|a| + i - 1] == b[i - 1];
    assert i >= 2 ==> (a + b)[|a| + i - 2] == b[i - 2];
    assert forall j | i < j < |b| :: (a + b)[|a| + j] == b[j];
  }

  lemma OrderlyAfter(a: seq<Event>, b: seq<Event>)
    requires Orderly(a) && Orderly(b) && (b != [] ==> b[0].Heartbeat?)
    requires forall i | 0 <= i < |a| :: !a[i].Stopped? && a[i] != Heartbeat(Revoked)
    ensures Orderly(a + b)
  {
    hide OrderlyAt;
    forall i | 0 <= i < |a + b| ensures OrderlyAt(a + b, i) {
      if i < |a| {
        OrderlyBefore(a, b, i);
      } else {
        OrderlyBeyond(a, b, i - |a|);
      }
    }
  }

  /** Over every run: nothing but heartbeats reaches the core without a heartbeat that has just succeeded,
      each of those is followed by all that is to be done, and nothing at all follows a revoked one. */
  lemma {:induction false} RunIsOrderly(failures: nat, turns: seq<Turn>, interval: int)
    ensures Orderly(Events(failures, turns, interval))
    decreases |turns|
  {
    if turns != [] {
      var at := TurnEvents(failures, turns[0], interval);
      assert Orderly(at);
      if Ends(turns[0]) {
        assert at + [] == at;
      } else {
        var next := FailuresAfter(failures, turns[0].beat);
        RunIsOrderly(next, turns[1..], interval);
        OrderlyAfter(at, Events(next, turns[1..], interval));
      }
    }
  }
}
