/**
 When a held certificate is renewed (renew.go), in signed 64-bit nanoseconds. Moments are
 nanoseconds from the zero time, so zero is "no time recorded".
 */
module RenewTime {
  datatype Held = Held(id: string, names: seq<string>, notAfter: int, renewAfter: int, issuedAt: int)

  const MAX64 := 0x7FFF_FFFF_FFFF_FFFF
  const MIN64 := -0x8000_0000_0000_0000
  const HALF := 0x3FFF_FFFF_FFFF_FFFF

  /** The distance between two moments, held at the ends of the 64-bit range. */
  function Distance(from: int, to: int): int {
    var d := to - from;
    if d > MAX64 then MAX64 else if d < MIN64 then MIN64 else d
  }

  /** 64-bit wrap-around. */
  function Wrap(x: int): int { (x + 0x8000_0000_0000_0000) % 0x1_0000_0000_0000_0000 - 0x8000_0000_0000_0000 }

  /** Division that truncates toward zero. */
  function Quotient(x: int, y: nat): int
    requires y > 0
  {
    if x >= 0 then x / y else -(-x / y)
  }

  /** The moment to ask for a replacement, and whether the core's own was overridden. */
  function RenewAt(h: Held): (int, bool) {
    if h.issuedAt == 0 || h.renewAfter >= h.issuedAt then (h.renewAfter, false)
    else
      var life := Distance(h.issuedAt, h.notAfter);
      if life <= 0 then (h.renewAfter, false)
      else (h.issuedAt + Quotient(Wrap(life * 2), 3), true)
  }

  predicate Due(h: Held, now: int) { now >= RenewAt(h).0 }

  /** The core's instruction is replaced exactly when it precedes the issue and there is a life to
      take two thirds of; otherwise it is taken as it is. */
  lemma OverriddenExactly(h: Held)
    ensures RenewAt(h).1 <==> h.issuedAt != 0 && h.renewAfter < h.issuedAt < h.notAfter
    ensures !RenewAt(h).1 ==> RenewAt(h).0 == h.renewAfter
  {
  }

  /** Up to 2^62 - 1 nanoseconds of life, an override leaves at least a third of it, and falls
      after the issue unless the life is a single nanosecond. */
  lemma OverrideLeavesAThird(h: Held)
    requires RenewAt(h).1 && h.notAfter - h.issuedAt <= HALF
    ensures var at, life := RenewAt(h).0, h.notAfter - h.issuedAt;
            h.issuedAt <= at < h.notAfter && 3 * (h.notAfter - at) >= life && (at > h.issuedAt <==> life >= 2)
  {
    var life := h.notAfter - h.issuedAt;
    assert Wrap(life * 2) == life * 2;
  }

  /** Beyond that, doubling wraps, and the certificate is due when it is issued. */
  lemma LongLifeWraps(h: Held)
    requires RenewAt(h).1 && h.notAfter - h.issuedAt > HALF
    ensures RenewAt(h).0 <= h.issuedAt
  {
    var life := Distance(h.issuedAt, h.notAfter);
    assert HALF < life <= MAX64;
    assert Wrap(life * 2) == life * 2 - 0x1_0000_0000_0000_0000;
  }

  /** No issue time is recorded and the core's moment is no later than that, or the core names the
      moment of issue, or the core names an earlier one and the life is at most one nanosecond or so
      long that doubling it wraps. */
  predicate BornDue(h: Held) {
    || h.renewAfter == h.issuedAt
    || (h.renewAfter < h.issuedAt
        && (h.issuedAt == 0 || h.notAfter - h.issuedAt <= 1 || h.notAfter - h.issuedAt > HALF))
  }

  /** Those are exactly the records that are due at the very moment they were issued. */
  lemma DueAtIssueExactly(h: Held)
    ensures Due(h, h.issuedAt) <==> BornDue(h)
  {
    if RenewAt(h).1 {
      if h.notAfter - h.issuedAt <= HALF { OverrideLeavesAThird(h); } else { LongLifeWraps(h); }
    }
  }

  /**
   Exactly when a record waits at least d after its issue: the core's moment is that late, or the
   core's moment is impossible and two thirds of the life come to that much without wrapping.
   */
  lemma WaitsExactly(h: Held, d: nat)
    requires d > 0
    ensures RenewAt(h).0 - h.issuedAt >= d <==>
            || h.renewAfter - h.issuedAt >= d
            || (h.issuedAt != 0 && h.renewAfter < h.issuedAt
                && 3 * d <= 2 * (h.notAfter - h.issuedAt) && h.notAfter - h.issuedAt <= HALF)
  {
    if RenewAt(h).1 {
      var life := h.notAfter - h.issuedAt;
      if life <= HALF {
        assert Wrap(life * 2) == life * 2;
      } else {
        LongLifeWraps(h);
      }
    }
  }
}
