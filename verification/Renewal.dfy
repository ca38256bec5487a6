/**
 The renewal loop over the records a host holds (request.go): what each request overwrites, and
 how often a certificate can be ordered over a whole run.
 */
module Renewal {
  import opened Arithmetic
  import opened Prelude
  import opened Text
  import opened RenewTime

  // ---------- Names ----------

  /** Clean names in order, without blanks and repeats. */
  function Normalized(names: seq<string>): seq<string> {
    if names == [] then []
    else
      var before, x := Normalized(names[..|names| - 1]), CleanName(names[|names| - 1]);
      if x == "" || x in before then before else before + [x]
  }

  /** Some name reads x once cleaned. */
  predicate Mentions(names: seq<string>, x: string) {
    exists k :: 0 <= k < |names| && CleanName(names[k]) == x
  }

  lemma MentionsStep(names: seq<string>, x: string)
    requires names != []
    ensures Mentions(names, x) <==> Mentions(names[..|names| - 1], x) || CleanName(names[|names| - 1]) == x
  {
    hide CleanName;
    var most := names[..|names| - 1];
    if Mentions(most, x) {
      var k :| 0 <= k < |most| && CleanName(most[k]) == x;
      assert CleanName(names[k]) == x;
    }
    if k :| 0 <= k < |most| && CleanName(names[k]) == x {
      assert CleanName(most[k]) == x;
    }
  }

  /** Exactly the clean, non-empty names are kept. */
  lemma {:induction false} NormalizedHolds(names: seq<string>, x: string)
    ensures x in Normalized(names) <==> x != "" && Mentions(names, x)
  {
    hide CleanName;
    if names != [] {
      NormalizedHolds(names[..|names| - 1], x);
      MentionsStep(names, x);
    }
  }

  /** Each is kept once. */
  lemma {:induction false} NormalizedOnce(names: seq<string>)
    ensures forall i, j | 0 <= i < j < |Normalized(names)| :: Normalized(names)[i] != Normalized(names)[j]
  {
    if names != [] {
      NormalizedOnce(names[..|names| - 1]);
    }
  }

  method NormalizeNames(names: seq<string>) returns (out: seq<string>)
    ensures out == Normalized(names)
  {
    var seen: set<string> := {};
    out := [];
    var k := 0;
    while k < |names|
      invariant 0 <= k <= |names|
      invariant out == Normalized(names[..k])
      invariant forall x :: x in seen <==> x in out
    {
      assert names[..k + 1][..k] == names[..k];
      var name := CleanName(names[k]);
      if name != "" && name !in seen {
        seen := seen + {name};
        out := out + [name];
      }
      k := k + 1;
    }
    assert names[..k] == names;
  }

  function SlugChar(c: char): char {
    if 'a' <= c <= 'z' || '0' <= c <= '9' || c == '.' || c == '-' then c
    else if 'A' <= c <= 'Z' then (c as int + 32) as char
    else '_'
  }

  /** The directory a certificate for a name is kept in. */
  function SlugOf(name: string): string {
    TrimPrefix(seq(|name|, i requires 0 <= i < |name| => SlugChar(name[i])), "_.")
  }

  /** Where a request for these names is written; None when no name is left. */
  function Target(names: seq<string>): Option<string> {
    var clean := Normalized(names);
    if clean == [] then None else Some(SlugOf(clean[0]))
  }

  // ---------- One pass over the records ----------

  /** What the core answered to a request. */
  datatype Issued = Issued(id: string, commonName: string, sans: seq<string>, notAfter: int, renewAfter: int, hasCertificate: bool)

  /** Saving either works, or fails having left the old record readable or not. */
  datatype Saving = Saved | SaveFailed(recordLost: bool)

  /** What one record meets in a pass: the time it is looked at, the core's reply if it is asked,
      how saving goes, and the time written as the issue time. */
  datatype Turn = Turn(now: int, reply: Option<Issued>, saving: Saving, issuedAt: int)
  {
    predicate Brings() { reply.Some? && reply.value.hasCertificate }

    /** The record of the certificate it brings. */
    function Record(): Held
      requires reply.Some?
    {
      RecordOf(reply.value, issuedAt)
    }
  }

  /** A certificate the core issued: which record asked for it, where its answer is to be written,
      when, and whether saving it worked. The core has issued it either way. */
  datatype Order = Order(from: string, to: string, at: int, saved: bool)

  datatype State = State(records: map<string, Held>, orders: seq<Order>)

  function RecordOf(answer: Issued, issuedAt: int): Held {
    Held(answer.id, if answer.sans == [] then [answer.commonName] else answer.sans,
         answer.notAfter, answer.renewAfter, issuedAt)
  }

  /** Asking for these names brings a certificate. */
  predicate Answered(names: seq<string>, turn: Turn) {
    Target(names).Some? && turn.Brings()
  }

  /** The records once an answer is written to a directory, or could not be. */
  function AfterSaving(records: map<string, Held>, to: string, turn: Turn): map<string, Held>
    requires turn.reply.Some?
  {
    match turn.saving
    case Saved => records[to := turn.Record()]
    case SaveFailed(lost) => if lost then records - {to} else records
  }

  /** One record's turn. `held` is the record as it was listed at the start of the pass. */
  function TakeTurn(s: State, dir: string, held: Held, turn: Turn): State {
    if !Due(held, turn.now) || !Answered(held.names, turn) then s
    else
      var to := Target(held.names).value;
      State(AfterSaving(s.records, to, turn), s.orders + [Order(dir, to, turn.issuedAt, turn.saving.Saved?)])
  }

  function SavedAmong(orders: seq<Order>): nat {
    if orders == [] then 0 else SavedAmong(orders[..|orders| - 1]) + if orders[|orders| - 1].saved then 1 else 0
  }

  lemma SavedAppend(orders: seq<Order>, o: Order)
    ensures SavedAmong(orders + [o]) == SavedAmong(orders) + if o.saved then 1 else 0
  {
    assert (orders + [o])[..|orders|] == orders;
  }

  /** The records in the order they are listed, and what each meets. */
  type Listing = seq<(string, Turn)>

  predicate Lists(records: map<string, Held>, listing: Listing) {
    && (forall i | 0 <= i < |listing| :: listing[i].0 in records)
    && (forall dir | dir in records :: exists i :: 0 <= i < |listing| && listing[i].0 == dir)
    && (forall i, j | 0 <= i < j < |listing| :: listing[i].0 != listing[j].0)
  }

  /** The first k turns of a pass over the records as they were listed. */
  function Pass(s: State, listed: map<string, Held>, listing: Listing): State
    requires forall i | 0 <= i < |listing| :: listing[i].0 in listed
  {
    if listing == [] then s
    else
      var (dir, turn) := listing[|listing| - 1];
      TakeTurn(Pass(s, listed, listing[..|listing| - 1]), dir, listed[dir], turn)
  }

  class Runner {
    var records: map<string, Held>
    ghost var orders: seq<Order>

    ghost function Now(): State reads this { State(records, orders) }

    /** Ask for a certificate and, if one comes, save its record. A certificate that comes has been
        ordered, whether or not it can be saved. */
    method Request(from: string, names: seq<string>, turn: Turn) returns (ok: bool)
      modifies this
      ensures ok == (Answered(names, turn) && turn.saving.Saved?)
      ensures if Answered(names, turn) then
                && records == AfterSaving(old(records), Target(names).value, turn)
                && orders == old(orders) + [Order(from, Target(names).value, turn.issuedAt, ok)]
              else records == old(records) && orders == old(orders)
    {
      var clean := NormalizeNames(names);
      if |clean| == 0 || turn.reply.None? || !turn.reply.value.hasCertificate {
        return false;
      }
      var dir := SlugOf(clean[0]);
      orders := orders + [Order(from, dir, turn.issuedAt, turn.saving.Saved?)];
      if turn.saving.SaveFailed? {
        if turn.saving.recordLost {
          records := records - {dir};
        }
        return false;
      }
      records := records[dir := RecordOf(turn.reply.value, turn.issuedAt)];
      ok := true;
    }

    /** Renew every listed record that is due, and count the renewals that were saved. */
    method RenewDue(listing: Listing) returns (renewed: nat)
      requires Lists(records, listing)
      modifies this
      ensures Now() == Pass(old(Now()), old(records), listing)
      ensures SavedAmong(orders) == SavedAmong(old(orders)) + renewed
    {
      var listed := records;
      renewed := 0;
      var k := 0;
      while k < |listing|
        invariant 0 <= k <= |listing|
        invariant Now() == Pass(old(Now()), listed, listing[..k])
        invariant SavedAmong(orders) == SavedAmong(old(orders)) + renewed
      {
        assert listing[..k + 1][..k] == listing[..k] && listing[..k + 1][k] == listing[k];
        var (dir, turn) := listing[k];
        if Due(listed[dir], turn.now) {
          if Answered(listed[dir].names, turn) {
            SavedAppend(orders, Order(dir, Target(listed[dir].names).value, turn.issuedAt, turn.saving.Saved?));
          }
          var ok := Request(dir, listed[dir].names, turn);
          if ok {
            renewed := renewed + 1;
          }
        }
        k := k + 1;
      }
      assert listing[..k] == listing;
    }
  }

  // ---------- Whole runs ----------

  /** A run of passes, each over the records the one before left. */
  function Run(s: State, passes: seq<Listing>): State
    requires Listed(s, passes)
    decreases |passes|
  {
    if passes == [] then s else Run(Pass(s, s.records, passes[0]), passes[1..])
  }

  predicate Listed(s: State, passes: seq<Listing>)
    decreases |passes|
  {
    passes != [] ==> Lists(s.records, passes[0]) && Listed(Pass(s, s.records, passes[0]), passes[1..])
  }

  /** A record is filed where a request for its names is written. */
  predicate Filed(dir: string, h: Held) { Target(h.names) == Some(dir) }

  predicate AllFiled(records: map<string, Held>) {
    forall dir | dir in records :: Filed(dir, records[dir])
  }

  /** What a well-behaved turn of a directory brings: if a certificate comes, saving it works, the clock
      does not run backwards, its own names file it where the request did, and the moment it may be
      renewed is at least d after its issue. */
  predicate GoodTurn(dir: string, turn: Turn, d: nat) {
    turn.Brings() ==>
      && turn.saving.Saved? && turn.now <= turn.issuedAt
      && Filed(dir, turn.Record()) && RenewAt(turn.Record()).0 - turn.issuedAt >= d
  }

  /** What the turn saves, if anything, is not named so as to be filed in this directory. */
  predicate KeepsOff(turn: Turn, dir: string) {
    turn.Brings() && turn.saving.Saved? ==> !Filed(dir, turn.Record())
  }

  /** The directory's own turns are good, and what the others save keeps off it. Whether the others save,
      lose their records, or are due at once is of no account. */
  predicate GoodPass(listing: Listing, dir: string, d: nat) {
    forall i | 0 <= i < |listing| ::
      if listing[i].0 == dir then GoodTurn(dir, listing[i].1, d) else KeepsOff(listing[i].1, dir)
  }

  /** The times at which answers were written to a directory. */
  function Times(orders: seq<Order>, dir: string): seq<int> {
    if orders == [] then []
    else
      var before, last := Times(orders[..|orders| - 1], dir), orders[|orders| - 1];
      if last.to == dir then before + [last.at] else before
  }

  predicate Spaced(times: seq<int>, d: nat) {
    forall i | 0 < i < |times| :: times[i] - times[i - 1] >= d
  }

  /** No other directory's record is named so as to be filed in this one. */
  predicate Alone(records: map<string, Held>, dir: string) {
    forall other | other in records && other != dir :: !Filed(dir, records[other])
  }

  /** What good passes keep for one directory: it alone holds what is filed there, its orders are at least
      d apart, and its record may be renewed only d after its last order. */
  predicate Paced(s: State, dir: string, d: nat) {
    && Alone(s.records, dir) && (dir in s.records ==> Filed(dir, s.records[dir]))
    && Spaced(Times(s.orders, dir), d) && (Times(s.orders, dir) != [] ==> Waits(s, dir, d))
  }

  predicate Waits(s: State, dir: string, d: nat)
    requires Times(s.orders, dir) != []
  {
    var times := Times(s.orders, dir);
    dir in s.records && RenewAt(s.records[dir]).0 >= times[|times| - 1] + d
  }

  /** An order that comes no sooner than the directory waits for keeps its orders spaced. */
  lemma OrderKeepsPace(s: State, dir: string, at: int, h: Held, d: nat)
    requires Spaced(Times(s.orders, dir), d) && (Times(s.orders, dir) != [] ==> Waits(s, dir, d))
    requires dir in s.records && at >= RenewAt(s.records[dir]).0 && RenewAt(h).0 >= at + d
    ensures var s' := State(s.records[dir := h], s.orders + [Order(dir, dir, at, true)]);
            Spaced(Times(s'.orders, dir), d) && Waits(s', dir, d)
  {
    var orders := s.orders + [Order(dir, dir, at, true)];
    assert orders[..|orders| - 1] == s.orders;
  }

  lemma OwnTurnKeepsPace(s: State, dir: string, turn: Turn, d: nat)
    requires Paced(s, dir, d) && dir in s.records && GoodTurn(dir, turn, d)
    ensures var s' := TakeTurn(s, dir, s.records[dir], turn);
            Paced(s', dir, d) && dir in s'.records
  {
    hide Times, Spaced, Target;
    assert Filed(dir, s.records[dir]);
    if TakeTurn(s, dir, s.records[dir], turn) != s {
      OrderKeepsPace(s, dir, turn.issuedAt, turn.Record(), d);
    }
  }

  /** Another directory's turn neither changes this one's record nor orders into it. */
  lemma OtherTurnKeepsPace(s: State, dir: string, other: string, held: Held, turn: Turn, d: nat)
    requires Paced(s, dir, d) && other != dir && !Filed(dir, held) && KeepsOff(turn, dir)
    ensures var s' := TakeTurn(s, other, held, turn);
            && Paced(s', dir, d) && (dir in s'.records <==> dir in s.records)
            && (dir in s.records ==> s'.records[dir] == s.records[dir])
  {
    hide Spaced, Target;
    var s' := TakeTurn(s, other, held, turn);
    if s' != s {
      assert s'.orders[..|s'.orders| - 1] == s.orders;
      assert Times(s'.orders, dir) == Times(s.orders, dir);
    }
  }

  lemma {:induction false} PassKeepsPace(s: State, listing: Listing, dir: string, d: nat)
    requires Paced(s, dir, d) && GoodPass(listing, dir, d)
    requires forall i | 0 <= i < |listing| :: listing[i].0 in s.records
    requires forall i, j | 0 <= i < j < |listing| :: listing[i].0 != listing[j].0
    ensures var s' := Pass(s, s.records, listing);
            && Paced(s', dir, d) && (dir in s'.records <==> dir in s.records)
            && (dir in s.records && (forall i | 0 <= i < |listing| :: listing[i].0 != dir) ==> s'.records[dir] == s.records[dir])
  {
    hide TakeTurn, GoodTurn, KeepsOff, Filed, Times, Spaced;
    if listing != [] {
      var most := listing[..|listing| - 1];
      var (other, turn) := listing[|listing| - 1];
      assert forall i | 0 <= i < |most| :: most[i] == listing[i];
      PassKeepsPace(s, most, dir, d);
      var x := Pass(s, s.records, most);
      if other == dir {
        OwnTurnKeepsPace(x, dir, turn, d);
      } else {
        OtherTurnKeepsPace(x, dir, other, s.records[other], turn, d);
      }
    }
  }

  /**
   Renewal is paced, directory by directory. If a directory's own answers are saved, file themselves
   there and wait d, and no other record or saved answer is filed there, the times at which its
   certificate was ordered are at least d apart, whatever becomes of the others.
   */
  lemma {:induction false} RunKeepsPace(s: State, passes: seq<Listing>, dir: string, d: nat)
    requires Paced(s, dir, d) && Listed(s, passes) && forall p | p in passes :: GoodPass(p, dir, d)
    ensures Paced(Run(s, passes), dir, d)
    decreases |passes|
  {
    hide Paced, GoodPass, Pass;
    if passes != [] {
      assert passes[0] in passes;
      PassKeepsPace(s, passes[0], dir, d);
      RunKeepsPace(Pass(s, s.records, passes[0]), passes[1..], dir, d);
    }
  }

  /** Every answer that is saved files itself where it is written, and no record is lost. */
  predicate FileThemselves(listing: Listing) {
    forall i | 0 <= i < |listing| && listing[i].1.Brings() ::
      && listing[i].1.saving != SaveFailed(true)
      && (listing[i].1.saving.Saved? ==> Filed(listing[i].0, listing[i].1.Record()))
  }

  lemma {:induction false} PassKeepsDirectories(s: State, listed: map<string, Held>, listing: Listing)
    requires AllFiled(s.records) && AllFiled(listed) && s.records.Keys == listed.Keys && FileThemselves(listing)
    requires forall i | 0 <= i < |listing| :: listing[i].0 in listed
    ensures var s' := Pass(s, listed, listing); s'.records.Keys == s.records.Keys && AllFiled(s'.records)
  {
    hide Due, Target;
    if listing != [] {
      var most := listing[..|listing| - 1];
      assert forall i | 0 <= i < |most| :: most[i] == listing[i];
      PassKeepsDirectories(s, listed, most);
      var (dir, turn) := listing[|listing| - 1];
      assert Filed(dir, listed[dir]);
      assert turn == listing[|listing| - 1].1;
    }
  }

  /** While answers file themselves and no record is lost, the set of held directories never changes. */
  lemma {:induction false} RunKeepsDirectories(s: State, passes: seq<Listing>)
    requires AllFiled(s.records) && Listed(s, passes) && forall p | p in passes :: FileThemselves(p)
    ensures Run(s, passes).records.Keys == s.records.Keys && AllFiled(Run(s, passes).records)
    decreases |passes|
  {
    hide AllFiled, FileThemselves, Pass;
    if passes != [] {
      assert passes[0] in passes;
      PassKeepsDirectories(s, s.records, passes[0]);
      RunKeepsDirectories(Pass(s, s.records, passes[0]), passes[1..]);
    }
  }

  lemma {:induction false} SpacedSpan(times: seq<int>, d: nat, i: nat, j: nat)
    requires Spaced(times, d) && i <= j < |times|
    ensures times[j] - times[i] >= (j - i) * d
  {
    if i < j {
      SpacedSpan(times, d, i, j - 1);
      assert (j - i) * d == (j - 1 - i) * d + d;
    }
  }

  /**
   The rate bound, directory by directory. From a fresh log, over passes that are good for the directory,
   its orders that fall within any span of time T number at most 1 + T / d.
   */
  lemma RenewalsAreRateBounded(records: map<string, Held>, passes: seq<Listing>, d: nat, dir: string, i: nat, j: nat)
    requires d > 0 && Alone(records, dir) && (dir in records ==> Filed(dir, records[dir]))
    requires Listed(State(records, []), passes) && forall p | p in passes :: GoodPass(p, dir, d)
    requires i <= j < |Times(Run(State(records, []), passes).orders, dir)|
    ensures var times := Times(Run(State(records, []), passes).orders, dir);
            times[i] <= times[j] && j - i + 1 <= 1 + (times[j] - times[i]) / d
  {
    hide Run, Times, Spaced, Waits, Listed, Alone, Filed, GoodPass;
    var s := State(records, []);
    NoTimes(dir, d);
    RunKeepsPace(s, passes, dir, d);
    var times := Times(Run(s, passes).orders, dir);
    SpanBounds(times, d, i, j);
  }

  lemma SpanBounds(times: seq<int>, d: nat, i: nat, j: nat)
    requires d > 0 && Spaced(times, d) && i <= j < |times|
    ensures times[i] <= times[j] && j - i + 1 <= 1 + (times[j] - times[i]) / d
  {
    SpacedSpan(times, d, i, j);
    DivideSpan(times[j] - times[i], j - i, d);
  }

  lemma NoTimes(dir: string, d: nat)
    ensures Times([], dir) == [] && Spaced([], d)
  {
  }

  lemma DivideSpan(span: int, n: nat, d: nat)
    requires d > 0 && span >= n * d
    ensures span >= 0 && n <= span / d
  {
    assert n * d >= 0;
    NoLarger(span / d, span % d, n, span - n * d, d);
  }

  // ---------- The override, over every record of a pass ----------

  /** A pass that looks at every record no later than its issue orders nothing, whatever the core
      would answer, unless some record is due from birth. */
  lemma {:induction false} EarlyPassDoesNothing(s: State, listed: map<string, Held>, listing: Listing)
    requires forall i | 0 <= i < |listing| ::
               && listing[i].0 in listed && listing[i].1.now <= listed[listing[i].0].issuedAt
               && !BornDue(listed[listing[i].0])
    ensures Pass(s, listed, listing) == s
  {
    hide BornDue, Due, RenewAt;
    if listing != [] {
      var (dir, turn) := listing[|listing| - 1];
      EarlyPassDoesNothing(s, listed, listing[..|listing| - 1]);
      NotDueBefore(listed[dir], turn.now);
    }
  }

  lemma NotDueBefore(h: Held, now: int)
    requires !BornDue(h) && now <= h.issuedAt
    ensures !Due(h, now)
  {
    DueAtIssueExactly(h);
  }

  /** An order of this directory, logged at or after a position. */
  predicate OrderedSince(orders: seq<Order>, from: nat, dir: string) {
    exists i :: from <= i < |orders| && orders[i].from == dir
  }

  lemma {:induction false} PassLogs(s: State, listed: map<string, Held>, listing: Listing)
    requires forall i | 0 <= i < |listing| :: listing[i].0 in listed
    ensures s.orders <= Pass(s, listed, listing).orders
  {
    hide Answered, Due;
    if listing != [] {
      PassLogs(s, listed, listing[..|listing| - 1]);
    }
  }

  /** A record due from birth is ordered by every pass that lists it no sooner than its issue and is
      answered, be it at the very moment of issue, and whatever else the pass lists. */
  lemma {:induction false} BornDueIsOrdered(s: State, listed: map<string, Held>, listing: Listing, k: nat)
    requires forall i | 0 <= i < |listing| :: listing[i].0 in listed
    requires k < |listing| && BornDue(listed[listing[k].0]) && listing[k].1.now >= listed[listing[k].0].issuedAt
    requires Answered(listed[listing[k].0].names, listing[k].1)
    ensures OrderedSince(Pass(s, listed, listing).orders, |s.orders|, listing[k].0)
  {
    hide Answered, BornDue, RenewAt;
    var most := listing[..|listing| - 1];
    var (dir, turn) := listing[k];
    var before := Pass(s, listed, most);
    PassLogs(s, listed, most);
    if k == |most| {
      DueSinceBirth(listed[dir], turn.now);
      var orders := Pass(s, listed, listing).orders;
      assert orders[|orders| - 1].from == dir;
    } else {
      BornDueIsOrdered(s, listed, most, k);
      var i :| |s.orders| <= i < |before.orders| && before.orders[i].from == dir;
      assert Pass(s, listed, listing).orders[i] == before.orders[i];
    }
  }

  lemma DueSinceBirth(h: Held, now: int)
    requires BornDue(h) && now >= h.issuedAt
    ensures Due(h, now)
  {
    DueAtIssueExactly(h);
  }

  // ---------- Records that are not replaced ----------

  /** The turn leaves the record of a directory alone: it writes elsewhere, or it cannot write and
      loses nothing. */
  predicate Spares(h: Held, turn: Turn, dir: string) {
    Target(h.names) != Some(dir) || turn.saving == SaveFailed(false)
  }

  /**
   A record that no turn replaces stays exactly as due as it was, and is ordered at every turn of its
   own that finds it due and is answered. That is so of one whose answers cannot be saved, and of one
   to whose directory no listed record's names lead, its own included.
   */
  lemma {:induction false} UnreplacedIsOrderedAgain(s: State, listed: map<string, Held>, listing: Listing, dir: string)
    requires dir in listed && dir in s.records && s.records[dir] == listed[dir]
    requires forall i | 0 <= i < |listing| :: listing[i].0 in listed && Spares(listed[listing[i].0], listing[i].1, dir)
    ensures var s' := Pass(s, listed, listing);
            && dir in s'.records && s'.records[dir] == listed[dir]
            && |OrdersFrom(s'.orders, dir)| == |OrdersFrom(s.orders, dir)| + Asked(listed, listing, dir)
  {
    hide Due, Target;
    if listing != [] {
      var most := listing[..|listing| - 1];
      var (other, turn) := listing[|listing| - 1];
      UnreplacedIsOrderedAgain(s, listed, most, dir);
      var before := Pass(s, listed, most);
      var s' := TakeTurn(before, other, listed[other], turn);
      if |s'.orders| > |before.orders| {
        assert s'.orders[..|s'.orders| - 1] == before.orders;
      }
    }
  }

  /** A pass in which the answers for one directory cannot be saved, and what the others save keeps off it. */
  predicate FailsFor(listing: Listing, dir: string) {
    forall i | 0 <= i < |listing| ::
      if listing[i].0 == dir then listing[i].1.saving == SaveFailed(false) else KeepsOff(listing[i].1, dir)
  }

  /** The directory's own turn finds its record due and is answered. */
  predicate AsksFor(listing: Listing, dir: string, h: Held) {
    exists k :: 0 <= k < |listing| && listing[k].0 == dir && Due(h, listing[k].1.now) && Answered(h.names, listing[k].1)
  }

  lemma {:induction false} PassStaysAlone(s: State, listed: map<string, Held>, listing: Listing, dir: string)
    requires Alone(s.records, dir) && FailsFor(listing, dir)
    requires forall i | 0 <= i < |listing| :: listing[i].0 in listed
    ensures Alone(Pass(s, listed, listing).records, dir)
  {
    hide Due, Target, RecordOf;
    if listing != [] {
      var most := listing[..|listing| - 1];
      assert forall i | 0 <= i < |most| :: most[i] == listing[i];
      PassStaysAlone(s, listed, most, dir);
      var turn := listing[|listing| - 1].1;
      assert KeepsOff(turn, dir);
    }
  }

  lemma {:induction false} AskedOnce(listed: map<string, Held>, listing: Listing, dir: string)
    requires dir in listed && forall i, j | 0 <= i < j < |listing| :: listing[i].0 != listing[j].0
    ensures Asked(listed, listing, dir) == if AsksFor(listing, dir, listed[dir]) then 1 else 0
  {
    hide Due, Answered;
    if listing != [] {
      var most, last := listing[..|listing| - 1], listing[|listing| - 1];
      AskedOnce(listed, most, dir);
      assert forall i | 0 <= i < |most| :: most[i] == listing[i];
      if AsksFor(most, dir, listed[dir]) {
        var k :| 0 <= k < |most| && most[k].0 == dir && Due(listed[dir], most[k].1.now) && Answered(listed[dir].names, most[k].1);
        assert listing[k] == most[k];
      }
    }
  }

  /**
   A host that cannot save one certificate orders it at every pass. Where no other record or saved
   answer is filed in its directory and its own answers cannot be saved, its record never changes, and
   each pass that finds it due and is answered has the core issue one more certificate for it.
   */
  lemma {:induction false} UnsavedIsOrderedEveryPass(s: State, passes: seq<Listing>, dir: string)
    requires Alone(s.records, dir) && Listed(s, passes) && dir in s.records
    requires forall p | p in passes :: FailsFor(p, dir) && AsksFor(p, dir, s.records[dir])
    ensures var s' := Run(s, passes);
            && dir in s'.records && s'.records[dir] == s.records[dir]
            && |OrdersFrom(s'.orders, dir)| == |OrdersFrom(s.orders, dir)| + |passes|
    decreases |passes|
  {
    hide Pass, OrdersFrom, AsksFor, Asked, Alone, FailsFor;
    if passes != [] {
      var p := passes[0];
      assert p in passes;
      FailingPassSpares(s.records, p, dir);
      UnreplacedIsOrderedAgain(s, s.records, p, dir);
      PassStaysAlone(s, s.records, p, dir);
      AskedOnce(s.records, p, dir);
      UnsavedIsOrderedEveryPass(Pass(s, s.records, p), passes[1..], dir);
    }
  }

  lemma FailingPassSpares(records: map<string, Held>, listing: Listing, dir: string)
    requires Alone(records, dir) && FailsFor(listing, dir) && forall i | 0 <= i < |listing| :: listing[i].0 in records
    ensures forall i | 0 <= i < |listing| :: Spares(records[listing[i].0], listing[i].1, dir)
  {
    hide Target;
  }

  function OrdersFrom(orders: seq<Order>, dir: string): seq<Order> {
    if orders == [] then []
    else
      var before, last := OrdersFrom(orders[..|orders| - 1], dir), orders[|orders| - 1];
      if last.from == dir then before + [last] else before
  }

  /** How many turns of a listing find this record due and bring a certificate. */
  function Asked(listed: map<string, Held>, listing: Listing, dir: string): nat
    requires dir in listed
  {
    if listing == [] then 0
    else
      var (other, turn) := listing[|listing| - 1];
      Asked(listed, listing[..|listing| - 1], dir)
      + if other == dir && Due(listed[dir], turn.now) && Answered(listed[dir].names, turn) then 1 else 0
  }

  // ---------- A witness: the core returns the names in another order ----------

  /** An answer for the names a and b that lists them the other way round. */
  const REORDERED := Issued("id", "a", ["b", "a"], 1000, 20, true)

  const FIRST: Listing := [("a", Turn(5, Some(REORDERED), Saved, 10))]
  const SECOND: Listing := [("a", Turn(100, Some(REORDERED), Saved, 100))]
  const LATER: Listing := [("a", Turn(100, Some(REORDERED), Saved, 100)), ("b", Turn(100, None, Saved, 100))]

  /** One certificate, filed under its first name and due. */
  const START := State(map["a" := Held("id", ["a", "b"], 50, 5, 1)], [])

  function Passes(n: nat): seq<Listing> {
    if n == 0 then [] else [LATER] + Passes(n - 1)
  }

  lemma CleanLetter(c: char)
    requires 'a' <= c <= 'z'
    ensures CleanName([c]) == [c] && SlugOf([c]) == [c]
  {
    assert TrimSpace([c]) == [c];
    assert TrimSuffix([c], ".") == [c];
    assert Lower([c]) == [c];
    assert seq(|[c]|, i requires 0 <= i < |[c]| => SlugChar([c][i])) == [c];
  }

  lemma TargetOf(x: char, y: char)
    requires 'a' <= x <= 'z' && 'a' <= y <= 'z' && x != y
    ensures Target([[x], [y]]) == Some([x])
  {
    hide CleanName, SlugOf;
    CleanLetter(x);
    CleanLetter(y);
    assert [[x], [y]][..1] == [[x]] && [[x]][..0] == [];
    assert Normalized([[x]]) == [[x]];
  }

  /** The state in which the record of directory a is filed elsewhere than its names say. */
  predicate Stuck(s: State, n: nat) {
    && s.records.Keys == {"a", "b"}
    && s.records["a"] == RecordOf(REORDERED, 10) && s.records["b"] == RecordOf(REORDERED, 100)
    && |OrdersFrom(s.orders, "a")| == n
  }

  lemma OrdersGrow(orders: seq<Order>, o: Order)
    ensures OrdersFrom(orders + [o], o.from) == OrdersFrom(orders, o.from) + [o]
  {
    assert (orders + [o])[..|orders + [o]| - 1] == orders;
  }

  lemma PassOne(s: State, listed: map<string, Held>, dir: string, turn: Turn)
    requires dir in listed
    ensures Pass(s, listed, [(dir, turn)]) == TakeTurn(s, dir, listed[dir], turn)
  {
    assert [(dir, turn)][..0] == [];
  }

  /** A turn of directory a in which it is due and the answer reorders its names. */
  lemma ReorderingTurn(s: State, held: Held, turn: Turn, x: char, y: char)
    requires 'a' <= x <= 'z' && 'a' <= y <= 'z' && x != y
    requires held.names == [[x], [y]] && Due(held, turn.now)
    requires turn.reply == Some(REORDERED) && turn.saving == Saved
    ensures TakeTurn(s, "a", held, turn)
            == State(s.records[[x] := RecordOf(REORDERED, turn.issuedAt)], s.orders + [Order("a", [x], turn.issuedAt, true)])
    ensures |OrdersFrom(TakeTurn(s, "a", held, turn).orders, "a")| == |OrdersFrom(s.orders, "a")| + 1
  {
    hide Target, OrdersFrom;
    TargetOf(x, y);
    OrdersGrow(s.orders, Order("a", [x], turn.issuedAt, true));
  }

  /** A stuck pass: directory a is ordered into directory b, whose own turn brings no answer. */
  lemma StuckPass(s: State, n: nat)
    requires Stuck(s, n)
    ensures Lists(s.records, LATER) && Stuck(Pass(s, s.records, LATER), n + 1)
  {
    hide OrdersFrom, TakeTurn;
    ReorderingTurn(s, s.records["a"], LATER[0].1, 'b', 'a');
    PassOne(s, s.records, "a", SECOND[0].1);
    assert LATER[..1] == SECOND;
    assert LATER[0].0 == "a" && LATER[1].0 == "b";
    var s1 := TakeTurn(s, "a", s.records["a"], LATER[0].1);
    NoAnswer(s1, "b", s.records["b"], LATER[1].1);
  }

  lemma NoAnswer(s: State, dir: string, held: Held, turn: Turn)
    requires turn.reply.None?
    ensures TakeTurn(s, dir, held, turn) == s
  {
  }

  lemma {:induction false} StuckRun(s: State, n: nat, k: nat)
    requires Stuck(s, k)
    ensures Listed(s, Passes(n)) && Stuck(Run(s, Passes(n)), k + n)
    decreases n
  {
    hide Stuck, Pass;
    if n > 0 {
      StuckPass(s, k);
      StuckRun(Pass(s, s.records, LATER), n - 1, k + 1);
      assert Passes(n)[1..] == Passes(n - 1);
    }
  }

  lemma FirstTwoPasses() returns (s1: State, s2: State)
    ensures AllFiled(START.records) && Lists(START.records, FIRST)
    ensures s1 == Pass(START, START.records, FIRST) && Lists(s1.records, SECOND)
    ensures s2 == Pass(s1, s1.records, SECOND) && Stuck(s2, 2)
  {
    hide Target, OrdersFrom, TakeTurn;
    TargetOf('a', 'b');
    assert FIRST[0].0 == "a" && SECOND[0].0 == "a";
    s1 := Pass(START, START.records, FIRST);
    PassOne(START, START.records, "a", FIRST[0].1);
    ReorderingTurn(START, START.records["a"], FIRST[0].1, 'a', 'b');
    NoOrders("a");
    assert s1.records == map["a" := RecordOf(REORDERED, 10)];
    s2 := Pass(s1, s1.records, SECOND);
    PassOne(s1, s1.records, "a", SECOND[0].1);
    ReorderingTurn(s1, s1.records["a"], SECOND[0].1, 'b', 'a');
  }

  lemma NoOrders(dir: string)
    ensures OrdersFrom([], dir) == []
  {
  }

  /**
   Without the filing hypothesis the bound fails. The answers of this run save, do not turn the
   clock back and wait ten nanoseconds, but list the names in another order: after the first
   renewal the certificate is ordered once in every further pass, for as many passes as there are.
   */
  lemma ReorderedNamesNeverSettle(n: nat)
    ensures AllFiled(START.records)
    ensures Listed(START, [FIRST, SECOND] + Passes(n))
    ensures |OrdersFrom(Run(START, [FIRST, SECOND] + Passes(n)).orders, "a")| == n + 2
  {
    hide Pass, Stuck;
    var s1, s2 := FirstTwoPasses();
    StuckRun(s2, n, 2);
    var all := [FIRST, SECOND] + Passes(n);
    assert all[1..] == [SECOND] + Passes(n) && all[1..][1..] == Passes(n);
    StuckCount(Run(s2, Passes(n)), n + 2);
  }

  lemma StuckCount(s: State, n: nat)
    requires Stuck(s, n)
    ensures |OrdersFrom(s.orders, "a")| == n
  {
  }
}
