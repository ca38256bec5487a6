/** Types shared by the model: optional values, bytes and reports; and the image of a sequence. */
module Prelude {

  datatype Option<+T> = None | Some(value: T)
  {
    function GetOr(default: T): T { if Some? then value else default }
  }

  type Byte = b: int | 0 <= b < 256

  type Bytes = seq<Byte>

  function Image<T, U>(f: T -> U, xs: seq<T>): (ys: seq<U>)
    ensures |ys| == |xs| && forall i | 0 <= i < |xs| :: ys[i] == f(xs[i])
  {
    seq(|xs|, i requires 0 <= i < |xs| => f(xs[i]))
  }

  /** The dictionary order of sequences of numbers. */
  predicate Before(a: seq<int>, b: seq<int>) {
    if b == [] then false
    else if a == [] then true
    else if a[0] != b[0] then a[0] < b[0]
    else Before(a[1..], b[1..])
  }

  /** It is a strict total order. */
  lemma {:induction false} BeforeOrders(a: seq<int>, b: seq<int>, c: seq<int>)
    ensures !Before(a, a)
    ensures Before(a, b) && Before(b, c) ==> Before(a, c)
    ensures a != b ==> Before(a, b) || Before(b, a)
    decreases |a|
  {
    if a != [] {
      BeforeOrders(a[1..], if b == [] then [] else b[1..], if c == [] then [] else c[1..]);
      assert b != [] ==> a == [a[0]] + a[1..] && b == [b[0]] + b[1..];
    }
  }

  /** One comes before another when it is the beginning of it, or is less where they first differ. */
  lemma {:induction false} BeforeExactly(a: seq<int>, b: seq<int>)
    ensures Before(a, b) <==>
              exists k :: 0 <= k < |b| && k <= |a| && a[..k] == b[..k] && (k == |a| || a[k] < b[k])
    decreases |a|
  {
    if a == [] || b == [] || a[0] != b[0] {
      assert a[..0] == b[..0];
    } else {
      BeforeExactly(a[1..], b[1..]);
      if Before(a, b) {
        var k :| 0 <= k < |b| - 1 && k <= |a| - 1 && a[1..][..k] == b[1..][..k] && (k == |a| - 1 || a[1..][k] < b[1..][k]);
        assert a[..k + 1] == [a[0]] + a[1..][..k] && b[..k + 1] == [b[0]] + b[1..][..k];
      }
      if k :| 0 <= k < |b| && k <= |a| && a[..k] == b[..k] && (k == |a| || a[k] < b[k]) {
        assert a[1..][..k - 1] == a[..k][1..] && b[1..][..k - 1] == b[..k][1..];
        assert k - 1 < |a| - 1 ==> a[1..][k - 1] == a[k] && b[1..][k - 1] == b[k];
      }
    }
  }

  // ---------- Picking from a sequence ----------

  /** Some elements, in the order in which they stand. */
  ghost predicate PickedAt<T, U>(xs: seq<T>, keep: T -> bool, f: T -> U, ys: seq<U>, at: seq<nat>) {
    && |at| == |ys|
    && (forall i | 0 <= i < |at| :: at[i] < |xs| && keep(xs[at[i]]) && ys[i] == f(xs[at[i]]))
    && (forall i, j | 0 <= i < j < |at| :: at[i] < at[j])
    && (forall k: nat | k < |xs| && keep(xs[k]) :: k in at)
  }

  /** What f makes of exactly the elements that are kept, in their order, repeats included. */
  ghost predicate Picked<T, U>(xs: seq<T>, keep: T -> bool, f: T -> U, ys: seq<U>) {
    exists at: seq<nat> :: PickedAt(xs, keep, f, ys, at)
  }

  lemma PickNone<T, U>(keep: T -> bool, f: T -> U)
    ensures Picked([], keep, f, [])
  {
    assert PickedAt([], keep, f, [], []);
  }

  lemma PickNext<T, U>(xs: seq<T>, x: T, keep: T -> bool, f: T -> U, ys: seq<U>)
    requires Picked(xs, keep, f, ys)
    ensures Picked(xs + [x], keep, f, if keep(x) then ys + [f(x)] else ys)
  {
    var at: seq<nat> :| PickedAt(xs, keep, f, ys, at);
    if keep(x) {
      PickKept(xs, x, keep, f, ys, at);
    } else {
      PickSkipped(xs, x, keep, f, ys, at);
    }
  }

  lemma PickSkipped<T, U>(xs: seq<T>, x: T, keep: T -> bool, f: T -> U, ys: seq<U>, at: seq<nat>)
    requires PickedAt(xs, keep, f, ys, at) && !keep(x)
    ensures PickedAt(xs + [x], keep, f, ys, at)
  {
    forall k: nat | k < |xs + [x]| && keep((xs + [x])[k]) ensures k in at {
      assert keep(xs[k]);
    }
  }

  lemma PickKept<T, U>(xs: seq<T>, x: T, keep: T -> bool, f: T -> U, ys: seq<U>, at: seq<nat>)
    requires PickedAt(xs, keep, f, ys, at) && keep(x)
    ensures PickedAt(xs + [x], keep, f, ys + [f(x)], at + [|xs|])
  {
    var all, out, at' := xs + [x], ys + [f(x)], at + [|xs|];
    forall i | 0 <= i < |at'| ensures at'[i] < |all| && keep(all[at'[i]]) && out[i] == f(all[at'[i]]) {
      if i < |at| { assert at'[i] == at[i] && keep(xs[at[i]]); }
    }
    forall i, j | 0 <= i < j < |at'| ensures at'[i] < at'[j] {
      if j < |at| { assert at[i] < at[j]; } else { assert at'[i] == at[i] < |xs|; }
    }
    forall k: nat | k < |all| && keep(all[k]) ensures k in at' {
      if k < |xs| { assert keep(xs[k]) && k in at; } else { assert at'[|at|] == k; }
    }
  }

  // ---------- What a destination reports ----------

  datatype Status = Installed | InstallFailed | Unfulfilled

  /** `dated` is whether the report carries an install time, `reloaded` a reload time. */
  datatype Report = Report(status: Status, rolledBack: bool, dated: bool, reloaded: bool)
}
