/** Byte strings as big-endian numbers. */
module BigEndian {
  import opened Arithmetic
  import opened Prelude

  function Pow256(n: nat): (p: nat)
    ensures p > 0
  {
    if n == 0 then 1 else 256 * Pow256(n - 1)
  }

  /** The number a byte string stands for. */
  function Value(s: Bytes): nat {
    if s == [] then 0 else Value(s[..|s| - 1]) * 256 + s[|s| - 1]
  }

  /** The shortest byte string of a number. */
  function Shortest(n: nat): Bytes {
    if n == 0 then [] else Shortest(n / 256) + [n % 256]
  }

  /** The byte string of a given length that stands for a number modulo 256 to that length. */
  function Fixed(n: nat, length: nat): (s: Bytes)
    ensures |s| == length
  {
    if length == 0 then [] else Fixed(n / 256, length - 1) + [n % 256]
  }

  lemma {:induction false} ShortestValue(n: nat)
    ensures Value(Shortest(n)) == n
  {
    if n > 0 {
      ShortestValue(n / 256);
      assert Shortest(n)[..|Shortest(n)| - 1] == Shortest(n / 256);
    }
  }

  lemma {:induction false} PowSum(m: nat, n: nat)
    ensures Pow256(m + n) == Pow256(m) * Pow256(n)
  {
    if m > 0 {
      PowSum(m - 1, n);
      assert 256 * (Pow256(m - 1) * Pow256(n)) == (256 * Pow256(m - 1)) * Pow256(n);
    }
  }

  lemma {:induction false} ValueConcat(a: Bytes, b: Bytes)
    ensures Value(a + b) == Value(a) * Pow256(|b|) + Value(b)
  {
    if b == [] {
      assert a + b == a;
    } else {
      var b' := b[..|b| - 1];
      ValueConcat(a, b');
      assert (a + b)[..|a + b| - 1] == a + b';
      assert (Value(a) * Pow256(|b'|)) * 256 == Value(a) * (256 * Pow256(|b'|));
    }
  }

  lemma {:induction false} ValueBound(s: Bytes)
    ensures Value(s) < Pow256(|s|)
  {
    if s != [] {
      ValueBound(s[..|s| - 1]);
    }
  }

  lemma {:induction false} LeadingZeros(k: nat, s: Bytes)
    ensures Value(seq(k, _ => 0) + s) == Value(s)
  {
    var zeros: Bytes := seq(k, _ => 0);
    ValueConcat(zeros, s);
    ZeroValue(k);
  }

  lemma {:induction false} ZeroValue(k: nat)
    ensures Value(seq(k, _ => 0)) == 0
  {
    if k > 0 {
      ZeroValue(k - 1);
      var zeros: Bytes := seq(k, _ => 0);
      assert zeros[..k - 1] == seq(k - 1, _ => 0);
    }
  }

  /** Dropping leading bytes reduces the number modulo a power of 256. */
  lemma TailValue(s: Bytes, length: nat)
    requires length <= |s|
    ensures Value(s[|s| - length..]) == Value(s) % Pow256(length)
  {
    var head, tail := s[..|s| - length], s[|s| - length..];
    assert s == head + tail;
    ValueConcat(head, tail);
    ValueBound(tail);
    ModUnique(Value(s), Value(head), Value(tail), Pow256(length));
  }

  lemma {:induction false} FixedValue(n: nat, length: nat)
    ensures Value(Fixed(n, length)) == n % Pow256(length)
  {
    if length > 0 {
      FixedValue(n / 256, length - 1);
      assert Fixed(n, length)[..length - 1] == Fixed(n / 256, length - 1);
      ModShift(n, Pow256(length - 1));
    }
  }

  lemma ModShift(n: nat, m: nat)
    requires m > 0
    ensures (n / 256 % m) * 256 + n % 256 == n % (256 * m)
  {
    var q, r, b := n / 256 / m, n / 256 % m, n % 256;
    Rearrange(n, q, r, b, m);
    ModUnique(n, q, r * 256 + b, 256 * m);
  }

  lemma Rearrange(n: nat, q: nat, r: nat, b: nat, m: nat)
    requires n / 256 == q * m + r && n % 256 == b
    ensures n == q * (256 * m) + (r * 256 + b)
  {
    assert q * (256 * m) == 256 * (q * m);
  }

  /** Strings of the same length that stand for the same number are the same. */
  lemma {:induction false} ValueInjective(a: Bytes, b: Bytes)
    requires |a| == |b| && Value(a) == Value(b)
    ensures a == b
  {
    if a != [] {
      ValueInjective(a[..|a| - 1], b[..|b| - 1]);
      assert a == a[..|a| - 1] + [a[|a| - 1]] && b == b[..|b| - 1] + [b[|b| - 1]];
    }
  }
}
