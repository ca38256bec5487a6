/**
 The key derivation of appendix B.2 of RFC 7292, as the keystore code computes it in place
 (keystore_alias.go), and its agreement with the definition.
 */
module KeyDerivation {
  import opened Arithmetic
  import opened Prelude
  import opened BigEndian

  // ---------- The definition ----------

  /** A hash with a fixed output length. */
  ghost predicate HashesTo(h: Bytes -> Bytes, u: nat) {
    forall x: Bytes :: |h(x)| == u
  }

  /** H applied r times, and once if r is less than one. */
  function Iterate(h: Bytes -> Bytes, x: Bytes, r: int): Bytes
    decreases r
  {
    if r <= 1 then h(x) else h(Iterate(h, x, r - 1))
  }

  /** Copies of a pattern, the last one cut off. */
  function Cycle(pattern: Bytes, length: nat): (s: Bytes)
    requires pattern != []
    ensures |s| == length
    ensures forall k | 0 <= k < length :: s[k] == pattern[k % |pattern|]
  {
    seq(length, k requires 0 <= k < length => pattern[k % |pattern|])
  }

  /** A salt or password, repeated to a whole number of v-byte blocks; empty if empty. */
  function Padded(pattern: Bytes, v: nat): Bytes
    requires v > 0
  {
    if pattern == [] then [] else Cycle(pattern, Blocks(|pattern|, v) * v)
  }

  /** Every block of v bytes treated as (block + b + 1) modulo 2^(8v). */
  function Advance(blocks: Bytes, v: nat, b: nat): (s: Bytes)
    requires v > 0
    decreases |blocks|
  {
    if |blocks| < v then []
    else Fixed(Value(blocks[..v]) + b + 1, v) + Advance(blocks[v..], v, b)
  }

  lemma {:induction false} AdvanceLength(blocks: Bytes, v: nat, b: nat, n: nat)
    requires v > 0 && |blocks| == n * v
    ensures |Advance(blocks, v, b)| == |blocks|
    decreases n
  {
    if n > 0 {
      BlockStep(n - 1, v);
      AdvanceLength(blocks[v..], v, b, n - 1);
    }
  }

  lemma BlockStep(j: nat, v: nat)
    ensures (j + 1) * v == j * v + v && j * v >= 0
  {
  }

  /** I for the i-th round, n blocks of v bytes. */
  function Input(h: Bytes -> Bytes, u: nat, v: nat, n: nat, D: Bytes, I: Bytes, r: int, i: nat): (s: Bytes)
    requires v > 0 && u > 0 && HashesTo(h, u) && |I| == n * v
    ensures |s| == |I|
    decreases i
  {
    if i == 0 then I
    else
      var before := Input(h, u, v, n, D, I, r, i - 1);
      IterateLength(h, D + before, r, u);
      var B := Value(Cycle(Iterate(h, D + before, r), v));
      AdvanceLength(before, v, B, n);
      Advance(before, v, B)
  }

  /** The concatenation of the first c rounds' outputs. */
  function Rounds(h: Bytes -> Bytes, u: nat, v: nat, n: nat, D: Bytes, I: Bytes, r: int, c: nat): (s: Bytes)
    requires v > 0 && u > 0 && HashesTo(h, u) && |I| == n * v
    ensures |s| == c * u
  {
    if c == 0 then []
    else
      var last := D + Input(h, u, v, n, D, I, r, c - 1);
      IterateLength(h, last, r, u);
      BlockStep(c - 1, u);
      Rounds(h, u, v, n, D, I, r, c - 1) + Iterate(h, last, r)
  }

  lemma {:induction false} IterateLength(h: Bytes -> Bytes, x: Bytes, r: int, u: nat)
    requires HashesTo(h, u)
    ensures |Iterate(h, x, r)| == u
  {
  }

  function Diversifier(id: Byte, v: nat): Bytes { seq(v, _ => id) }

  /** How many blocks of v bytes a pattern is padded to. */
  function Blocks(length: nat, v: nat): nat
    requires v > 0
  {
    (length + v - 1) / v
  }

  /** The derived key: the first `size` bytes of A_1, A_2, ..., A_c with c = ceil(size / u). */
  function Derived(h: Bytes -> Bytes, u: nat, v: nat, salt: Bytes, password: Bytes, r: int, id: Byte, size: nat): (key: Bytes)
    requires u > 0 && v > 0 && HashesTo(h, u)
    ensures |key| == size
  {
    InputBlocks(salt, password, v);
    BlocksCover(size, u);
    Rounds(h, u, v, Blocks(|salt|, v) + Blocks(|password|, v), Diversifier(id, v),
           Padded(salt, v) + Padded(password, v), r, Blocks(size, u))[..size]
  }

  // ---------- Arithmetic of blocks ----------

  /** ceil(n / v) blocks cover n bytes, and no fewer do. */
  lemma BlocksCover(n: nat, v: nat)
    requires v > 0
    ensures n <= Blocks(n, v) * v < n + v
  {
    var q, m := (n + v - 1) / v, (n + v - 1) % v;
    assert n + v - 1 == q * v + m;
  }

  lemma InputBlocks(salt: Bytes, password: Bytes, v: nat)
    requires v > 0
    ensures |Padded(salt, v) + Padded(password, v)| == (Blocks(|salt|, v) + Blocks(|password|, v)) * v
  {
    BlocksCover(|salt|, v);
    BlocksCover(|password|, v);
    var m, n := Blocks(|salt|, v), Blocks(|password|, v);
    assert (m + n) * v == m * v + n * v;
    PaddedLength(salt, v);
    PaddedLength(password, v);
  }

  lemma PaddedLength(pattern: Bytes, v: nat)
    requires v > 0
    ensures |Padded(pattern, v)| == Blocks(|pattern|, v) * v
  {
    BlocksCover(0, v);
    if pattern == [] {
      assert Blocks(0, v) * v < v;
      if Blocks(0, v) > 0 { AtLeastOnce(Blocks(0, v), v); }
    }
  }

  // ---------- The code ----------

  function Repeat(pattern: Bytes, times: nat): (s: Bytes)
  {
    if times == 0 then [] else Repeat(pattern, times - 1) + pattern
  }

  lemma {:induction false} RepeatAt(pattern: Bytes, times: nat, k: nat)
    requires pattern != []
    ensures |Repeat(pattern, times)| == times * |pattern|
    ensures k < times * |pattern| ==> Repeat(pattern, times)[k] == pattern[k % |pattern|]
  {
    var n := |pattern|;
    if times > 0 {
      BlockStep(times - 1, n);
      RepeatAt(pattern, times - 1, if k < (times - 1) * n then k else 0);
      if (times - 1) * n <= k < times * n {
        ModUnique(k, times - 1, k - (times - 1) * n, n);
      }
    }
  }

  /** The salt or password padded out by cutting repeated copies short. */
  function FillWithRepeats(pattern: Bytes, v: nat): (s: Bytes)
    requires v > 0
    ensures s == Padded(pattern, v)
  {
    if pattern == [] then []
    else
      var outputLen := Blocks(|pattern|, v) * v;
      FillIsCycle(pattern, outputLen);
      Repeat(pattern, Blocks(outputLen, |pattern|))[..outputLen]
  }

  lemma FillIsCycle(pattern: Bytes, length: nat)
    requires pattern != []
    ensures length <= |Repeat(pattern, Blocks(length, |pattern|))|
    ensures Repeat(pattern, Blocks(length, |pattern|))[..length] == Cycle(pattern, length)
  {
    var times := Blocks(length, |pattern|);
    BlocksCover(length, |pattern|);
    RepeatAt(pattern, times, 0);
    forall k | 0 <= k < length ensures Repeat(pattern, times)[k] == pattern[k % |pattern|] {
      RepeatAt(pattern, times, k);
    }
  }

  /** What one block becomes: the sum's shortest form, cut to v bytes or set in zeros. */
  function BlockSum(sum: nat, v: nat): (s: Bytes)
    ensures s == Fixed(sum, v)
  {
    var b := Shortest(sum);
    var cut := if |b| > v then b[|b| - v..] else b;
    BlockSumIsFixed(sum, v);
    seq(v - |cut|, _ => 0) + cut
  }

  lemma BlockSumIsFixed(sum: nat, v: nat)
    ensures var b := Shortest(sum);
            var cut := if |b| > v then b[|b| - v..] else b;
            seq(v - |cut|, _ => 0) + cut == Fixed(sum, v)
  {
    var b := Shortest(sum);
    var cut := if |b| > v then b[|b| - v..] else b;
    ShortestValue(sum);
    FixedValue(sum, v);
    if |b| > v {
      TailValue(b, v);
    } else {
      ValueBound(b);
      PowGrows(|b|, v);
      ModUnique(sum, 0, sum, Pow256(v));
    }
    LeadingZeros(v - |cut|, cut);
    ValueInjective(seq(v - |cut|, _ => 0) + cut, Fixed(sum, v));
  }

  lemma {:induction false} PowGrows(m: nat, n: nat)
    requires m <= n
    ensures Pow256(m) <= Pow256(n)
  {
    if m < n {
      PowGrows(m, n - 1);
    }
  }

  /** Overwrite one block with a sum: zero it, then copy the sum's low bytes to its end. */
  method SetBlock(I: array<Byte>, lo: nat, v: nat, sum: nat)
    requires lo + v <= I.Length
    modifies I
    ensures I[..] == old(I[..lo]) + Fixed(sum, v) + old(I[lo + v..])
  {
    var b := Shortest(sum);
    if |b| > v {
      b := b[|b| - v..];
    }
    var k := 0;
    while k < v
      invariant 0 <= k <= v
      invariant forall i | 0 <= i < I.Length :: I[i] == if lo <= i < lo + k then 0 else old(I[i])
    {
      I[lo + k] := 0;
      k := k + 1;
    }
    k := 0;
    while k < |b|
      invariant 0 <= k <= |b|
      invariant forall i | 0 <= i < I.Length ::
        I[i] == if lo + v - |b| <= i < lo + v - |b| + k then b[i - (lo + v - |b|)]
                else if lo <= i < lo + v then 0
                else old(I[i])
    {
      I[lo + v - |b| + k] := b[k];
      k := k + 1;
    }
    assert I[lo..lo + v] == BlockSum(sum, v);
    assert I[..] == I[..lo] + I[lo..lo + v] + I[lo + v..];
  }

  lemma AdvanceNone(v: nat, b: nat)
    requires v > 0
    ensures Advance([], v, b) == []
  {
  }

  /** Overwriting the next block takes the update one block on. */
  lemma AdvanceStep(s: Bytes, s': Bytes, lo: nat, v: nat, b: nat)
    requires v > 0 && lo + v <= |s|
    requires s' == s[..lo] + Fixed(Value(s[lo..lo + v]) + b + 1, v) + s[lo + v..]
    ensures |s'| == |s| && s'[..lo + v] + Advance(s'[lo + v..], v, b) == s[..lo] + Advance(s[lo..], v, b)
  {
    var block := Fixed(Value(s[lo..lo + v]) + b + 1, v);
    SpliceParts(s[..lo], block, s[lo + v..]);
    assert s[lo..][..v] == s[lo..lo + v] && s[lo..][v..] == s[lo + v..];
    assert s[..lo] + (block + Advance(s[lo + v..], v, b)) == (s[..lo] + block) + Advance(s[lo + v..], v, b);
  }

  /**
   The block update of one round. Every block becomes (block + b + 1) modulo 2^(8v): carries out
   of the top byte are dropped, short sums are set in zeros, and no block is read after it is
   written or written twice.
   */
  method UpdateBlocks(I: array<Byte>, v: nat, n: nat, b: nat)
    requires v > 0 && I.Length == n * v
    modifies I
    ensures I[..] == Advance(old(I[..]), v, b)
  {
    hide Advance, Fixed, Value;
    ghost var was := I[..];
    var j, lo := 0, 0;
    assert I[..0] + Advance(I[0..], v, b) == Advance(was, v, b);
    while j < n
      invariant 0 <= j <= n && lo == j * v <= I.Length
      invariant I[..lo] + Advance(I[lo..], v, b) == Advance(was, v, b)
    {
      BlockFits(j, n, v);
      BlockStep(j, v);
      ghost var before := I[..];
      SetBlock(I, lo, v, Value(I[lo..lo + v]) + b + 1);
      AdvanceStep(before, I[..], lo, v, b);
      j, lo := j + 1, lo + v;
    }
    AdvanceNone(v, b);
    assert I[..lo] + [] == I[..];
  }

  lemma SpliceParts(head: Bytes, middle: Bytes, tail: Bytes)
    ensures var s := head + middle + tail;
            s[..|head| + |middle|] == head + middle && s[|head| + |middle|..] == tail
  {
  }

  lemma BlockFits(j: nat, n: nat, v: nat)
    requires j < n
    ensures j * v + v <= n * v
  {
    AtLeastOnce(n - j, v);
    assert (n - j) * v == n * v - j * v;
  }

  /** H applied r times, as the code loops. */
  method HashRounds(h: Bytes -> Bytes, x: Bytes, r: int) returns (out: Bytes)
    ensures out == Iterate(h, x, r)
  {
    out := h(x);
    var j := 1;
    while j < r
      invariant 1 <= j && (j <= r || j == 1)
      invariant out == Iterate(h, x, j)
    {
      out := h(out);
      j := j + 1;
    }
  }

  /** Copy one round's output into its place. */
  method CopyInto(A: array<Byte>, at: nat, x: Bytes)
    requires at + |x| <= A.Length
    modifies A
    ensures A[..at + |x|] == old(A[..at]) + x
  {
    var k := 0;
    while k < |x|
      invariant 0 <= k <= |x|
      invariant forall i | 0 <= i < A.Length :: A[i] == if at <= i < at + k then x[i - at] else old(A[i])
    {
      A[at + k] := x[k];
      k := k + 1;
    }
  }

  lemma RoundsStep(h: Bytes -> Bytes, u: nat, v: nat, n: nat, D: Bytes, I: Bytes, r: int, i: nat)
    requires v > 0 && u > 0 && HashesTo(h, u) && |I| == n * v
    ensures var x := D + Input(h, u, v, n, D, I, r, i);
            && |Iterate(h, x, r)| == u && (i + 1) * u == i * u + u
            && Rounds(h, u, v, n, D, I, r, i + 1) == Rounds(h, u, v, n, D, I, r, i) + Iterate(h, x, r)
            && Input(h, u, v, n, D, I, r, i + 1)
               == Advance(Input(h, u, v, n, D, I, r, i), v, Value(Cycle(Iterate(h, x, r), v)))
  {
    IterateLength(h, D + Input(h, u, v, n, D, I, r, i), r, u);
    BlockStep(i, u);
  }

  lemma RoundsStart(h: Bytes -> Bytes, u: nat, v: nat, n: nat, D: Bytes, I: Bytes, r: int)
    requires v > 0 && u > 0 && HashesTo(h, u) && |I| == n * v
    ensures Rounds(h, u, v, n, D, I, r, 0) == [] && Input(h, u, v, n, D, I, r, 0) == I
  {
  }

  /** The c rounds, over one buffer that is overwritten between them. */
  method RunRounds(h: Bytes -> Bytes, u: nat, v: nat, n: nat, D: Bytes, I: array<Byte>, r: int, c: nat)
    returns (A: array<Byte>)
    requires u > 0 && v > 0 && HashesTo(h, u) && I.Length == n * v
    modifies I
    ensures A[..] == Rounds(h, u, v, n, D, old(I[..]), r, c)
  {
    hide Rounds, Input, Advance, Iterate;
    ghost var start := I[..];
    A := new Byte[c * u](_ => 0);
    RoundsStart(h, u, v, n, D, start, r);
    var i := 0;
    while i < c
      invariant 0 <= i <= c && i * u <= A.Length
      invariant A[..i * u] == Rounds(h, u, v, n, D, start, r, i)
      invariant i < c ==> I[..] == Input(h, u, v, n, D, start, r, i)
      invariant A != I
    {
      var Ai := HashRounds(h, D + I[..], r);
      RoundsStep(h, u, v, n, D, start, r, i);
      BlockFits(i, c, u);
      CopyInto(A, i * u, Ai);
      if i == c - 1 {
        i := i + 1;
        break;
      }
      UpdateBlocks(I, v, n, Value(Cycle(Ai, v)));
      i := i + 1;
    }
    assert A[..c * u] == A[..];
  }

  /** The derivation as the code does it: the padded salt and password are the first input, and
      the outputs are cut to size at the end. */
  method Pbkdf(h: Bytes -> Bytes, u: nat, v: nat, salt: Bytes, password: Bytes, r: int, id: Byte, size: nat)
    returns (key: Bytes)
    requires u > 0 && v > 0 && HashesTo(h, u)
    ensures key == Derived(h, u, v, salt, password, r, id, size)
  {
    hide Rounds, Padded;
    InputBlocks(salt, password, v);
    BlocksCover(size, u);
    var start := FillWithRepeats(salt, v) + FillWithRepeats(password, v);
    var n := Blocks(|salt|, v) + Blocks(|password|, v);
    var I := new Byte[|start|](k requires 0 <= k < |start| => start[k]);
    assert I[..] == start;
    var A := RunRounds(h, u, v, n, Diversifier(id, v), I, r, Blocks(size, u));
    key := A[..size];
    assert A[..][..size] == key;
  }

  // ---------- What the definition comes to ----------

  /**
   When one hash output is enough, the key is the start of H^r(D || I), D being v bytes of ID: the block
   update is never reached. Every call in the keystore code is of this kind.
   */
  lemma OneRoundIsEnough(h: Bytes -> Bytes, u: nat, v: nat, salt: Bytes, password: Bytes, r: int, id: Byte, size: nat)
    requires u > 0 && v > 0 && HashesTo(h, u) && 0 < size <= u
    ensures var D: Bytes := seq(v, _ => id);
            var x := D + (Padded(salt, v) + Padded(password, v));
            |Iterate(h, x, r)| == u
            && Derived(h, u, v, salt, password, r, id, size) == Iterate(h, x, r)[..size]
  {
    hide Padded, Rounds, Input, Iterate, HashesTo;
    assert Diversifier(id, v) == seq(v, _ => id);
    var I := Padded(salt, v) + Padded(password, v);
    var n := Blocks(|salt|, v) + Blocks(|password|, v);
    InputBlocks(salt, password, v);
    ModUnique(size + u - 1, 1, size - 1, u);
    RoundsStart(h, u, v, n, Diversifier(id, v), I, r);
    RoundsStep(h, u, v, n, Diversifier(id, v), I, r, 0);
  }

  /**
   The block update is exact modular addition: block j of the result stands for
   (block j + b + 1) modulo 256^v, for every number of blocks.
   */
  lemma {:induction false} AdvanceAddsExactly(blocks: Bytes, v: nat, b: nat, j: nat)
    requires v > 0 && j * v + v <= |blocks|
    ensures j * v + v <= |Advance(blocks, v, b)|
    ensures Value(Advance(blocks, v, b)[j * v..j * v + v])
            == (Value(blocks[j * v..j * v + v]) + b + 1) % Pow256(v)
    decreases j
  {
    hide Value, Fixed, Pow256;
    var first, rest := Fixed(Value(blocks[..v]) + b + 1, v), Advance(blocks[v..], v, b);
    if j == 0 {
      FixedValue(Value(blocks[..v]) + b + 1, v);
      assert (first + rest)[..v] == first;
    } else {
      BlockStep(j - 1, v);
      var lo := (j - 1) * v;
      assert blocks[v..][lo..lo + v] == blocks[lo + v..lo + v + v];
      AdvanceAddsExactly(blocks[v..], v, b, j - 1);
      assert (first + rest)[lo + v..lo + v + v] == rest[lo..lo + v];
    }
  }
}
