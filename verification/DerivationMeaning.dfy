/**
 The derived key told byte by byte, as appendix B.2 of RFC 7292 tells it (keystore_alias.go).
 */
module DerivationMeaning {
  import opened Arithmetic
  import opened Prelude
  import opened BigEndian
  import opened KeyDerivation

  // ---------- The key, byte by byte ----------

  /** s is the pattern over and over, in as few blocks of v bytes as hold it; nothing if that is empty. */
  predicate FillsBlocks(s: Bytes, pattern: Bytes, v: nat) {
    && (forall k | 0 <= k < |s| :: pattern != [] && s[k] == pattern[k % |pattern|])
    && v > 0 && |s| % v == 0 && |pattern| <= |s| && (|s| < |pattern| + v)
  }

  lemma PaddedFills(pattern: Bytes, v: nat)
    requires v > 0
    ensures FillsBlocks(Padded(pattern, v), pattern, v)
  {
    BlocksCover(|pattern|, v);
    PaddedLength(pattern, v);
    ModUnique(Blocks(|pattern|, v) * v, Blocks(|pattern|, v), 0, v);
  }

  /** Applying r times, and once if r is less than one, one application after another. */
  ghost predicate Applied(h: Bytes -> Bytes, x: Bytes, r: int, y: Bytes) {
    exists steps: seq<Bytes> ::
      && |steps| == (if r < 1 then 1 else r) + 1 && steps[0] == x && steps[|steps| - 1] == y
      && forall i | 0 < i < |steps| :: steps[i] == h(steps[i - 1])
  }

  lemma {:induction false} IterateApplies(h: Bytes -> Bytes, x: Bytes, r: int)
    ensures Applied(h, x, r, Iterate(h, x, r))
    decreases r
  {
    if r <= 1 {
      var steps := [x, h(x)];
      assert |steps| == 2 && steps[1] == h(steps[0]);
    } else {
      IterateApplies(h, x, r - 1);
      var steps: seq<Bytes> :| && |steps| == r && steps[0] == x && steps[|steps| - 1] == Iterate(h, x, r - 1)
                               && forall i | 0 < i < |steps| :: steps[i] == h(steps[i - 1]);
      var more := steps + [Iterate(h, x, r)];
      assert more[0] == x && more[|more| - 1] == Iterate(h, x, r);
      forall i | 0 < i < |more| ensures more[i] == h(more[i - 1]) {
        if i < |steps| { assert more[i] == steps[i] == h(steps[i - 1]); }
      }
    }
  }

  /** The input of one round out of the one before: each block of v bytes plus the output repeated to v
      bytes, plus one, modulo 256^v. */
  ghost predicate NextInput(before: Bytes, output: Bytes, after: Bytes, v: nat) {
    && v > 0 && |after| == |before| && output != []
    && var B: Bytes := seq(v, k requires 0 <= k => output[k % |output|]);
       forall j: nat | j * v + v <= |before| :: BlockMoves(before, after, Value(B), v, j)
  }

  /** Block j becomes block j plus b plus one, modulo 256^v. */
  predicate BlockMoves(before: Bytes, after: Bytes, b: nat, v: nat, j: nat)
    requires j * v + v <= |before| == |after|
  {
    Value(after[j * v..j * v + v]) == (Value(before[j * v..j * v + v]) + b + 1) % Pow256(v)
  }

  lemma AdvanceIsNext(before: Bytes, output: Bytes, v: nat, n: nat)
    requires v > 0 && output != [] && |before| == n * v
    ensures NextInput(before, output, Advance(before, v, Value(Cycle(output, v))), v)
  {
    hide Advance, BlockMoves, Value;
    var B: Bytes := seq(v, k requires 0 <= k => output[k % |output|]);
    assert B == Cycle(output, v);
    var after := Advance(before, v, Value(B));
    AdvanceLength(before, v, Value(B), n);
    forall j: nat | j * v + v <= |before| ensures BlockMoves(before, after, Value(B), v, j) {
      AdvanceMoves(before, v, Value(B), j);
    }
  }

  lemma AdvanceMoves(before: Bytes, v: nat, b: nat, j: nat)
    requires v > 0 && j * v + v <= |before| == |Advance(before, v, b)|
    ensures BlockMoves(before, Advance(before, v, b), b, v, j)
  {
    hide Advance, Value, Pow256;
    AdvanceAddsExactly(before, v, b, j);
  }

  /** The key is the outputs one after another, cut; every round hashes D, v bytes of ID, and its input;
      the first input is the salt and the password, each filling blocks; and every other comes of the one
      before. */
  ghost predicate Derives(h: Bytes -> Bytes, u: nat, v: nat, salt: Bytes, password: Bytes, r: int, id: Byte,
                          key: Bytes, inputs: seq<Bytes>, outputs: seq<Bytes>) {
    && u > 0 && |inputs| == |outputs| && (|inputs| - 1) * u < |key| <= |inputs| * u
    && (inputs != [] ==>
          exists S, P :: FillsBlocks(S, salt, v) && FillsBlocks(P, password, v) && inputs[0] == S + P)
    && (forall i | 0 <= i < |inputs| :: |outputs[i]| == u && RoundOf(h, v, r, id, inputs[i], outputs[i]))
    && (forall i | 0 < i < |inputs| :: NextInput(inputs[i - 1], outputs[i - 1], inputs[i], v))
    && (forall i | 0 <= i < |outputs| :: StandsAt(outputs[i], key, i * u))
  }

  /** The output stands at a place of the key, as far as the key goes. */
  predicate StandsAt(output: Bytes, key: Bytes, at: int) {
    at >= 0 && forall k | 0 <= k < |output| && at + k < |key| :: key[at + k] == output[k]
  }

  ghost predicate RoundOf(h: Bytes -> Bytes, v: nat, r: int, id: Byte, input: Bytes, output: Bytes) {
    exists D: Bytes :: |D| == v && (forall k | 0 <= k < v :: D[k] == id) && Applied(h, D + input, r, output)
  }

  /** The rounds of the definition: each input and output. */
  function InputsOf(h: Bytes -> Bytes, u: nat, v: nat, n: nat, D: Bytes, I: Bytes, r: int, c: nat): (s: seq<Bytes>)
    requires v > 0 && u > 0 && HashesTo(h, u) && |I| == n * v
    ensures |s| == c && forall i | 0 <= i < c :: s[i] == Input(h, u, v, n, D, I, r, i)
  {
    seq(c, i requires 0 <= i < c => Input(h, u, v, n, D, I, r, i))
  }

  function OutputsOf(h: Bytes -> Bytes, u: nat, v: nat, n: nat, D: Bytes, I: Bytes, r: int, c: nat): (s: seq<Bytes>)
    requires v > 0 && u > 0 && HashesTo(h, u) && |I| == n * v
    ensures |s| == c && forall i | 0 <= i < c :: s[i] == Iterate(h, D + Input(h, u, v, n, D, I, r, i), r)
  {
    seq(c, i requires 0 <= i < c => Iterate(h, D + Input(h, u, v, n, D, I, r, i), r))
  }

  /** The i-th stretch of u bytes is the i-th round's output. */
  lemma {:induction false} RoundsAt(h: Bytes -> Bytes, u: nat, v: nat, n: nat, D: Bytes, I: Bytes, r: int, c: nat, i: nat, k: nat)
    requires v > 0 && u > 0 && HashesTo(h, u) && |I| == n * v && i < c && k < u
    ensures |Iterate(h, D + Input(h, u, v, n, D, I, r, i), r)| == u
    ensures 0 <= i * u + k < c * u
    ensures Rounds(h, u, v, n, D, I, r, c)[i * u + k] == Iterate(h, D + Input(h, u, v, n, D, I, r, i), r)[k]
    decreases c
  {
    hide Rounds, Input, Iterate;
    RoundsStep(h, u, v, n, D, I, r, c - 1);
    BlockFits(i, c, u);
    BlockStep(i, u);
    if i == c - 1 {
    } else {
      RoundsAt(h, u, v, n, D, I, r, c - 1, i, k);
    }
  }

  lemma RoundIs(h: Bytes -> Bytes, u: nat, v: nat, id: Byte, input: Bytes, r: int)
    requires HashesTo(h, u)
    ensures var output := Iterate(h, Diversifier(id, v) + input, r);
            |output| == u && RoundOf(h, v, r, id, input, output)
  {
    hide Iterate, HashesTo, Applied;
    var D := Diversifier(id, v);
    IterateLength(h, D + input, r, u);
    IterateApplies(h, D + input, r);
    assert |D| == v && forall k | 0 <= k < v :: D[k] == id;
  }

  lemma InputsFollow(h: Bytes -> Bytes, u: nat, v: nat, n: nat, D: Bytes, I: Bytes, r: int, i: nat)
    requires v > 0 && u > 0 && HashesTo(h, u) && |I| == n * v
    ensures NextInput(Input(h, u, v, n, D, I, r, i), Iterate(h, D + Input(h, u, v, n, D, I, r, i), r),
                      Input(h, u, v, n, D, I, r, i + 1), v)
  {
    hide Rounds, Input, Iterate, NextInput;
    RoundsStep(h, u, v, n, D, I, r, i);
    AdvanceIsNext(Input(h, u, v, n, D, I, r, i), Iterate(h, D + Input(h, u, v, n, D, I, r, i), r), v, n);
  }

  /** The key of the definition is derived so, for all parameters. */
  lemma DerivedDerives(h: Bytes -> Bytes, u: nat, v: nat, salt: Bytes, password: Bytes, r: int, id: Byte, size: nat)
    requires u > 0 && v > 0 && HashesTo(h, u)
    ensures exists inputs, outputs :: Derives(h, u, v, salt, password, r, id, Derived(h, u, v, salt, password, r, id, size), inputs, outputs)
  {
    hide Rounds, Input, Iterate, Padded, HashesTo, NextInput, FillsBlocks, RoundOf, Diversifier, Blocks;
    var D, I := Diversifier(id, v), Padded(salt, v) + Padded(password, v);
    var n, c := Blocks(|salt|, v) + Blocks(|password|, v), Blocks(size, u);
    InputBlocks(salt, password, v);
    BlocksCover(size, u);
    var inputs, outputs := InputsOf(h, u, v, n, D, I, r, c), OutputsOf(h, u, v, n, D, I, r, c);
    var key := Derived(h, u, v, salt, password, r, id, size);
    PaddedFills(salt, v);
    PaddedFills(password, v);
    RoundsStart(h, u, v, n, D, I, r);
    assert inputs != [] ==> inputs[0] == Padded(salt, v) + Padded(password, v);
    forall i | 0 <= i < c ensures |outputs[i]| == u && RoundOf(h, v, r, id, inputs[i], outputs[i]) {
      RoundIs(h, u, v, id, inputs[i], r);
    }
    forall i | 0 < i < c ensures NextInput(inputs[i - 1], outputs[i - 1], inputs[i], v) {
      InputsFollow(h, u, v, n, D, I, r, i - 1);
    }
    forall i | 0 <= i < c ensures StandsAt(outputs[i], key, i * u) {
      BlockStep(i, u);
      forall k | 0 <= k < |outputs[i]| && i * u + k < |key| ensures key[i * u + k] == outputs[i][k] {
        RoundsAt(h, u, v, n, D, I, r, c, i, k);
      }
    }
    assert (c - 1) * u == c * u - u;
    assert Derives(h, u, v, salt, password, r, id, key, inputs, outputs);
  }
}
