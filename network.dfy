/**
 * The policy of an animal: a fixed feed-forward network with 3 inputs,
 * 4 hidden units (ReLU) and 2 outputs (tanh, then a dead-zone step), whose
 * output is a move of at most one cell on each axis. Weights are reals;
 * tanh is whatever function the caller supplies.
 */
module Network {
  import opened Rng

  const InputCount := 3
  const HiddenCount := 4
  const OutputCount := 2
  /** Number of weights: the 3x4 input-to-hidden matrix, then the 4x2 hidden-to-output one. */
  const WeightCount := InputCount * HiddenCount + HiddenCount * OutputCount

  /** A move of the network: `(dx, dy)`. */
  datatype Move = Move(dx: int, dy: int)

  predicate IsUnitMove(m: Move) {
    -1 <= m.dx <= 1 && -1 <= m.dy <= 1
  }

  /** The dead-zone quantiser: above 0.1 is 1, below -0.1 is -1, between is 0. */
  function Step(x: real): (r: real)
    ensures r == 1.0 || r == 0.0 || r == -1.0
    ensures r == 1.0 <==> x > 0.1
    ensures r == -1.0 <==> x < -0.1
  {
    if x > 0.1 then 1.0 else if x < -0.1 then -1.0 else 0.0
  }

  /** Rectified linear unit: the larger of x and 0. */
  function ReLU(x: real): (r: real)
    ensures r >= 0.0 && r >= x
    ensures r == x || r == 0.0
  {
    if x > 0.0 then x else 0.0
  }

  /**
   * One weight of a clone: copied from the parent, then, when the first draw
   * is below the rate, shifted by the second draw rescaled to
   * [-strength, strength). Returns the weight and the next unused draw.
   */
  function MutateOne(w: real, draws: nat -> real, cursor: nat, rate: real, strength: real): (r: (real, nat))
    ensures r.1 == (if draws(cursor) < rate then cursor + 2 else cursor + 1)
    ensures r.1 == cursor + 1 ==> r.0 == w
  {
    if draws(cursor) < rate then (w + (draws(cursor + 1) * 2.0 - 1.0) * strength, cursor + 2)
    else (w, cursor + 1)
  }

  /**
   * The weights `ws`, in order, each passed through MutateOne, starting at
   * draw `cursor`: the clone's weights and the next unused draw.
   */
  function Mutated(ws: seq<real>, draws: nat -> real, cursor: nat, rate: real, strength: real): (r: (seq<real>, nat))
    ensures |r.0| == |ws|
    ensures cursor + |ws| <= r.1 <= cursor + 2 * |ws|
  {
    if ws == [] then ([], cursor)
    else
      var prev := Mutated(ws[..|ws| - 1], draws, cursor, rate, strength);
      var last := MutateOne(ws[|ws| - 1], draws, prev.1, rate, strength);
      (prev.0 + [last.0], last.1)
  }

  /** Every weight of `child` is the one of `parent`, or differs from it by at most `strength`. */
  ghost predicate WithinMutation(parent: seq<real>, child: seq<real>, strength: real) {
    |child| == |parent| &&
    forall k :: 0 <= k < |parent| ==>
      child[k] == parent[k] || (-strength <= child[k] - parent[k] <= strength)
  }

  /** A mutated weight differs from its parent's by at most `strength`. */
  lemma MutateOneWithin(w: real, draws: nat -> real, cursor: nat, rate: real, strength: real)
    requires strength >= 0.0 && 0.0 <= draws(cursor + 1) < 1.0
    ensures var r := MutateOne(w, draws, cursor, rate, strength).0;
      r == w || -strength <= r - w <= strength
  {
    var x := draws(cursor + 1) * 2.0 - 1.0;
    ScaledWithin(x, strength);
    if draws(cursor) < rate {
      assert MutateOne(w, draws, cursor, rate, strength).0 == w + x * strength;
    }
  }

  lemma {:induction false} MutatedWithinStrength(ws: seq<real>, draws: nat -> real, cursor: nat, rate: real, strength: real)
    requires strength >= 0.0
    requires forall k: nat :: 0.0 <= draws(k) < 1.0
    ensures WithinMutation(ws, Mutated(ws, draws, cursor, rate, strength).0, strength)
  {
    if ws != [] {
      var init := ws[..|ws| - 1];
      MutatedWithinStrength(init, draws, cursor, rate, strength);
      var prev := Mutated(init, draws, cursor, rate, strength);
      var last := MutateOne(ws[|ws| - 1], draws, prev.1, rate, strength);
      MutateOneWithin(ws[|ws| - 1], draws, prev.1, rate, strength);
      var r := Mutated(ws, draws, cursor, rate, strength).0;
      assert r == prev.0 + [last.0];
      forall k | 0 <= k < |ws|
        ensures r[k] == ws[k] || (-strength <= r[k] - ws[k] <= strength)
      {
        if k < |ws| - 1 {
          assert r[k] == prev.0[k] && ws[k] == init[k];
        }
      }
    }
  }

  /** With a rate of 0 or less no draw is below it, so the clone is an exact copy. */
  lemma {:induction false} MutatedAtZeroRate(ws: seq<real>, draws: nat -> real, cursor: nat, rate: real, strength: real)
    requires rate <= 0.0
    requires forall k: nat :: 0.0 <= draws(k) < 1.0
    ensures Mutated(ws, draws, cursor, rate, strength).0 == ws
    ensures Mutated(ws, draws, cursor, rate, strength).1 == cursor + |ws|
  {
    if ws != [] {
      MutatedAtZeroRate(ws[..|ws| - 1], draws, cursor, rate, strength);
      assert ws[..|ws| - 1] + [ws[|ws| - 1]] == ws;
    }
  }

  /** Mutating one more weight extends the clone by MutateOne of that weight. */
  lemma MutatedStep(ws: seq<real>, n: nat, draws: nat -> real, cursor: nat, rate: real, strength: real)
    requires n < |ws|
    ensures var prev := Mutated(ws[..n], draws, cursor, rate, strength);
      var last := MutateOne(ws[n], draws, prev.1, rate, strength);
      Mutated(ws[..n + 1], draws, cursor, rate, strength) == (prev.0 + [last.0], last.1)
  {
    assert ws[..n + 1][..n] == ws[..n];
  }

  lemma DivMod4(i: nat, j: nat)
    requires j < 4
    ensures (4 * i + j) / 4 == i && (4 * i + j) % 4 == j
  {
  }

  lemma DivMod2(i: nat, j: nat)
    requires j < 2
    ensures (2 * i + j) / 2 == i && (2 * i + j) % 2 == j
  {
  }

  /** A factor in [-1, 1] scales s >= 0 into [-s, s]. */
  lemma ScaledWithin(x: real, s: real)
    requires -1.0 <= x <= 1.0 && s >= 0.0
    ensures -s <= x * s <= s
  {
    assert (1.0 - x) * s >= 0.0;
    assert (1.0 + x) * s >= 0.0;
  }

  class NeuralNetwork {
    /** Input-to-hidden weights, `w1[i, j]` from input i to hidden unit j. */
    const w1: array2<real>
    /** Hidden-to-output weights, `w2[i, j]` from hidden unit i to output j. */
    const w2: array2<real>
    /** The network's own generator; clones are mutated with the parent's. */
    const rand: Random

    ghost predicate Valid() {
      w1.Length0 == InputCount && w1.Length1 == HiddenCount &&
      w2.Length0 == HiddenCount && w2.Length1 == OutputCount &&
      rand.Valid()
    }

    /** Weight number k in the order the loops visit them: w1 row by row, then w2 row by row. */
    ghost function Weight(k: nat): real
      requires Valid() && k < WeightCount
      reads w1, w2
    {
      if k < InputCount * HiddenCount then w1[k / HiddenCount, k % HiddenCount]
      else w2[(k - InputCount * HiddenCount) / OutputCount, (k - InputCount * HiddenCount) % OutputCount]
    }

    ghost function Weights(): (ws: seq<real>)
      requires Valid()
      reads w1, w2
      ensures |ws| == WeightCount
      ensures forall k :: 0 <= k < WeightCount ==> ws[k] == Weight(k)
    {
      seq(WeightCount, k requires 0 <= k < WeightCount reads w1, w2 => Weight(k))
    }

    /** Weight number 4i + j is `w1[i, j]`. */
    lemma Index1(i: nat, j: nat)
      requires Valid() && i < InputCount && j < HiddenCount
      ensures Weight(HiddenCount * i + j) == w1[i, j]
    {
      DivMod4(i, j);
    }

    /** Weight number 12 + 2i + j is `w2[i, j]`. */
    lemma Index2(i: nat, j: nat)
      requires Valid() && i < HiddenCount && j < OutputCount
      ensures Weight(InputCount * HiddenCount + OutputCount * i + j) == w2[i, j]
    {
      DivMod2(i, j);
    }

    /** Every weight number names an entry of w1 or of w2. */
    lemma IndexOf(k: nat)
      requires Valid() && k < WeightCount
      ensures k < InputCount * HiddenCount ==>
        var i, j := k / HiddenCount, k % HiddenCount;
        i < InputCount && k == HiddenCount * i + j && Weight(k) == w1[i, j]
      ensures k >= InputCount * HiddenCount ==>
        var k' := k - InputCount * HiddenCount;
        var i, j := k' / OutputCount, k' % OutputCount;
        i < HiddenCount && k == InputCount * HiddenCount + OutputCount * i + j && Weight(k) == w2[i, j]
    {
    }

    /** `new NeuralNetwork()`: fresh matrices filled by RandomizeWeights from a fresh generator. */
    constructor (entropy: Entropy)
      requires entropy.Valid()
      modifies entropy
      ensures Valid() && fresh(w1) && fresh(w2) && fresh(rand)
      ensures entropy.next == old(entropy.next) + 1
      ensures rand.source == entropy.streams(old(entropy.next)) && rand.cursor == WeightCount
      ensures forall k :: 0 <= k < WeightCount ==>
        Weights()[k] == rand.source(k) * 2.0 - 1.0 && -1.0 <= Weights()[k] < 1.0
    {
      w1 := new real[InputCount, HiddenCount];
      w2 := new real[HiddenCount, OutputCount];
      var r := entropy.NewRandom();
      rand := r;
      new;
      RandomizeWeights();
    }

    /** Fills row i of `a`, in column order, with draws rescaled to [-1, 1). */
    method RandomizeRow(a: array2<real>, i: nat)
      requires rand.Valid() && i < a.Length0
      modifies a, rand
      ensures rand.cursor == old(rand.cursor) + a.Length1
      ensures forall j :: 0 <= j < a.Length1 ==> a[i, j] == rand.source(old(rand.cursor) + j) * 2.0 - 1.0
      ensures forall i', j :: 0 <= i' < a.Length0 && i' != i && 0 <= j < a.Length1 ==> a[i', j] == old(a[i', j])
    {
      ghost var c0 := rand.cursor;
      for j := 0 to a.Length1
        invariant rand.cursor == c0 + j
        invariant forall j' :: 0 <= j' < j ==> a[i, j'] == rand.source(c0 + j') * 2.0 - 1.0
        invariant forall i', j' :: 0 <= i' < a.Length0 && i' != i && 0 <= j' < a.Length1 ==> a[i', j'] == old(a[i', j'])
      {
        var d := rand.NextDouble();
        a[i, j] := d * 2.0 - 1.0;
      }
    }

    /** Fills both matrices, in loop order, with draws rescaled to [-1, 1). */
    method RandomizeWeights()
      requires Valid()
      modifies w1, w2, rand
      ensures Valid() && rand.cursor == old(rand.cursor) + WeightCount
      ensures forall k :: 0 <= k < WeightCount ==>
        Weights()[k] == rand.source(old(rand.cursor) + k) * 2.0 - 1.0 && -1.0 <= Weights()[k] < 1.0
    {
      ghost var c0 := rand.cursor;
      for i := 0 to w1.Length0
        modifies w1, rand
        invariant rand.cursor == c0 + HiddenCount * i
        invariant forall i', j' :: 0 <= i' < i && 0 <= j' < HiddenCount ==>
          w1[i', j'] == rand.source(c0 + HiddenCount * i' + j') * 2.0 - 1.0
      {
        RandomizeRow(w1, i);
      }
      ghost var c1 := c0 + InputCount * HiddenCount;
      for i := 0 to w2.Length0
        modifies w2, rand
        invariant rand.cursor == c1 + OutputCount * i
        invariant forall i', j' :: 0 <= i' < i && 0 <= j' < OutputCount ==>
          w2[i', j'] == rand.source(c1 + OutputCount * i' + j') * 2.0 - 1.0
      {
        RandomizeRow(w2, i);
      }
      forall k | 0 <= k < WeightCount
        ensures Weights()[k] == rand.source(c0 + k) * 2.0 - 1.0
      {
        IndexOf(k);
      }
    }

    /** Weighted sum of the first n inputs into hidden unit j. */
    function InputSum(inputs: seq<real>, j: nat, n: nat): real
      requires Valid() && |inputs| == InputCount && j < HiddenCount && n <= InputCount
      reads w1
    {
      if n == 0 then 0.0 else InputSum(inputs, j, n - 1) + inputs[n - 1] * w1[n - 1, j]
    }

    /** Activation of hidden unit j. */
    function Hidden(inputs: seq<real>, j: nat): real
      requires Valid() && |inputs| == InputCount && j < HiddenCount
      reads w1
    {
      ReLU(InputSum(inputs, j, InputCount))
    }

    /** Weighted sum of the first n hidden activations into output j. */
    function HiddenSum(inputs: seq<real>, j: nat, n: nat): real
      requires Valid() && |inputs| == InputCount && j < OutputCount && n <= HiddenCount
      reads w1, w2
    {
      if n == 0 then 0.0 else HiddenSum(inputs, j, n - 1) + Hidden(inputs, n - 1) * w2[n - 1, j]
    }

    /** The move the network picks for the given inputs: always a unit move. */
    function Decide(tanh: real -> real, hunger: real, foodDx: real, foodDy: real): (m: Move)
      requires Valid()
      reads w1, w2
      ensures IsUnitMove(m)
    {
      var inputs := [hunger, foodDx, foodDy];
      Move(Step(tanh(HiddenSum(inputs, 0, HiddenCount))).Floor,
           Step(tanh(HiddenSum(inputs, 1, HiddenCount))).Floor)
    }

    /** The first half of the forward pass: the hidden activations for `input`. */
    method HiddenLayer(input: array<real>) returns (hidden: array<real>)
      requires Valid() && input.Length == InputCount
      ensures fresh(hidden) && hidden.Length == HiddenCount
      ensures forall j :: 0 <= j < HiddenCount ==> hidden[j] == Hidden(input[..], j)
    {
      hidden := new real[HiddenCount];
      for j := 0 to HiddenCount
        modifies hidden
        invariant forall j' :: 0 <= j' < j ==> hidden[j'] == Hidden(input[..], j')
      {
        var sum := 0.0;
        for i := 0 to InputCount
          invariant sum == InputSum(input[..], j, i)
        {
          sum := sum + input[i] * w1[i, j];
        }
        hidden[j] := ReLU(sum);
      }
    }

    /** The second half of the forward pass: tanh of each output's weighted sum. */
    method OutputLayer(tanh: real -> real, input: array<real>, hidden: array<real>) returns (output: array<real>)
      requires Valid() && input.Length == InputCount && hidden.Length == HiddenCount
      requires forall j :: 0 <= j < HiddenCount ==> hidden[j] == Hidden(input[..], j)
      ensures fresh(output) && output.Length == OutputCount
      ensures forall j :: 0 <= j < OutputCount ==> output[j] == tanh(HiddenSum(input[..], j, HiddenCount))
    {
      output := new real[OutputCount];
      for j := 0 to OutputCount
        modifies output
        invariant forall j' :: 0 <= j' < j ==> output[j'] == tanh(HiddenSum(input[..], j', HiddenCount))
      {
        var sum := 0.0;
        for i := 0 to HiddenCount
          invariant sum == HiddenSum(input[..], j, i)
        {
          sum := sum + hidden[i] * w2[i, j];
        }
        output[j] := tanh(sum);
      }
    }

    /** Forward pass; reads the weights and changes nothing. */
    method Forward(tanh: real -> real, hunger: real, foodDx: real, foodDy: real) returns (m: Move)
      requires Valid()
      ensures m == Decide(tanh, hunger, foodDx, foodDy)
      ensures IsUnitMove(m)
    {
      var input := new real[] [hunger, foodDx, foodDy];
      assert input[..] == [hunger, foodDx, foodDy];
      var hidden := HiddenLayer(input);
      var output := OutputLayer(tanh, input, hidden);
      var dx := Step(output[0]).Floor;
      var dy := Step(output[1]).Floor;
      m := Move(dx, dy);
    }

    /**
     * The body of CloneAndMutate's loops for entry (i, j): `src[i, j]`,
     * shifted by a second draw when the first is below the rate, ends up in
     * `dst[i, j]`. `done` is the part of the
     * weight sequence `ws` already mutated; `ws[|done|]` is this entry.
     */
    method MutateEntry(src: array2<real>, dst: array2<real>, i: nat, j: nat, mutationRate: real, mutationStrength: real,
                       ghost ws: seq<real>, ghost c0: nat, ghost done: seq<real>)
      returns (ghost done': seq<real>)
      requires rand.Valid() && src != dst
      requires i < src.Length0 && j < src.Length1 && dst.Length0 == src.Length0 && dst.Length1 == src.Length1
      requires |done| < |ws| && ws[|done|] == src[i, j]
      requires (done, rand.cursor) == Mutated(ws[..|done|], rand.source, c0, mutationRate, mutationStrength)
      modifies dst, rand
      ensures done' == done + [dst[i, j]]
      ensures (done', rand.cursor) == Mutated(ws[..|done'|], rand.source, c0, mutationRate, mutationStrength)
      ensures forall i', j' :: 0 <= i' < dst.Length0 && 0 <= j' < dst.Length1 && (i' != i || j' != j) ==>
        dst[i', j'] == old(dst[i', j'])
    {
      ghost var c := rand.cursor;
      ghost var step := MutateOne(ws[|done|], rand.source, c, mutationRate, mutationStrength);
      var w := src[i, j];
      var d := rand.NextDouble();
      if d < mutationRate {
        var e := rand.NextDouble();
        w := w + (e * 2.0 - 1.0) * mutationStrength;
      }
      assert w == step.0 && rand.cursor == step.1;
      dst[i, j] := w;
      done' := done + [w];
      MutatedStep(ws, |done|, rand.source, c0, mutationRate, mutationStrength);
    }

    /**
     * The inner loop of CloneAndMutate for row i of one matrix: each entry of
     * `src`'s row, passed through MutateEntry, into the same place in `dst`.
     * `ws` is the parent's weight sequence, whose entries from |done| on are
     * this row's, and `done` is the part of it already mutated.
     */
    method MutateRow(src: array2<real>, dst: array2<real>, i: nat, mutationRate: real, mutationStrength: real,
                     ghost ws: seq<real>, ghost c0: nat, ghost done: seq<real>)
      returns (ghost done': seq<real>)
      requires rand.Valid() && src != dst
      requires i < src.Length0 && dst.Length0 == src.Length0 && dst.Length1 == src.Length1
      requires |done| + src.Length1 <= |ws|
      requires forall j :: 0 <= j < src.Length1 ==> ws[|done| + j] == src[i, j]
      requires (done, rand.cursor) == Mutated(ws[..|done|], rand.source, c0, mutationRate, mutationStrength)
      modifies dst, rand
      ensures |done'| == |done| + src.Length1 && done'[..|done|] == done
      ensures (done', rand.cursor) == Mutated(ws[..|done'|], rand.source, c0, mutationRate, mutationStrength)
      ensures forall j :: 0 <= j < src.Length1 ==> dst[i, j] == done'[|done| + j]
      ensures forall i', j :: 0 <= i' < src.Length0 && i' != i && 0 <= j < src.Length1 ==> dst[i', j] == old(dst[i', j])
    {
      done' := done;
      for j := 0 to src.Length1
        modifies dst, rand
        invariant |done'| == |done| + j && done'[..|done|] == done
        invariant (done', rand.cursor) == Mutated(ws[..|done'|], rand.source, c0, mutationRate, mutationStrength)
        invariant forall j' :: 0 <= j' < j ==> dst[i, j'] == done'[|done| + j']
        invariant forall i', j' :: 0 <= i' < src.Length0 && i' != i && 0 <= j' < src.Length1 ==> dst[i', j'] == old(dst[i', j'])
      {
        done' := MutateEntry(src, dst, i, j, mutationRate, mutationStrength, ws, c0, done');
      }
    }

    /**
     * One pass of CloneAndMutate's first outer loop: row i of the clone's
     * input-to-hidden weights, extending the mutated prefix `done` of `ws` by
     * that row while the rows before it keep their values.
     */
    method MutateFirstRow(clone: NeuralNetwork, i: nat, mutationRate: real, mutationStrength: real,
                          ghost ws: seq<real>, ghost c0: nat, ghost done: seq<real>)
      returns (ghost done': seq<real>)
      requires Valid() && clone.Valid() && clone.w1 != w1 && i < InputCount
      requires |ws| == WeightCount && |done| == HiddenCount * i
      requires forall j :: 0 <= j < HiddenCount ==> ws[HiddenCount * i + j] == w1[i, j]
      requires (done, rand.cursor) == Mutated(ws[..|done|], rand.source, c0, mutationRate, mutationStrength)
      requires forall i', j' :: 0 <= i' < i && 0 <= j' < HiddenCount ==> clone.w1[i', j'] == done[HiddenCount * i' + j']
      modifies clone.w1, rand
      ensures |done'| == HiddenCount * (i + 1)
      ensures (done', rand.cursor) == Mutated(ws[..|done'|], rand.source, c0, mutationRate, mutationStrength)
      ensures forall i', j' :: 0 <= i' <= i && 0 <= j' < HiddenCount ==> clone.w1[i', j'] == done'[HiddenCount * i' + j']
    {
      done' := MutateRow(w1, clone.w1, i, mutationRate, mutationStrength, ws, c0, done);
      forall i', j' | 0 <= i' <= i && 0 <= j' < HiddenCount
        ensures clone.w1[i', j'] == done'[HiddenCount * i' + j']
      {
        if i' < i {
          assert done'[HiddenCount * i' + j'] == done'[..|done|][HiddenCount * i' + j'];
        }
      }
    }

    /**
     * CloneAndMutate's first loop: the clone's input-to-hidden weights, row by
     * row, each this network's weight passed through MutateEntry.
     */
    method MutateFirstLayer(clone: NeuralNetwork, mutationRate: real, mutationStrength: real, ghost parent: seq<real>)
      returns (ghost done: seq<real>)
      requires Valid() && clone.Valid() && clone.w1 != w1 && clone.w1 != w2
      requires |parent| == WeightCount
      requires forall i, j :: 0 <= i < InputCount && 0 <= j < HiddenCount ==> parent[HiddenCount * i + j] == w1[i, j]
      modifies clone.w1, rand
      ensures (done, rand.cursor) == Mutated(parent[..InputCount * HiddenCount], rand.source, old(rand.cursor), mutationRate, mutationStrength)
      ensures forall i, j :: 0 <= i < InputCount && 0 <= j < HiddenCount ==> clone.w1[i, j] == done[HiddenCount * i + j]
    {
      ghost var c0 := rand.cursor;
      done := [];
      for i := 0 to w1.Length0
        modifies clone.w1, rand
        invariant |done| == HiddenCount * i
        invariant (done, rand.cursor) == Mutated(parent[..|done|], rand.source, c0, mutationRate, mutationStrength)
        invariant forall i', j' :: 0 <= i' < i && 0 <= j' < HiddenCount ==>
          clone.w1[i', j'] == done[HiddenCount * i' + j']
      {
        done := MutateFirstRow(clone, i, mutationRate, mutationStrength, parent, c0, done);
      }
    }

    /**
     * CloneAndMutate's second loop: the clone's hidden-to-output weights,
     * continuing the mutation of the weight sequence from `first`.
     */
    method MutateSecondLayer(clone: NeuralNetwork, mutationRate: real, mutationStrength: real,
                             ghost parent: seq<real>, ghost first: seq<real>, ghost c0: nat)
      returns (ghost done: seq<real>)
      requires Valid() && clone.Valid() && clone.w2 != w1 && clone.w2 != w2
      requires |parent| == WeightCount
      requires forall i, j :: 0 <= i < HiddenCount && 0 <= j < OutputCount ==>
        parent[InputCount * HiddenCount + OutputCount * i + j] == w2[i, j]
      requires (first, rand.cursor) == Mutated(parent[..InputCount * HiddenCount], rand.source, c0, mutationRate, mutationStrength)
      modifies clone.w2, rand
      ensures (done, rand.cursor) == Mutated(parent, rand.source, c0, mutationRate, mutationStrength)
      ensures done[..InputCount * HiddenCount] == first
      ensures forall i, j :: 0 <= i < HiddenCount && 0 <= j < OutputCount ==>
        clone.w2[i, j] == done[InputCount * HiddenCount + OutputCount * i + j]
    {
      done := first;
      for i := 0 to w2.Length0
        modifies clone.w2, rand
        invariant |done| == InputCount * HiddenCount + OutputCount * i
        invariant done[..InputCount * HiddenCount] == first
        invariant (done, rand.cursor) == Mutated(parent[..|done|], rand.source, c0, mutationRate, mutationStrength)
        invariant forall i', j' :: 0 <= i' < i && 0 <= j' < OutputCount ==>
          clone.w2[i', j'] == done[InputCount * HiddenCount + OutputCount * i' + j']
      {
        ghost var rows := done;
        done := MutateRow(w2, clone.w2, i, mutationRate, mutationStrength, parent, c0, done);
        assert done[..InputCount * HiddenCount] == rows[..InputCount * HiddenCount];
        forall i', j' | 0 <= i' < i + 1 && 0 <= j' < OutputCount
          ensures clone.w2[i', j'] == done[InputCount * HiddenCount + OutputCount * i' + j']
        {
          if i' < i {
            assert done[InputCount * HiddenCount + OutputCount * i' + j'] == rows[InputCount * HiddenCount + OutputCount * i' + j'];
          }
        }
      }
      assert parent[..WeightCount] == parent;
    }

    /**
     * A new network whose weights are this one's, each mutated by MutateOne
     * from this network's generator; the clone's own random start values are
     * all overwritten.
     */
    method CloneAndMutate(mutationRate: real, mutationStrength: real, entropy: Entropy) returns (clone: NeuralNetwork)
      requires Valid() && entropy.Valid()
      modifies rand, entropy
      ensures fresh(clone) && fresh(clone.w1) && fresh(clone.w2) && fresh(clone.rand) && clone.Valid()
      ensures Weights() == old(Weights())
      ensures var r := Mutated(Weights(), rand.source, old(rand.cursor), mutationRate, mutationStrength);
        clone.Weights() == r.0 && rand.cursor == r.1
      ensures entropy.next == old(entropy.next) + 1 && clone.rand.source == entropy.streams(old(entropy.next))
      ensures clone.rand.cursor == WeightCount
    {
      ghost var c0 := rand.cursor;
      ghost var parent := Weights();
      forall i, j | 0 <= i < InputCount && 0 <= j < HiddenCount
        ensures parent[HiddenCount * i + j] == w1[i, j]
      {
        Index1(i, j);
      }
      forall i, j | 0 <= i < HiddenCount && 0 <= j < OutputCount
        ensures parent[InputCount * HiddenCount + OutputCount * i + j] == w2[i, j]
      {
        Index2(i, j);
      }
      clone := new NeuralNetwork(entropy);
      ghost var first := MutateFirstLayer(clone, mutationRate, mutationStrength, parent);
      ghost var done := MutateSecondLayer(clone, mutationRate, mutationStrength, parent, first, c0);
      forall k | 0 <= k < WeightCount
        ensures clone.Weights()[k] == done[k]
      {
        clone.IndexOf(k);
        if k < InputCount * HiddenCount {
          assert done[k] == first[k];
        }
      }
    }
  }
}
