/**
 * The pseudo-random generators the simulation uses (System.Random), with
 * their output handed in from outside: a generator is the stream of values
 * in [0, 1) that its NextDouble calls would return, and a cursor saying how
 * many of them have been used.
 */
module Rng {

  /** Scales a draw in [0, 1) to an integer in [0, n): the rule Next(n) follows. */
  function Scale(u: real, n: nat): (r: int)
    requires 0.0 <= u < 1.0
    ensures 0 <= r
    ensures n > 0 ==> r < n
    ensures n == 0 ==> r == 0
  {
    assert u * n as real < n as real || n == 0;
    (u * n as real).Floor
  }

  class Random {
    /** `source(k)` is the k-th value this generator yields. */
    const source: nat -> real
    var cursor: nat

    ghost predicate Valid() {
      forall k: nat :: 0.0 <= source(k) < 1.0
    }

    constructor (source: nat -> real)
      requires forall k: nat :: 0.0 <= source(k) < 1.0
      ensures Valid() && this.source == source && cursor == 0
    {
      this.source := source;
      cursor := 0;
    }

    /** NextDouble(): the next draw, in [0, 1). */
    method NextDouble() returns (d: real)
      requires Valid()
      modifies this
      ensures d == source(old(cursor)) && cursor == old(cursor) + 1
      ensures 0.0 <= d < 1.0
    {
      d := source(cursor);
      cursor := cursor + 1;
    }

    /** Next(n): the next draw scaled to [0, n); Next(0) is 0. */
    method Next(n: int) returns (r: int)
      requires Valid() && n >= 0
      modifies this
      ensures r == Scale(source(old(cursor)), n) && cursor == old(cursor) + 1
      ensures 0 <= r && (n > 0 ==> r < n)
    {
      r := Scale(source(cursor), n);
      cursor := cursor + 1;
    }
  }

  /**
   * Where `new Random()` gets its seed, which is the clock: the k-th
   * generator created yields the stream `streams(k)`.
   */
  class Entropy {
    const streams: nat -> nat -> real
    var next: nat

    ghost predicate Valid() {
      forall s: nat, k: nat :: 0.0 <= streams(s)(k) < 1.0
    }

    constructor (streams: nat -> nat -> real)
      requires forall s: nat, k: nat :: 0.0 <= streams(s)(k) < 1.0
      ensures Valid() && this.streams == streams && next == 0
    {
      this.streams := streams;
      next := 0;
    }

    /** `new Random()`: a fresh generator on the next unused stream. */
    method NewRandom() returns (r: Random)
      requires Valid()
      modifies this
      ensures fresh(r) && r.Valid()
      ensures r.source == streams(old(next)) && r.cursor == 0 && next == old(next) + 1
    {
      r := new Random(streams(next));
      next := next + 1;
    }
  }
}
