/** 32-bit sequence numbers relative to an initial sequence number. */
module WrappingIntegers {
  import opened Common

  function Wrap(n: nat, isn: u32): u32 {
    (n % TWO32 + isn) % TWO32
  }

  function Plus(a: u32, b: nat): u32 {
    (a + b) % TWO32
  }

  /** `diff` is computed on 32 bits, `res` on 64 bits. */
  function Unwrap(n: u32, isn: u32, checkpoint: nat): nat {
    var diff := (n - Wrap(checkpoint, isn)) % TWO32;
    var res := (diff + checkpoint) % TWO64;
    if diff >= TWO31 && res >= TWO32 then res - TWO32 else res
  }

  function Distance(a: nat, b: nat): nat {
    if a <= b then b - a else a - b
  }

  /** What the header promises of `unwrap`: among the 64-bit numbers that wrap to n, one closest to the checkpoint. */
  ghost predicate ClosestPreimage(r: nat, n: u32, isn: u32, checkpoint: nat) {
    && r < TWO64
    && Wrap(r, isn) == n
    && forall v: nat | v < TWO64 && Wrap(v, isn) == n :: Distance(r, checkpoint) <= Distance(v, checkpoint)
  }

  /** Two numbers wrap alike exactly when they differ by a multiple of 2^32. */
  lemma WrapCongruent(a: nat, b: nat, isn: u32)
    ensures Wrap(a, isn) == Wrap(b, isn) <==> a % TWO32 == b % TWO32
    ensures Wrap(a, isn) == Wrap(b, isn) <==> (a - b) % TWO32 == 0
  {
  }

  lemma WrapSeparates(a: nat, b: nat, isn: u32)
    requires a < TWO32 && b < TWO32
    ensures Wrap(a, isn) == Wrap(b, isn) <==> a == b
  {
  }

  lemma PlusWrap(a: nat, b: nat, isn: u32)
    ensures Plus(Wrap(a, isn), b) == Wrap(a + b, isn)
  {
  }

  lemma WrapZero(isn: u32)
    ensures Wrap(0, isn) == isn
  {
  }

  /** The number of 32-bit increments from the checkpoint up to the next number that wraps to n. */
  function Ahead(n: u32, isn: u32, checkpoint: nat): nat {
    (n - Wrap(checkpoint, isn)) % TWO32
  }

  /** `Wrap` with its quotient made explicit. */
  lemma WrapQuotient(n: nat, isn: u32) returns (k: int)
    ensures n + isn == k * TWO32 + Wrap(n, isn)
  {
    var low := n % TWO32;
    k := n / TWO32 + (low + isn) / TWO32;
  }

  /** Every preimage of n is `Ahead` steps past the checkpoint, up to a multiple of 2^32. */
  lemma PreimageOffset(v: nat, n: u32, isn: u32, checkpoint: nat) returns (k: int)
    requires Wrap(v, isn) == n
    ensures v == checkpoint + Ahead(n, isn, checkpoint) + k * TWO32
  {
    var kv := WrapQuotient(v, isn);
    var kc := WrapQuotient(checkpoint, isn);
    var w := Wrap(checkpoint, isn);
    k := kv - kc - (if n >= w then 0 else 1);
  }

  /** The converse: stepping `Ahead` from the checkpoint, and any number of 2^32 further, wraps to n. */
  lemma AheadIsPreimage(v: nat, n: u32, isn: u32, checkpoint: nat, k: int)
    requires v == checkpoint + Ahead(n, isn, checkpoint) + k * TWO32
    ensures Wrap(v, isn) == n
  {
    var kc := WrapQuotient(checkpoint, isn);
    var kv := WrapQuotient(v, isn);
    var w := Wrap(checkpoint, isn);
    var j := kc + k + (if n >= w then 0 else 1);
    assert v + isn == j * TWO32 + n;
    assert (kv - j) * TWO32 == n - Wrap(v, isn);
  }

  lemma UnwrapIsPreimage(n: u32, isn: u32, checkpoint: nat)
    requires checkpoint < TWO64
    ensures Unwrap(n, isn, checkpoint) < TWO64
    ensures Wrap(Unwrap(n, isn, checkpoint), isn) == n
  {
    var d := Ahead(n, isn, checkpoint);
    var r := Unwrap(n, isn, checkpoint);
    var k := if checkpoint + d >= TWO64 then -TWO32 else if r == checkpoint + d then 0 else -1;
    assert r == checkpoint + d + k * TWO32;
    AheadIsPreimage(r, n, isn, checkpoint, k);
  }

  /** The result in terms of the first preimage at or after the checkpoint. */
  lemma UnwrapCases(n: u32, isn: u32, checkpoint: nat)
    requires checkpoint < TWO64
    ensures var up := checkpoint + Ahead(n, isn, checkpoint);
            Unwrap(n, isn, checkpoint)
            == if up >= TWO64 then up - TWO64
               else if Ahead(n, isn, checkpoint) >= TWO31 && up >= TWO32 then up - TWO32
               else up
  {
  }

  /** Of the numbers that differ from c + d by multiples of 2^32, these are the closest to c. */
  lemma ClosestMultiple(c: nat, d: u32, v: nat, k: int)
    requires v == c + d + k * TWO32
    ensures Distance(if d >= TWO31 && c + d >= TWO32 then c + d - TWO32 else c + d, c) <= Distance(v, c)
  {
  }

  /**
   * `unwrap` returns a closest 64-bit preimage exactly when the first preimage at or after the checkpoint
   * is itself a 64-bit number, which every checkpoint up to 2^64 - 2^32 guarantees.
   */
  lemma UnwrapIsClosest(n: u32, isn: u32, checkpoint: nat)
    requires checkpoint < TWO64
    ensures ClosestPreimage(Unwrap(n, isn, checkpoint), n, isn, checkpoint)
       <==> checkpoint + Ahead(n, isn, checkpoint) < TWO64
  {
    var d := Ahead(n, isn, checkpoint);
    var r := Unwrap(n, isn, checkpoint);
    UnwrapIsPreimage(n, isn, checkpoint);
    UnwrapCases(n, isn, checkpoint);
    if checkpoint + d < TWO64 {
      forall v: nat | v < TWO64 && Wrap(v, isn) == n
        ensures Distance(r, checkpoint) <= Distance(v, checkpoint)
      {
        var k := PreimageOffset(v, n, isn, checkpoint);
        ClosestMultiple(checkpoint, d, v, k);
      }
    } else {
      // The sum overflowed, so the result is small although a preimage lies just below the checkpoint.
      var v := checkpoint + d - TWO32;
      AheadIsPreimage(v, n, isn, checkpoint, -1);
      assert Distance(v, checkpoint) < Distance(r, checkpoint);
    }
  }

  /** Round trip: a number within 2^31 of the checkpoint survives wrapping. */
  lemma UnwrapWrap(v: nat, isn: u32, checkpoint: nat)
    requires v < TWO64 && checkpoint < TWO64 - TWO32
    requires Distance(v, checkpoint) < TWO31
    ensures Unwrap(Wrap(v, isn), isn, checkpoint) == v
  {
    var n := Wrap(v, isn);
    var k := PreimageOffset(v, n, isn, checkpoint);
    var d := Ahead(n, isn, checkpoint);
    assert k == 0 || k == -1;
    assert (d + checkpoint) % TWO64 == d + checkpoint;
  }
}
