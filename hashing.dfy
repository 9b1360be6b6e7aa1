/** Arithmetic behind the encoder's open-addressing hash table
    (gif.worker.js:389, 499-525): the first probe is an exclusive-or of the
    shifted pixel and the prefix code, the secondary probe steps backwards by
    `disp` modulo the table size 5003. Because 5003 is prime and `disp` is
    in 1..5002, the secondary probes visit pairwise distinct slots, so a
    search in a table with a free slot reaches one. */
module Hashing {
  import opened Common

  const HSIZE := 5003

  lemma HsizeIsPrime(d: int)
    requires 2 <= d < HSIZE
    ensures HSIZE % d != 0
  {
  }

  /** No product of two numbers in 1..5002 is a multiple of 5003. */
  lemma {:induction false} NoZeroDivisor(a: int, b: int)
    requires 0 < a < HSIZE && 0 < b < HSIZE
    ensures (a * b) % HSIZE != 0
    decreases a
  {
    if (a * b) % HSIZE == 0 {
      var q, r := HSIZE / a, HSIZE % a;
      assert HSIZE == q * a + r;
      if r == 0 {
        if a >= 2 { HsizeIsPrime(a); }
      } else {
        var m := (a * b) / HSIZE;
        assert a * b == HSIZE * m;
        assert r * b == HSIZE * b - q * (a * b) by {
          calc {
            r * b;
            (HSIZE - q * a) * b;
            HSIZE * b - q * (a * b);
          }
        }
        assert r * b == HSIZE * (b - q * m);
        NoZeroDivisor(r, b);
      }
    }
  }

  /** The slot reached after `k` secondary probes from slot `i0`. */
  function ProbeSlot(i0: int, disp: int, k: nat): int
  {
    (i0 - k * disp) % HSIZE
  }

  /** The slots of the first `k + 1` probes (the first probe included). */
  ghost function ProbeSet(i0: int, disp: int, k: nat): set<int>
  {
    set j | 0 <= j <= k :: ProbeSlot(i0, disp, j)
  }

  /** One backward step of the probe, as the source writes it, lands on the
      next slot of the sequence. */
  lemma ProbeNext(i0: int, disp: int, k: nat, i: int)
    requires 0 < disp < HSIZE && i == ProbeSlot(i0, disp, k)
    ensures 0 <= i < HSIZE
    ensures (if i - disp < 0 then i - disp + HSIZE else i - disp) == ProbeSlot(i0, disp, k + 1)
  {
    var x := i0 - k * disp;
    assert i0 - (k + 1) * disp == x - disp;
  }

  lemma ProbeSlotsDistinct(i0: int, disp: int, j1: nat, j2: nat)
    requires 0 < disp < HSIZE && j1 < j2 < HSIZE
    ensures ProbeSlot(i0, disp, j1) != ProbeSlot(i0, disp, j2)
  {
    var x, y := i0 - j1 * disp, i0 - j2 * disp;
    assert x - y == (j2 - j1) * disp;
    NoZeroDivisor(j2 - j1, disp);
  }

  /** The first `k + 1` probes visit `k + 1` distinct slots. */
  lemma {:induction false} ProbeSetSize(i0: int, disp: int, k: nat)
    requires 0 < disp < HSIZE && k < HSIZE
    ensures |ProbeSet(i0, disp, k)| == k + 1
    ensures forall j :: 0 <= j <= k ==> ProbeSlot(i0, disp, j) in ProbeSet(i0, disp, k)
  {
    if k == 0 {
      assert ProbeSet(i0, disp, 0) == {ProbeSlot(i0, disp, 0)};
    } else {
      ProbeSetSize(i0, disp, k - 1);
      var s := ProbeSlot(i0, disp, k);
      assert ProbeSet(i0, disp, k) == ProbeSet(i0, disp, k - 1) + {s};
      forall j | 0 <= j <= k - 1 ensures ProbeSlot(i0, disp, j) != s {
        ProbeSlotsDistinct(i0, disp, j, k);
      }
      assert s !in ProbeSet(i0, disp, k - 1);
    }
  }

  /** If the first `k + 1` probes all hit occupied slots, at least `k + 1`
      slots are occupied. */
  lemma ProbesBoundedByOccupancy(i0: int, disp: int, k: nat, occupied: set<int>)
    requires 0 < disp < HSIZE && k < HSIZE
    requires forall j :: 0 <= j <= k ==> ProbeSlot(i0, disp, j) in occupied
    ensures k + 1 <= |occupied|
  {
    ProbeSetSize(i0, disp, k);
    SubsetSize(ProbeSet(i0, disp, k), occupied);
  }

  lemma {:induction false} SubsetSize<T>(a: set<T>, b: set<T>)
    requires a <= b
    ensures |a| <= |b|
    decreases |a|
  {
    if a != {} {
      var x :| x in a;
      SubsetSize(a - {x}, b - {x});
    }
  }
}
