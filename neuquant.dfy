/** NeuQuant after learning (gif.worker.js:9-360): the network of 256
    neurons is set up, learned (not modelled: its outcome is an input),
    unbiased to byte values, sorted on green with an index from green values
    to positions, turned into a 768-entry palette in the original neuron
    order, and searched for the neuron nearest to a colour in L1 distance. */
module NeuQuantPalette {
  import opened Common
  import opened Bitwise

  const NetSize := 256
  const MaxNetPos := NetSize - 1
  const NetBiasShift := 4

  /** A neuron: three colour components in the order the pixels are read
      (the encoder passes RGB, so `b` holds red), and in column 3 the
      neuron's number once the network is unbiased. */
  datatype Neuron = Neuron(b: int, g: int, r: int, tag: int)

  function Abs(x: int): nat { if x < 0 then -x else x }

  /** The L1 distance of a neuron's colour to `(b, g, r)`. */
  function Dist(n: Neuron, b: int, g: int, r: int): nat
  {
    Abs(n.b - b) + Abs(n.g - g) + Abs(n.r - r)
  }

  /** `unbiasnet` on one neuron: `x >>= 4` on each component, which for an
      integral value is division by 16 rounded down (Dafny's `/` by a
      positive divisor), and the neuron's number in column 3. */
  function Unbias(n: Neuron, i: int): Neuron
  {
    Neuron(n.b / 16, n.g / 16, n.r / 16, i)
  }

  /** The colour components are bytes. */
  predicate ByteColour(n: Neuron)
  {
    0 <= n.b < 256 && 0 <= n.g < 256 && 0 <= n.r < 256
  }

  /** The colour components are biased bytes, as learning leaves them. */
  predicate BiasedColour(n: Neuron)
  {
    0 <= n.b < 4096 && 0 <= n.g < 4096 && 0 <= n.r < 4096
  }

  ghost predicate SortedOnGreen(s: seq<Neuron>)
  {
    forall k, m :: 0 <= k < m < |s| ==> s[k].g <= s[m].g
  }

  /** `idx[v]` splits the green-sorted network at `v`: the neurons before
      it have green at most `v`, those after it at least `v`. */
  ghost predicate GreenIndex(s: seq<Neuron>, idx: seq<int>)
  {
    && |idx| == 256
    && forall v :: 0 <= v < 256 ==>
         && 0 <= idx[v] < |s|
         && (forall k :: 0 <= k < idx[v] ==> s[k].g <= v)
         && (forall k :: idx[v] < k < |s| ==> v <= s[k].g)
  }

  /** Neuron `k` of `s` is at least as close to `(b, g, r)` as every other. */
  ghost predicate Nearest(s: seq<Neuron>, k: int, b: int, g: int, r: int)
  {
    0 <= k < |s| && forall m :: 0 <= m < |s| ==> Dist(s[k], b, g, r) <= Dist(s[m], b, g, r)
  }

  /** The last position below `n` whose neuron carries number `l`, or -1. */
  function LastTagged(s: seq<Neuron>, l: int, n: nat): (k: int)
    requires n <= |s|
    ensures -1 <= k < n && (k >= 0 ==> s[k].tag == l)
    ensures forall m :: k < m < n ==> s[m].tag != l
  {
    if n == 0 then -1 else if s[n - 1].tag == l then n - 1 else LastTagged(s, l, n - 1)
  }

  /** Palette entry `l`: three consecutive values. */
  function Entry(pal: seq<int>, l: int): seq<int>
    requires 0 <= l && 3 * l + 3 <= |pal|
  {
    pal[3 * l .. 3 * l + 3]
  }

  function Colour(n: Neuron): seq<int> { [n.b, n.g, n.r] }

  /** The palette NeuQuant yields for a learned network: entry `l` is the
      unbiased colour of neuron `l`. */
  function PaletteOf(learned: seq<Neuron>): (pal: seq<int>)
    ensures |pal| == 3 * |learned|
  {
    if learned == [] then []
    else PaletteOf(learned[..|learned| - 1]) + Colour(Unbias(learned[|learned| - 1], |learned| - 1))
  }

  lemma {:induction false} PaletteEntry(learned: seq<Neuron>, l: int)
    requires 0 <= l < |learned|
    ensures Entry(PaletteOf(learned), l) == Colour(Unbias(learned[l], l))
    decreases |learned|
  {
    var n := |learned| - 1;
    if l < n {
      PaletteEntry(learned[..n], l);
      assert learned[..n][l] == learned[l];
      var p := PaletteOf(learned[..n]);
      assert PaletteOf(learned)[3 * l .. 3 * l + 3] == p[3 * l .. 3 * l + 3];
    }
  }

  /** Two palettes of the same length whose entries agree are equal. */
  lemma SamePalette(p: seq<int>, q: seq<int>)
    requires |p| == |q| == 3 * NetSize
    requires forall l :: 0 <= l < NetSize ==> Entry(p, l) == Entry(q, l)
    ensures p == q
  {
    forall k | 0 <= k < |p|
      ensures p[k] == q[k]
    {
      var l := k / 3;
      assert Entry(p, l)[k - 3 * l] == p[k];
      assert Entry(q, l)[k - 3 * l] == q[k];
    }
  }

  /** The L1 distance of palette entry `l` to `(b, g, r)`. */
  function EntryDist(pal: seq<int>, l: int, b: int, g: int, r: int): nat
    requires 0 <= l && 3 * l + 3 <= |pal|
  {
    Abs(pal[3 * l] - b) + Abs(pal[3 * l + 1] - g) + Abs(pal[3 * l + 2] - r)
  }

  /** Entry `l` of the palette is at least as close to `(b, g, r)` as every
      other entry. */
  ghost predicate NearestEntry(pal: seq<int>, l: int, b: int, g: int, r: int)
  {
    && 0 <= l && 3 * l + 3 <= |pal|
    && forall m :: 0 <= m && 3 * m + 3 <= |pal| ==> EntryDist(pal, l, b, g, r) <= EntryDist(pal, m, b, g, r)
  }

  /** The palette of a learned network holds bytes. */
  lemma PaletteHoldsBytes(learned: seq<Neuron>)
    requires forall k :: 0 <= k < |learned| ==> BiasedColour(learned[k])
    ensures forall k :: 0 <= k < |PaletteOf(learned)| ==> 0 <= PaletteOf(learned)[k] < 256
  {
    forall k | 0 <= k < |PaletteOf(learned)|
      ensures 0 <= PaletteOf(learned)[k] < 256
    {
      var l := k / 3;
      PaletteEntry(learned, l);
      assert Entry(PaletteOf(learned), l)[k - 3 * l] == PaletteOf(learned)[k];
    }
  }

  /** The neuron nearest to a colour names the palette entry nearest to it:
      palette entry `m` is the colour of the neuron carrying number `m`. */
  lemma NearestInPalette(s: seq<Neuron>, learned: seq<Neuron>, k: int, b: int, g: int, r: int)
    requires |learned| == NetSize && FromLearned(s, learned) && AllTagged(s, NetSize)
    requires Nearest(s, k, b, g, r)
    ensures NearestEntry(PaletteOf(learned), s[k].tag, b, g, r)
  {
    var pal := PaletteOf(learned);
    forall m | 0 <= m < NetSize
      ensures EntryDist(pal, m, b, g, r) == Dist(Unbias(learned[m], m), b, g, r)
    {
      PaletteEntry(learned, m);
      assert pal[3 * m .. 3 * m + 3] == Colour(Unbias(learned[m], m));
      assert pal[3 * m] == Unbias(learned[m], m).b;
      assert pal[3 * m + 1] == Unbias(learned[m], m).g;
      assert pal[3 * m + 2] == Unbias(learned[m], m).r;
    }
    forall m | 0 <= m && 3 * m + 3 <= |pal|
      ensures EntryDist(pal, s[k].tag, b, g, r) <= EntryDist(pal, m, b, g, r)
    {
      assert Carries(s, m);
      var km :| 0 <= km < |s| && s[km].tag == m;
      assert Dist(s[k], b, g, r) <= Dist(s[km], b, g, r);
    }
  }

  /** Every neuron of `s` is the unbiased learned neuron whose number it
      carries: a property that any reordering of `s` keeps. */
  ghost predicate FromLearned(s: seq<Neuron>, learned: seq<Neuron>)
  {
    forall k :: 0 <= k < |s| ==> 0 <= s[k].tag < |learned| && s[k] == Unbias(learned[s[k].tag], s[k].tag)
  }

  /** Some neuron of `s` carries number `l`. */
  ghost predicate Carries(s: seq<Neuron>, l: int)
  {
    exists k :: 0 <= k < |s| && s[k].tag == l
  }

  /** Every neuron number below `n` is carried by some neuron of `s`. */
  ghost predicate AllTagged(s: seq<Neuron>, n: int)
  {
    forall l :: 0 <= l < n ==> Carries(s, l)
  }

  lemma {:induction false} PermutedFromLearned(s: seq<Neuron>, t: seq<Neuron>, learned: seq<Neuron>)
    requires multiset(s) == multiset(t) && FromLearned(s, learned) && AllTagged(s, |learned|)
    ensures FromLearned(t, learned) && AllTagged(t, |learned|)
  {
    forall k | 0 <= k < |t|
      ensures 0 <= t[k].tag < |learned| && t[k] == Unbias(learned[t[k].tag], t[k].tag)
    {
      assert t[k] in multiset(s);
    }
    forall l | 0 <= l < |learned|
      ensures Carries(t, l)
    {
      assert Carries(s, l);
      var k :| 0 <= k < |s| && s[k].tag == l;
      assert s[k] in multiset(t);
      var m :| 0 <= m < |t| && t[m] == s[k];
    }
  }

  class NeuQuant {
    /** The frame's pixels and the sampling factor, used only by learning. */
    const pixels: seq<int>
    const sample: int

    var network: array<Neuron>
    var netindex: array<int>
    /** The network learning left, recorded by `process`. */
    ghost var learnt: seq<Neuron>

    /** The network and the index exist once `colorMap` has run. */
    constructor (thepicture: seq<int>, samplefac: int)
      ensures pixels == thepicture && sample == samplefac
      ensures network.Length == 0 && netindex.Length == 0
    {
      pixels := thepicture;
      sample := samplefac;
      network := new Neuron[0];
      netindex := new int[0];
      learnt := [];
    }

    /** `colorMap`: neuron `i` starts as the grey `(i << 12) / 256 = 16 i`
        in each component, which lies in the biased colour range and is
        ordered on green; the index starts zeroed. */
    method ColorMap()
      modifies this
      ensures fresh(network) && fresh(netindex)
      ensures network.Length == NetSize && netindex.Length == 256
      ensures forall i :: 0 <= i < NetSize ==> network[i] == Neuron(16 * i, 16 * i, 16 * i, 0)
      ensures forall i :: 0 <= i < NetSize ==> BiasedColour(network[i]) && network[i].b == network[i].g == network[i].r
      ensures SortedOnGreen(network[..])
      ensures forall v :: 0 <= v < 256 ==> netindex[v] == 0
    {
      var net := new Neuron[NetSize];
      for i := 0 to NetSize
        invariant forall k :: 0 <= k < i ==> net[k] == Neuron(16 * k, 16 * k, 16 * k, 0)
      {
        ShlIsMul(i, NetBiasShift + 8);
        Pow2Facts();
        var v := Shl(i, NetBiasShift + 8) / NetSize;
        net[i] := Neuron(v, v, v, 0);
      }
      network := net;
      netindex := new int[256](_ => 0);
    }

    /** `unbiasnet`: every component loses its 4 bias bits and every neuron
        records its number. */
    method UnbiasNet()
      requires network.Length == NetSize
      modifies network
      ensures forall i :: 0 <= i < NetSize ==> network[i] == Unbias(old(network[i]), i)
    {
      for i := 0 to NetSize
        invariant forall k :: 0 <= k < i ==> network[k] == Unbias(old(network[k]), k)
        invariant forall k :: i <= k < NetSize ==> network[k] == old(network[k])
      {
        network[i] := Unbias(network[i], i);
      }
    }

    /** The first neuron of least green at or after position `i`. */
    method SmallestGreen(i: int) returns (smallpos: int)
      requires network.Length == NetSize && 0 <= i < NetSize
      ensures i <= smallpos < NetSize
      ensures forall k :: i <= k < NetSize ==> network[smallpos].g <= network[k].g
      ensures forall k :: i <= k < smallpos ==> network[smallpos].g < network[k].g
    {
      smallpos := i;
      var smallval := network[i].g;
      for j := i + 1 to NetSize
        invariant i <= smallpos < j && smallval == network[smallpos].g
        invariant forall k :: i <= k < j ==> smallval <= network[k].g
        invariant forall k :: i <= k < smallpos ==> smallval < network[k].g
      {
        if network[j].g < smallval {
          smallpos := j;
          smallval := network[j].g;
        }
      }
    }

    /** `buildIndex`: a selection sort of the network on green, which
        permutes the neurons, and the index from each green value to a
        position that splits the sorted network at that value. */
    method BuildIndex()
      requires network.Length == NetSize && netindex.Length == 256
      requires GreensAreBytes(network[..])
      modifies network, netindex
      ensures multiset(network[..]) == multiset(old(network[..]))
      ensures SortedOnGreen(network[..])
      ensures GreenIndex(network[..], netindex[..])
    {
      var previouscol := 0;
      var startpos := 0;
      for i := 0 to NetSize
        invariant multiset(network[..]) == multiset(old(network[..]))
        invariant Sorting(i, previouscol, startpos) == true
      {
        previouscol, startpos := PlaceNext(i, previouscol, startpos);
      }
      FinishIndex(previouscol, startpos);
    }

    /** Where `buildIndex` stands before position `i`: the first `i`
        positions hold the least greens in order, `previouscol` is the last
        of them, `startpos` starts its run, and the index is written for
        every green below `previouscol`. */
    ghost predicate Sorting(i: int, previouscol: int, startpos: int)
      reads this, network, netindex
    {
      && network.Length == NetSize && netindex.Length == 256 && 0 <= i <= NetSize
      && GreensAreBytes(network[..]) && Selected(network[..], i)
      && previouscol == (if i == 0 then 0 else network[i - 1].g)
      && GreenRun(network[..], previouscol, startpos, i) && startpos < NetSize
      && SplitsBelow(network[..], netindex[..], previouscol, i)
    }

    /** One pass of `buildIndex`'s outer loop. */
    method PlaceNext(i: int, previouscol: int, startpos: int) returns (previouscol': int, startpos': int)
      requires i < NetSize && Sorting(i, previouscol, startpos)
      modifies network, netindex
      ensures multiset(network[..]) == multiset(old(network[..]))
      ensures Sorting(i + 1, previouscol', startpos')
    {
      ghost var unsorted := network[..];
      SelectNext(i);
      ghost var s := network[..];
      KeptPrefix(unsorted, s, netindex[..], previouscol, startpos, i);
      var smallval := network[i].g;
      previouscol', startpos' := previouscol, startpos;
      if smallval != previouscol {
        IndexRun(i, previouscol, startpos);
        RunStarts(s, previouscol, startpos, i);
        previouscol' := smallval;
        startpos' := i;
      } else {
        RunExtends(s, netindex[..], previouscol, startpos, i);
      }
    }

    /** The selection step: the least green of positions `i` onwards is
        exchanged into position `i`. */
    method SelectNext(i: int)
      requires network.Length == NetSize && 0 <= i < NetSize
      requires GreensAreBytes(network[..]) && Selected(network[..], i)
      modifies network
      ensures multiset(network[..]) == multiset(old(network[..]))
      ensures network[..i] == old(network[..i])
      ensures GreensAreBytes(network[..]) && Selected(network[..], i + 1)
    {
      var smallpos := SmallestGreen(i);
      if i != smallpos {
        ghost var before := network[..];
        network[i], network[smallpos] := network[smallpos], network[i];
        assert network[..] == before[i := before[smallpos]][smallpos := before[i]];
        SwapKeepsMultiset(before, i, smallpos);
      }
    }

    /** A new green at position `i` closes the run of `previouscol`: its
        index entry is the middle of the run, and the greens skipped
        between the two point at `i`. */
    method IndexRun(i: int, previouscol: int, startpos: int)
      requires network.Length == NetSize && netindex.Length == 256 && 0 <= i < NetSize
      requires Selected(network[..], i + 1) && 0 <= previouscol < network[i].g < 256
      requires GreenRun(network[..], previouscol, startpos, i)
      requires SplitsBelow(network[..], netindex[..], previouscol, i)
      modifies netindex
      ensures SplitsBelow(network[..], netindex[..], network[i].g, i + 1)
    {
      netindex[previouscol] := (startpos + i) / 2;
      for j := previouscol + 1 to network[i].g
        invariant SplitsBelow(network[..], netindex[..], j, i + 1)
      {
        netindex[j] := i;
      }
    }

    /** After the sort: the last run's entry is its middle, and every
        greater green points at the last position. */
    method FinishIndex(previouscol: int, startpos: int)
      requires Sorting(NetSize, previouscol, startpos)
      modifies netindex
      ensures GreenIndex(network[..], netindex[..])
    {
      netindex[previouscol] := (startpos + MaxNetPos) / 2;
      for j := previouscol + 1 to 256
        invariant SplitsBelow(network[..], netindex[..], j, NetSize)
      {
        netindex[j] := MaxNetPos;
      }
    }

    /** `map`: starting at the index entry of `g`, searches outwards in both
        directions, stopping a direction once the green difference alone
        reaches the best distance so far. On a green-sorted network of byte
        colours this never passes over a closer neuron, and the greatest
        distance, 765, is below the initial bound 1000, so the result is the
        number of a nearest neuron, never -1. */
    method Map(b: int, g: int, r: int) returns (best: int)
      requires network.Length == NetSize && netindex.Length == 256
      requires 0 <= b < 256 && 0 <= g < 256 && 0 <= r < 256
      requires SortedOnGreen(network[..]) && forall k :: 0 <= k < NetSize ==> ByteColour(network[k])
      requires 0 <= netindex[g] <= NetSize
      ensures exists k :: Nearest(network[..], k, b, g, r) && best == network[k].tag
      ensures Indexed(learnt) ==> NearestEntry(PaletteOf(learnt), best, b, g, r)
    {
      var bestd := 1000;
      best := -1;
      ghost var bestk := -1;
      var i := netindex[g];
      var j := i - 1;
      while i < NetSize || j >= 0
        invariant Searching(b, g, r, j, i, bestd, best, bestk) == true
        decreases NetSize - i + j
      {
        if i < NetSize {
          i, bestd, best, bestk := SearchUp(b, g, r, j, i, bestd, best, bestk);
        }
        if j >= 0 {
          j, bestd, best, bestk := SearchDown(b, g, r, j, i, bestd, best, bestk);
        }
      }
      assert Dist(network[0], b, g, r) < 1000;
      assert bestk != -1;
      assert Nearest(network[..], bestk, b, g, r);
      if Indexed(learnt) {
        NearestInPalette(network[..], learnt, bestk, b, g, r);
      }
    }

    /** Where `map`'s search stands: every neuron strictly between `j` and
        `i` is at distance `bestd` or more, and `bestd` is either the
        initial bound or the distance of neuron `bestk`, whose number is
        `best`. */
    ghost predicate Searching(b: int, g: int, r: int, j: int, i: int, bestd: int, best: int, bestk: int)
      reads this, network
    {
      && network.Length == NetSize && SortedOnGreen(network[..])
      && -1 <= j < i <= NetSize && bestd <= 1000
      && (forall k :: j < k < i ==> bestd <= Dist(network[k], b, g, r))
      && -1 <= bestk < NetSize
      && (bestk == -1 ==> bestd == 1000)
      && (bestk != -1 ==> best == network[bestk].tag && bestd == Dist(network[bestk], b, g, r))
    }

    /** The upward half of a round of `map`: neuron `i` is probed, or the
        upward search stops when its green alone is `bestd` too far. */
    method SearchUp(b: int, g: int, r: int, j: int, i: int, bestd: int, best: int, ghost bestk: int)
      returns (i': int, bestd': int, best': int, ghost bestk': int)
      requires i < NetSize && Searching(b, g, r, j, i, bestd, best, bestk)
      ensures i < i' && Searching(b, g, r, j, i', bestd', best', bestk')
    {
      i', bestd', best', bestk' := i, bestd, best, bestk;
      var p := network[i];
      var dist := p.g - g;
      if dist >= bestd {
        GreenPrunesAbove(network[..], i, b, g, r, bestd);
        i' := NetSize;
      } else {
        i' := i + 1;
        dist := Probe(p, b, g, r, bestd);
        if dist < bestd {
          bestd', best', bestk' := dist, p.tag, i;
        }
      }
    }

    /** The downward half of a round of `map`, on neuron `j`. */
    method SearchDown(b: int, g: int, r: int, j: int, i: int, bestd: int, best: int, ghost bestk: int)
      returns (j': int, bestd': int, best': int, ghost bestk': int)
      requires 0 <= j && Searching(b, g, r, j, i, bestd, best, bestk)
      ensures j' < j && Searching(b, g, r, j', i, bestd', best', bestk')
    {
      j', bestd', best', bestk' := j, bestd, best, bestk;
      var p := network[j];
      var dist := g - p.g;
      if dist >= bestd {
        GreenPrunesBelow(network[..], j, b, g, r, bestd);
        j' := -1;
      } else {
        j' := j - 1;
        dist := Probe(p, b, g, r, bestd);
        if dist < bestd {
          bestd', best', bestk' := dist, p.tag, j;
        }
      }
    }

    /** One probe of `map`: the green and first-component differences, and
        the third only while the sum stays below `bestd`; below `bestd` it is
        the distance, otherwise the distance is not below `bestd` either. */
    static method Probe(p: Neuron, b: int, g: int, r: int, bestd: int) returns (dist: int)
      ensures dist < bestd <==> Dist(p, b, g, r) < bestd
      ensures dist < bestd ==> dist == Dist(p, b, g, r)
    {
      dist := p.g - g;
      if dist < 0 { dist := -dist; }
      var a := p.b - b;
      if a < 0 { a := -a; }
      dist := dist + a;
      if dist < bestd {
        a := p.r - r;
        if a < 0 { a := -a; }
        dist := dist + a;
      }
    }

    /** `createColorMap`: `index[tag] = i` for every neuron, so that entry
        `l` of the palette is the colour of the last neuron numbered `l`.
        A number with no neuron would make the source read
        `network[undefined]` and fail, so every number must be carried. */
    method CreateColorMap() returns (pal: seq<int>)
      requires network.Length == NetSize
      requires forall k :: 0 <= k < NetSize ==> 0 <= network[k].tag < NetSize
      requires AllTagged(network[..], NetSize)
      ensures |pal| == 3 * NetSize
      ensures forall l :: 0 <= l < NetSize ==>
        0 <= LastTagged(network[..], l, NetSize) && Entry(pal, l) == Colour(network[LastTagged(network[..], l, NetSize)])
    {
      var index := new int[NetSize](_ => -1);
      for i := 0 to NetSize
        invariant forall l :: 0 <= l < NetSize ==> index[l] == LastTagged(network[..], l, i)
      {
        index[network[i].tag] := i;
      }
      pal := [];
      for l := 0 to NetSize
        invariant |pal| == 3 * l
        invariant forall m :: 0 <= m < NetSize ==> index[m] == LastTagged(network[..], m, NetSize)
        invariant forall m :: 0 <= m < l ==> 0 <= index[m] < NetSize && Entry(pal, m) == Colour(network[index[m]])
      {
        var j := index[l];
        TaggedIsFound(network[..], l, NetSize);
        pal := pal + [network[j].b, network[j].g, network[j].r];
        assert Entry(pal, l) == Colour(network[j]);
      }
    }

    /** `process` after learning: the network that learning leaves is
        `learned`; it is unbiased, sorted and indexed, and the palette is
        its unbiased colours in neuron order. Afterwards `map` may be
        called, and every neuron is the unbiased learned neuron it names. */
    method Process(learned: seq<Neuron>) returns (colorTab: seq<int>)
      requires |learned| == NetSize && forall k :: 0 <= k < NetSize ==> BiasedColour(learned[k])
      modifies this
      ensures colorTab == PaletteOf(learned)
      ensures Indexed(learned) == true && learnt == learned && fresh(network) && fresh(netindex)
    {
      ColorMap();
      forall i | 0 <= i < NetSize {
        network[i] := learned[i];
      }
      learnt := learned;
      UnbiasNet();
      ghost var unbiased := network[..];
      UnbiasedFromLearned(learned, unbiased);
      BuildIndex();
      PermutedFromLearned(unbiased, network[..], learned);
      colorTab := CreateColorMap();
      forall l | 0 <= l < NetSize
        ensures Entry(colorTab, l) == Entry(PaletteOf(learned), l)
      {
        PaletteEntry(learned, l);
      }
      SamePalette(colorTab, PaletteOf(learned));
    }

    /** The state `process` leaves: a green-sorted network of byte colours,
        each neuron the unbiased learned neuron it names, every number
        carried, and the green index. */
    ghost predicate Indexed(learned: seq<Neuron>)
      reads this, network, netindex
    {
      && network.Length == NetSize && netindex.Length == 256 && |learned| == NetSize
      && SortedOnGreen(network[..]) && GreenIndex(network[..], netindex[..])
      && (forall k :: 0 <= k < NetSize ==> ByteColour(network[k]))
      && FromLearned(network[..], learned) && AllTagged(network[..], NetSize)
    }
  }

  /** The first `i` positions hold the `i` least greens, in order. */
  ghost predicate Selected(s: seq<Neuron>, i: int)
  {
    forall k, m :: 0 <= k < m < |s| && k < i ==> s[k].g <= s[m].g
  }

  /** Exchanging two elements keeps the multiset of a sequence. */
  lemma SwapKeepsMultiset<T>(s: seq<T>, i: int, j: int)
    requires 0 <= i < |s| && 0 <= j < |s|
    ensures multiset(s[i := s[j]][j := s[i]]) == multiset(s)
  {
    var t := s[i := s[j]];
    assert multiset(t) == multiset(s) - multiset{s[i]} + multiset{s[j]};
    assert multiset(t[j := s[i]]) == multiset(t) - multiset{t[j]} + multiset{s[i]};
  }

  /** The run and the index entries speak only of the first `n` positions. */
  lemma KeptPrefix(s: seq<Neuron>, t: seq<Neuron>, idx: seq<int>, pc: int, startpos: int, n: int)
    requires |s| == |t| && 0 <= n <= |s| && s[..n] == t[..n]
    requires GreenRun(s, pc, startpos, n) && SplitsBelow(s, idx, pc, n)
    requires Selected(t, n + 1) && n < |t| && pc == (if n == 0 then 0 else s[n - 1].g)
    requires GreensAreBytes(t)
    ensures GreenRun(t, pc, startpos, n) && SplitsBelow(t, idx, pc, n)
    ensures 0 <= pc <= t[n].g && pc == (if n == 0 then 0 else t[n - 1].g)
  {
    forall k | 0 <= k < n
      ensures s[k] == t[k]
    {
      assert s[..n][k] == t[..n][k];
    }
  }

  /** A greater green at position `i` starts a new run there. */
  lemma RunStarts(s: seq<Neuron>, pc: int, startpos: int, i: int)
    requires GreenRun(s, pc, startpos, i) && i < |s| && pc < s[i].g
    ensures GreenRun(s, s[i].g, i, i + 1)
  {
  }

  /** The same green at position `i` extends the run, and the written
      index entries still split the longer prefix. */
  lemma RunExtends(s: seq<Neuron>, idx: seq<int>, pc: int, startpos: int, i: int)
    requires GreenRun(s, pc, startpos, i) && SplitsBelow(s, idx, pc, i)
    requires i < |s| && s[i].g == pc
    ensures GreenRun(s, pc, startpos, i + 1) && SplitsBelow(s, idx, pc, i + 1)
  {
  }

  predicate GreensAreBytes(s: seq<Neuron>)
  {
    forall k :: 0 <= k < |s| ==> 0 <= s[k].g < 256
  }

  /** Positions `startpos` up to `n` hold green `pc`, those before less. */
  ghost predicate GreenRun(s: seq<Neuron>, pc: int, startpos: int, n: int)
  {
    && 0 <= startpos <= n <= |s|
    && (forall k :: 0 <= k < startpos ==> s[k].g < pc)
    && (forall k :: startpos <= k < n ==> s[k].g == pc)
  }

  /** The index entries below `upTo` split the first `n` neurons. */
  ghost predicate SplitsBelow(s: seq<Neuron>, idx: seq<int>, upTo: int, n: int)
  {
    && |idx| == 256 && upTo <= 256 && n <= |s|
    && forall v :: 0 <= v < upTo ==>
         && 0 <= idx[v] <= n && idx[v] < |s|
         && (forall k :: 0 <= k < idx[v] ==> s[k].g <= v)
         && (forall k :: idx[v] < k < n ==> v <= s[k].g)
  }

  /** Going up from `i` in a green-sorted network, no neuron is nearer than
      the green difference at `i`. */
  lemma GreenPrunesAbove(s: seq<Neuron>, i: int, b: int, g: int, r: int, bestd: int)
    requires SortedOnGreen(s) && 0 <= i < |s| && s[i].g - g >= bestd
    ensures forall k :: i <= k < |s| ==> bestd <= Dist(s[k], b, g, r)
  {
  }

  /** Going down from `j`, likewise. */
  lemma GreenPrunesBelow(s: seq<Neuron>, j: int, b: int, g: int, r: int, bestd: int)
    requires SortedOnGreen(s) && 0 <= j < |s| && g - s[j].g >= bestd
    ensures forall k :: 0 <= k <= j ==> bestd <= Dist(s[k], b, g, r)
  {
  }

  /** A carried number is found by the search for its last carrier. */
  lemma TaggedIsFound(s: seq<Neuron>, l: int, n: int)
    requires 0 <= l < n && AllTagged(s, n)
    ensures 0 <= LastTagged(s, l, |s|)
  {
    assert Carries(s, l);
    var k :| 0 <= k < |s| && s[k].tag == l;
    assert LastTagged(s, l, |s|) >= k;
  }

  /** The unbiased network: byte colours, each neuron numbered by its
      position. */
  lemma UnbiasedFromLearned(learned: seq<Neuron>, s: seq<Neuron>)
    requires |s| == |learned| && forall k :: 0 <= k < |learned| ==> BiasedColour(learned[k])
    requires forall i :: 0 <= i < |s| ==> s[i] == Unbias(learned[i], i)
    ensures FromLearned(s, learned) && AllTagged(s, |learned|)
    ensures forall k :: 0 <= k < |s| ==> ByteColour(s[k])
  {
    forall l | 0 <= l < |learned|
      ensures Carries(s, l)
    {
      assert s[l].tag == l;
    }
  }
}
