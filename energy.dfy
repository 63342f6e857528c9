/*
 * The energy model of a one-dimensional Ising ring of NUM_SPIN spins with
 * periodic boundary conditions, and the single-spin-flip energy difference
 * that the Metropolis kernel evaluates before every trial (get_ene_diff).
 */
module EnergyModel {

  /** Number of sites on the ring; the source hard-codes it as `% 100`. */
  const NUM_SPIN: int := 100

  predicate IsSpin(x: int) {
    x == -1 || x == 1
  }

  /** Every site holds exactly -1 or +1. */
  predicate ValidSpins(s: seq<int>) {
    forall k :: 0 <= k < |s| ==> IsSpin(s[k])
  }

  /** Sum of the entries of `s`. */
  function Sum(s: seq<int>): int {
    SumTo(s, |s|)
  }

  /** Sum of the first `n` entries of `s`. */
  function SumTo(s: seq<int>, n: nat): int
    requires n <= |s|
  {
    if n == 0 then 0 else SumTo(s, n - 1) + s[n - 1]
  }

  /**
   * Total magnetization of a configuration (`numpy.sum(config)`). `Sum` is the
   * plain sum of any integer sequence, also used for the bond products of the
   * Hamiltonian; this is the quantity the kernel records, and for a ring of
   * spins it is bounded by the number of sites and has their parity.
   */
  function Magnetization(s: seq<int>): (m: int)
    ensures ValidSpins(s) ==> -|s| <= m <= |s| && (m - |s|) % 2 == 0
  {
    if ValidSpins(s) then SpinSumBounds(s); Sum(s) else Sum(s)
  }

  /** The site to the right of `k` on the ring. */
  function Next(k: int): (r: int)
    requires 0 <= k < NUM_SPIN
    ensures 0 <= r < NUM_SPIN && r != k
  {
    if k == NUM_SPIN - 1 then 0 else k + 1
  }

  /** The site to the left of `k` on the ring. */
  function Prev(k: int): (r: int)
    requires 0 <= k < NUM_SPIN
    ensures 0 <= r < NUM_SPIN && r != k && Next(r) == k
  {
    if k == 0 then NUM_SPIN - 1 else k - 1
  }

  /** The nearest-neighbour bond products s[k] * s[k+1], one per site, wrapping around. */
  function Bonds(s: seq<int>): (b: seq<int>)
    requires |s| == NUM_SPIN
    ensures |b| == NUM_SPIN
  {
    seq(NUM_SPIN, k requires 0 <= k < NUM_SPIN => s[k] * s[Next(k)])
  }

  /**
   * The ring Hamiltonian H = -J * sum_k s_k s_{k+1} - h * sum_k s_k, the
   * energy whose single-flip difference the kernel evaluates.
   */
  function Energy(s: seq<int>, h: real, j: real): real
    requires |s| == NUM_SPIN
  {
    -j * (Sum(Bonds(s)) as real) - h * (Sum(s) as real)
  }

  /** `s` with the spin at `p` reversed (`config[p] *= -1`). */
  function Flip(s: seq<int>, p: int): (t: seq<int>)
    requires 0 <= p < |s|
    ensures |t| == |s| && t[p] == -s[p]
    ensures forall k :: 0 <= k < |s| && k != p ==> t[k] == s[k]
  {
    s[p := -s[p]]
  }

  /**
   * get_ene_diff: the energy change of flipping spin `i mod NUM_SPIN`, read
   * from the spin and its two ring neighbours. Any integer index is accepted;
   * Dafny's `%` by a positive divisor is non-negative, as Python's is.
   * The result is exactly the change of the ring Hamiltonian under that flip.
   */
  function EneDiff(config: seq<int>, i: int, h: real, j: real): (r: real)
    requires |config| == NUM_SPIN
    ensures r == Energy(Flip(config, i % NUM_SPIN), h, j) - Energy(config, h, j)
  {
    EneDiffIsEnergyChange(config, i, h, j);
    var s := config[i % NUM_SPIN] as real;
    2.0 * s * h
    + 2.0 * s * (config[(i - 1) % NUM_SPIN] as real) * j
    + 2.0 * s * (config[(i + 1) % NUM_SPIN] as real) * j
  }

  /** Replacing one entry changes the sum by the difference of the entries. */
  lemma SumUpdate(s: seq<int>, p: int, v: int)
    requires 0 <= p < |s|
    ensures Sum(s[p := v]) == Sum(s) - s[p] + v
  {
    SumToUpdate(s, |s|, p, v);
  }

  /** Replacing entry `p` changes the sum of a prefix only if the prefix reaches `p`. */
  lemma {:induction false} SumToUpdate(s: seq<int>, n: nat, p: int, v: int)
    requires n <= |s| && 0 <= p < |s|
    ensures SumTo(s[p := v], n) == SumTo(s, n) - (if p < n then s[p] - v else 0)
  {
    if n > 0 {
      SumToUpdate(s, n - 1, p, v);
    }
  }

  /** Flipping site `p` negates exactly the two bonds that touch it. */
  lemma FlipBonds(s: seq<int>, p: int)
    requires |s| == NUM_SPIN && 0 <= p < NUM_SPIN
    ensures Bonds(Flip(s, p)) == Bonds(s)[p := -Bonds(s)[p]][Prev(p) := -Bonds(s)[Prev(p)]]
  {
    var t := Flip(s, p);
    var q := Prev(p);
    var b := Bonds(s);
    var expected := b[p := -b[p]][q := -b[q]];
    forall k | 0 <= k < NUM_SPIN
      ensures Bonds(t)[k] == expected[k]
    {
      if k == p {
        assert Bonds(t)[k] == -s[p] * s[Next(p)];
      } else if k == q {
        assert Bonds(t)[k] == s[q] * -s[p];
      } else {
        assert Next(k) != p;
      }
    }
  }

  /** Flipping site `p` lowers the field sum by 2 s_p and the bond sum by twice the two bonds at `p`. */
  lemma FlipSums(config: seq<int>, p: int)
    requires |config| == NUM_SPIN && 0 <= p < NUM_SPIN
    ensures Sum(Flip(config, p)) == Sum(config) - 2 * config[p]
    ensures Sum(Bonds(Flip(config, p))) == Sum(Bonds(config)) - 2 * Bonds(config)[p] - 2 * Bonds(config)[Prev(p)]
  {
    var q := Prev(p);
    var b := Bonds(config);
    FlipBonds(config, p);
    SumUpdate(config, p, -config[p]);
    SumUpdate(b, p, -b[p]);
    SumUpdate(b[p := -b[p]], q, -b[q]);
  }

  /** The Hamiltonian difference after the flip, with the two sums as plain numbers. */
  lemma FlipAlgebra(bonds: int, field: int, bp: int, bq: int, x: int, h: real, j: real)
    ensures (-j * ((bonds - 2 * bp - 2 * bq) as real) - h * ((field - 2 * x) as real))
            - (-j * (bonds as real) - h * (field as real))
            == 2.0 * (x as real) * h + 2.0 * (bp as real) * j + 2.0 * (bq as real) * j
  {
  }

  /** Regrouping the two bond terms as spin products. */
  lemma BondTerms(x: int, y: int, z: int, h: real, j: real)
    ensures var xr, yr, zr := x as real, y as real, z as real;
            2.0 * xr * h + 2.0 * ((x * z) as real) * j + 2.0 * ((y * x) as real) * j
            == 2.0 * xr * h + 2.0 * xr * yr * j + 2.0 * xr * zr * j
  {
    var xr, yr, zr := x as real, y as real, z as real;
    assert (x * z) as real == xr * zr;
    assert (y * x) as real == xr * yr;
  }

  /** The remainder of `q * 100 + r` for a site `r` is `r`. */
  lemma RingIndex(x: int, q: int, r: int)
    requires x == q * NUM_SPIN + r && 0 <= r < NUM_SPIN
    ensures x % NUM_SPIN == r
  {
  }

  /** The indices `(i - 1) % 100` and `(i + 1) % 100` are the ring neighbours of site `i % 100`. */
  lemma NeighbourIndices(i: int)
    ensures (i - 1) % NUM_SPIN == Prev(i % NUM_SPIN)
    ensures (i + 1) % NUM_SPIN == Next(i % NUM_SPIN)
  {
    var p, q := i % NUM_SPIN, i / NUM_SPIN;
    if p == 0 {
      RingIndex(i - 1, q - 1, NUM_SPIN - 1);
    } else {
      RingIndex(i - 1, q, p - 1);
    }
    if p == NUM_SPIN - 1 {
      RingIndex(i + 1, q + 1, 0);
    } else {
      RingIndex(i + 1, q, p + 1);
    }
  }

  /** The closed form of get_ene_diff is the change of the ring Hamiltonian. */
  lemma EneDiffIsEnergyChange(config: seq<int>, i: int, h: real, j: real)
    requires |config| == NUM_SPIN
    ensures var p := i % NUM_SPIN;
            var s := config[p] as real;
            Energy(Flip(config, p), h, j) - Energy(config, h, j)
            == 2.0 * s * h
               + 2.0 * s * (config[(i - 1) % NUM_SPIN] as real) * j
               + 2.0 * s * (config[(i + 1) % NUM_SPIN] as real) * j
  {
    var p := i % NUM_SPIN;
    var q, r := Prev(p), Next(p);
    NeighbourIndices(i);
    var x, y, z := config[p], config[q], config[r];
    var b := Bonds(config);
    var bonds, field, bp, bq := Sum(b), Sum(config), b[p], b[q];
    assert bp == x * z;
    assert bq == y * x;
    FlipSums(config, p);
    assert Energy(Flip(config, p), h, j) == -j * ((bonds - 2 * bp - 2 * bq) as real) - h * ((field - 2 * x) as real);
    assert Energy(config, h, j) == -j * (bonds as real) - h * (field as real);
    FlipAlgebra(bonds, field, bp, bq, x, h, j);
    BondTerms(x, y, z, h, j);
  }

  /** Periodicity: shifting the index by a whole number of turns of the ring changes nothing. */
  lemma EneDiffPeriodic(config: seq<int>, i: int, turns: int, h: real, j: real)
    requires |config| == NUM_SPIN
    ensures EneDiff(config, i + turns * NUM_SPIN, h, j) == EneDiff(config, i, h, j)
  {
    assert (i + turns * NUM_SPIN) % NUM_SPIN == i % NUM_SPIN;
  }

  /** The boundary cases: index -1 is site 99 and index 100 is site 0. */
  lemma EneDiffBoundary(config: seq<int>, h: real, j: real)
    requires |config| == NUM_SPIN
    ensures EneDiff(config, -1, h, j) == EneDiff(config, NUM_SPIN - 1, h, j)
    ensures EneDiff(config, NUM_SPIN, h, j) == EneDiff(config, 0, h, j)
  {
    EneDiffPeriodic(config, -1, 1, h, j);
    EneDiffPeriodic(config, 0, 1, h, j);
  }

  /** Flipping spin `i` and recomputing gives the negated energy difference. */
  lemma EneDiffFlipNegates(config: seq<int>, i: int, h: real, j: real)
    requires |config| == NUM_SPIN
    ensures EneDiff(Flip(config, i % NUM_SPIN), i, h, j) == -EneDiff(config, i, h, j)
  {
    var p := i % NUM_SPIN;
    assert Flip(Flip(config, p), p) == config;
  }

  /** The sum of `n` spins lies in [-n, n] and has the parity of n. */
  lemma SpinSumBounds(s: seq<int>)
    requires ValidSpins(s)
    ensures -|s| <= Sum(s) <= |s|
    ensures (Sum(s) - |s|) % 2 == 0
  {
    SpinSumToBounds(s, |s|);
  }

  /** The sum of the first `n` entries of a ring of spins lies in [-n, n] and has the parity of n. */
  lemma {:induction false} SpinSumToBounds(s: seq<int>, n: nat)
    requires n <= |s| && ValidSpins(s)
    ensures -(n as int) <= SumTo(s, n) <= n
    ensures (SumTo(s, n) - n) % 2 == 0
  {
    if n > 0 {
      SpinSumToBounds(s, n - 1);
    }
  }
}
