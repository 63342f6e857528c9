/*
 * The Metropolis sweep loop (kernel): every sweep visits the sites 0..99 in
 * ascending order, flips a spin in place when the energy difference is not
 * positive or, otherwise, when the random acceptance draw says so, and after
 * every sweep appends the magnetization of the ring to the returned series.
 *
 * The random draw `numpy.random.rand() < numpy.exp(-beta * dE)` is an
 * oracle: `accept(sweep, site, beta, dE)` answers it for the trial at
 * `site` during sweep number `sweep`. With the oracle fixed the kernel is
 * deterministic, and the specification functions below give its result.
 */
module SweepEngine {
  import opened EnergyModel

  /** Answers the Metropolis draw of one trial, given (sweep, site, beta, dE). */
  type Oracle = (nat, nat, real, real) -> bool

  /** External field h, coupling J, inverse temperature beta and the acceptance draws. */
  datatype Params = Params(h: real, j: real, beta: real, accept: Oracle)

  /**
   * Whether the trial at `site` during sweep `sweep` flips the spin (Metropolis
   * rule); MetropolisRule states what this means for the ring energy.
   */
  predicate Accepts(s: seq<int>, site: nat, sweep: nat, p: Params)
    requires |s| == NUM_SPIN && site < NUM_SPIN
  {

    EneDiff(s, site, p.h, p.j) <= 0.0 || p.accept(sweep, site, p.beta, EneDiff(s, site, p.h, p.j))
  }

  /**
   * The Metropolis rule in terms of the ring energy: a flip that does not
   * raise it is always taken, and the draw is consulted, with the energy
   * rise as its argument, only for a flip that raises it.
   */
  lemma MetropolisRule(s: seq<int>, site: nat, sweep: nat, p: Params)
    requires |s| == NUM_SPIN && site < NUM_SPIN
    ensures Energy(Flip(s, site), p.h, p.j) <= Energy(s, p.h, p.j) ==> Accepts(s, site, sweep, p)
    ensures Energy(Flip(s, site), p.h, p.j) > Energy(s, p.h, p.j) ==>
              (Accepts(s, site, sweep, p)
               <==> p.accept(sweep, site, p.beta, Energy(Flip(s, site), p.h, p.j) - Energy(s, p.h, p.j)))
  {
    assert site % NUM_SPIN == site;
  }

  /**
   * One trial: only the spin at `site` can change; it is reversed exactly
   * when the Metropolis rule accepts, and the ring energy then moves by the
   * energy difference of that flip, otherwise it stays.
   */
  function Step(s: seq<int>, site: nat, sweep: nat, p: Params): (t: seq<int>)
    requires |s| == NUM_SPIN && site < NUM_SPIN
    ensures |t| == NUM_SPIN
    ensures forall k :: 0 <= k < NUM_SPIN && k != site ==> t[k] == s[k]
    ensures t[site] == if Accepts(s, site, sweep, p) then -s[site] else s[site]
    ensures ValidSpins(s) ==> ValidSpins(t)
  {
    if Accepts(s, site, sweep, p) then Flip(s, site) else s
  }

  /** A trial moves the ring energy by the energy difference when it flips, and leaves it otherwise. */
  lemma StepEnergy(s: seq<int>, site: nat, sweep: nat, p: Params)
    requires |s| == NUM_SPIN && site < NUM_SPIN
    ensures Energy(Step(s, site, sweep, p), p.h, p.j)
            == Energy(s, p.h, p.j) + if Accepts(s, site, sweep, p) then EneDiff(s, site, p.h, p.j) else 0.0
  {
    assert site % NUM_SPIN == site;
  }

  /**
   * The configuration after the first `n` trials of sweep `sweep`, taken in
   * ascending site order. The sites not yet visited are untouched.
   */
  function SweepPrefix(s: seq<int>, n: nat, sweep: nat, p: Params): (t: seq<int>)
    requires |s| == NUM_SPIN && n <= NUM_SPIN
    ensures |t| == NUM_SPIN
    ensures forall k :: n <= k < NUM_SPIN ==> t[k] == s[k]
    ensures ValidSpins(s) ==> ValidSpins(t)
  {
    if n == 0 then s else Step(SweepPrefix(s, n - 1, sweep, p), n - 1, sweep, p)
  }

  /** One whole sweep: a trial at every site 0, 1, ..., 99, in that order. */
  function Sweep(s: seq<int>, sweep: nat, p: Params): (t: seq<int>)
    requires |s| == NUM_SPIN
    ensures |t| == NUM_SPIN
    ensures ValidSpins(s) ==> ValidSpins(t)
  {
    SweepPrefix(s, NUM_SPIN, sweep, p)
  }

  /**
   * The configuration after `count` whole sweeps numbered `first`,
   * `first + 1`, ...: each sweep starts from the configuration the previous
   * one left.
   */
  function Sweeps(s: seq<int>, first: nat, count: nat, p: Params): (t: seq<int>)
    requires |s| == NUM_SPIN
    ensures |t| == NUM_SPIN
    ensures ValidSpins(s) ==> ValidSpins(t)
  {
    if count == 0 then s
    else Sweep(Sweeps(s, first, count - 1, p), first + count - 1, p)
  }

  /** The magnetization series of `count` sweeps from `s`, one entry per sweep. */
  function Series(s: seq<int>, count: nat, p: Params): (m: seq<int>)
    requires |s| == NUM_SPIN
    ensures |m| == count
    ensures forall n :: 0 <= n < count ==> m[n] == Magnetization(Sweeps(s, 0, n + 1, p))
  {
    if count == 0 then [] else Series(s, count - 1, p) + [Magnetization(Sweeps(s, 0, count, p))]
  }

  /**
   * The body of the inner loop: one Metropolis trial at `site`, updating
   * `config` in place.
   */
  method Trial(config: array<int>, site: nat, sweep: nat, p: Params)
    requires config.Length == NUM_SPIN && site < NUM_SPIN
    modifies config
    ensures config[..] == Step(old(config[..]), site, sweep, p)
  {
    var eneDiff := EneDiff(config[..], site, p.h, p.j);
    if eneDiff <= 0.0 {
      config[site] := config[site] * -1;
    } else if p.accept(sweep, site, p.beta, eneDiff) {
      config[site] := config[site] * -1;
    }
  }

  /**
   * The inner `for` loop of the kernel: one trial at each site 0..99 in turn,
   * each on the ring as the previous trials left it.
   */
  method RunSweep(config: array<int>, sweep: nat, p: Params)
    requires config.Length == NUM_SPIN
    modifies config
    ensures config[..] == Sweep(old(config[..]), sweep, p)
  {
    for i := 0 to NUM_SPIN
      invariant config[..] == SweepPrefix(old(config[..]), i, sweep, p)
    {
      Trial(config, i, sweep, p);
    }
  }

  /**
   * kernel: runs `maxSweep` sweeps over `config` in place and returns the
   * magnetization after each. A non-positive `maxSweep` runs no sweep.
   */
  method Kernel(config: array<int>, h: real, j: real, beta: real, maxSweep: int, accept: Oracle)
    returns (mList: seq<int>)
    requires config.Length == NUM_SPIN
    modifies config
    ensures var count := if maxSweep > 0 then maxSweep else 0;
            var p := Params(h, j, beta, accept);
            config[..] == Sweeps(old(config[..]), 0, count, p) && mList == Series(old(config[..]), count, p)
    ensures |mList| == if maxSweep > 0 then maxSweep else 0
    ensures maxSweep <= 0 ==> mList == [] && config[..] == old(config[..])
    ensures ValidSpins(old(config[..])) ==> ValidSpins(config[..])
    ensures ValidSpins(old(config[..])) ==>
              forall n :: 0 <= n < |mList| ==> -NUM_SPIN <= mList[n] <= NUM_SPIN && mList[n] % 2 == 0
  {
    var p := Params(h, j, beta, accept);
    ghost var initial := config[..];
    mList := [];
    var isweep: nat := 0;
    while isweep < maxSweep
      invariant maxSweep > 0 ==> isweep <= maxSweep
      invariant maxSweep <= 0 ==> isweep == 0
      invariant config[..] == Sweeps(initial, 0, isweep, p)
      invariant mList == Series(initial, isweep, p)
    {
      RunSweep(config, isweep, p);
      assert config[..] == Sweeps(initial, 0, isweep + 1, p);
      mList := mList + [Magnetization(config[..])];
      isweep := isweep + 1;
    }
    if ValidSpins(initial) {
      SeriesBounds(initial, isweep, p);
    }
  }

  /** Every recorded magnetization of a spin ring lies in [-100, 100] and is even. */
  lemma SeriesBounds(s: seq<int>, count: nat, p: Params)
    requires |s| == NUM_SPIN && ValidSpins(s)
    ensures forall n :: 0 <= n < count ==>
              -NUM_SPIN <= Series(s, count, p)[n] <= NUM_SPIN && Series(s, count, p)[n] % 2 == 0
  {
    forall n | 0 <= n < count
      ensures -NUM_SPIN <= Series(s, count, p)[n] <= NUM_SPIN && Series(s, count, p)[n] % 2 == 0
    {
      assert Series(s, count, p)[n] == Magnetization(Sweeps(s, 0, n + 1, p));
    }
  }

  /**
   * Sweeps are strictly sequential: running `a` sweeps and then `b` more,
   * numbered on from where the first run stopped, is one run of `a + b`.
   */
  lemma {:induction false} SweepsSplit(s: seq<int>, first: nat, a: nat, b: nat, p: Params)
    requires |s| == NUM_SPIN
    ensures Sweeps(s, first, a + b, p) == Sweeps(Sweeps(s, first, a, p), first + a, b, p)
  {
    if b > 0 {
      SweepsSplit(s, first, a, b - 1, p);
    }
  }

  /** With an oracle that rejects every draw, no trial of a sweep raises the ring energy. */
  lemma {:induction false} SweepPrefixNeverUphill(s: seq<int>, n: nat, sweep: nat, p: Params)
    requires |s| == NUM_SPIN && n <= NUM_SPIN
    requires forall sw: nat, site: nat, b: real, x: real :: !p.accept(sw, site, b, x)
    ensures Energy(SweepPrefix(s, n, sweep, p), p.h, p.j) <= Energy(s, p.h, p.j)
  {
    if n > 0 {
      SweepPrefixNeverUphill(s, n - 1, sweep, p);
      StepEnergy(SweepPrefix(s, n - 1, sweep, p), n - 1, sweep, p);
    }
  }

  /** Zero-temperature quench: when every draw is rejected, the energy never increases over any run. */
  lemma {:induction false} QuenchNeverUphill(s: seq<int>, first: nat, count: nat, p: Params)
    requires |s| == NUM_SPIN
    requires forall sw: nat, site: nat, b: real, x: real :: !p.accept(sw, site, b, x)
    ensures Energy(Sweeps(s, first, count, p), p.h, p.j) <= Energy(s, p.h, p.j)
  {
    if count > 0 {
      QuenchNeverUphill(s, first, count - 1, p);
      SweepPrefixNeverUphill(Sweeps(s, first, count - 1, p), NUM_SPIN, first + count - 1, p);
    }
  }

  /** When every draw accepts, the first `n` trials of a sweep reverse exactly the first `n` spins. */
  lemma {:induction false} AlwaysAcceptPrefix(s: seq<int>, n: nat, sweep: nat, p: Params)
    requires |s| == NUM_SPIN && n <= NUM_SPIN
    requires forall sw: nat, site: nat, b: real, x: real :: p.accept(sw, site, b, x)
    ensures forall k :: 0 <= k < n ==> SweepPrefix(s, n, sweep, p)[k] == -s[k]
  {
    if n > 0 {
      AlwaysAcceptPrefix(s, n - 1, sweep, p);
    }
  }

  /** When every draw accepts, each sweep reverses the whole ring and so negates its magnetization. */
  lemma AlwaysAcceptNegates(s: seq<int>, sweep: nat, p: Params)
    requires |s| == NUM_SPIN
    requires forall sw: nat, site: nat, b: real, x: real :: p.accept(sw, site, b, x)
    ensures Magnetization(Sweep(s, sweep, p)) == -Magnetization(s)
  {
    var t := Sweep(s, sweep, p);
    AlwaysAcceptPrefix(s, NUM_SPIN, sweep, p);
    SumNegated(s, t, NUM_SPIN);
  }

  /** A sequence whose entries are the negated entries of another sums to the negated sum. */
  lemma {:induction false} SumNegated(s: seq<int>, t: seq<int>, n: nat)
    requires n <= |s| == |t| && forall k :: 0 <= k < |s| ==> t[k] == -s[k]
    ensures SumTo(t, n) == -SumTo(s, n)
  {
    if n > 0 {
      SumNegated(s, t, n - 1);
    }
  }
}
