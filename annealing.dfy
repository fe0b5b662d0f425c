/** The loop of `find_approximately_optimal_permutation`: cooling, acceptance,
    the convergence lists and the report counter. The neighbour function and
    the Metropolis draw are oracles; printing becomes a list of reports. */
module Annealing {
  import opened Outcomes
  import opened Cooling

  /** The keyword arguments of the loop that affect what it computes. */
  datatype Config = Config(
    initialTemp: real,
    coolingRate: real,
    logInterval: int,
    saveConvergenceInfo: bool,
    visualize: bool)

  /** The keyword defaults of `find_approximately_optimal_permutation`. */
  const Defaults := Config(1000.0, 0.003, 100, false, false)

  /** What the random parts decide. `neighbour(k, q)` is what `neighbour_fn`
      returns on pass k for the current permutation q: a candidate and its
      energy. `lucky(k, delta, temp)` says whether the uniform draw of pass k
      falls below exp(delta / temp). */
  datatype Oracles<!T> = Oracles(
    neighbour: (nat, seq<T>) -> (seq<T>, real),
    lucky: (nat, real, real) -> bool)

  /** One progress line: the temperature and the current energy. */
  datatype Report = Report(temperature: real, energy: real)

  /** The returned tuple: permutation, energy, temperatures, energies. */
  datatype Annealed<T> = Annealed(
    permutation: seq<T>,
    energy: real,
    temperatures: seq<real>,
    energies: seq<real>)

  function Temp(cfg: Config, k: nat): real {
    Temperature(cfg.initialTemp, cfg.coolingRate, k)
  }

  /** The acceptance test: a strictly better candidate is taken without a
      draw; otherwise the draw decides. */
  predicate Accepts<T>(o: Oracles<T>, k: nat, current: real, candidate: real, temp: real) {
    candidate < current || o.lucky(k, current - candidate, temp)
  }

  /** The current permutation after k passes. */
  function PermutationAfter<T>(p: seq<T>, energy: seq<T> -> real, o: Oracles<T>, cfg: Config, k: nat): seq<T> {
    if k == 0 then p
    else
      var q := PermutationAfter(p, energy, o, cfg, k - 1);
      var step := o.neighbour(k - 1, q);
      if Accepts(o, k - 1, energy(q), step.1, Temp(cfg, k - 1)) then step.0 else q
  }

  /** `iterations_since_last_report` at the start of pass k. */
  function Counter(logInterval: int, visualize: bool, k: nat): int
    decreases k, 0
  {
    if k == 0 then logInterval + 1
    else if ReportsOn(logInterval, visualize, k - 1) then 0
    else Counter(logInterval, visualize, k - 1) + 1
  }

  /** Whether pass k prints a progress line. */
  predicate ReportsOn(logInterval: int, visualize: bool, k: nat)
    decreases k, 1
  {
    Counter(logInterval, visualize, k) > logInterval && !visualize
  }

  /** The progress lines of the first n passes. */
  function ReportsUpTo<T>(p: seq<T>, energy: seq<T> -> real, o: Oracles<T>, cfg: Config, n: nat): seq<Report> {
    if n == 0 then []
    else
      ReportsUpTo(p, energy, o, cfg, n - 1) +
      if ReportsOn(cfg.logInterval, cfg.visualize, n - 1)
      then [Report(Temp(cfg, n - 1), energy(PermutationAfter(p, energy, o, cfg, n - 1)))]
      else []
  }

  /** The temperatures at the start of the first n passes. */
  function TemperaturesUpTo(cfg: Config, n: nat): (r: seq<real>)
    ensures |r| == n
    ensures forall k :: 0 <= k < n ==> r[k] == Temp(cfg, k)
  {
    if n == 0 then [] else TemperaturesUpTo(cfg, n - 1) + [Temp(cfg, n - 1)]
  }

  /** The energies computed at the top of the first n passes. */
  function EnergiesUpTo<T>(p: seq<T>, energy: seq<T> -> real, o: Oracles<T>, cfg: Config, n: nat): (r: seq<real>)
    ensures |r| == n
    ensures forall k :: 0 <= k < n ==> r[k] == energy(PermutationAfter(p, energy, o, cfg, k))
  {
    if n == 0 then [] else EnergiesUpTo(p, energy, o, cfg, n - 1) + [energy(PermutationAfter(p, energy, o, cfg, n - 1))]
  }

  /** `find_approximately_optimal_permutation`. With no pass at all
      (`initial_temp <= 1`) the final read of `current_energy` fails. */
  method FindApproximatelyOptimalPermutation<T>(
    p: seq<T>, energy: seq<T> -> real, o: Oracles<T>, cfg: Config)
    returns (r: Result<Annealed<T>>, reports: seq<Report>)
    requires Ends(cfg.initialTemp, cfg.coolingRate)
    ensures r.Err? <==> cfg.initialTemp <= 1.0
    ensures r.Err? ==> r.error == UnboundLocalError
    ensures reports == ReportsUpTo(p, energy, o, cfg, Passes(cfg.initialTemp, cfg.coolingRate))
    ensures r.Ok? ==> Passes(cfg.initialTemp, cfg.coolingRate) > 0
    // the permutation after the last pass, with the energy computed at the top of that pass
    ensures r.Ok? ==>
      var n := Passes(cfg.initialTemp, cfg.coolingRate);
      && r.value.permutation == PermutationAfter(p, energy, o, cfg, n)
      && r.value.energy == energy(PermutationAfter(p, energy, o, cfg, n - 1))
    // without convergence info both lists are empty
    ensures r.Ok? && !cfg.saveConvergenceInfo ==> r.value.temperatures == [] && r.value.energies == []
    // with it: one entry per pass plus one after the loop
    ensures r.Ok? && cfg.saveConvergenceInfo ==>
      var n := Passes(cfg.initialTemp, cfg.coolingRate);
      && r.value.temperatures == TemperaturesUpTo(cfg, n + 1)
      && r.value.energies == EnergiesUpTo(p, energy, o, cfg, n) + [r.value.energy]
    // the recorded temperatures are above 1 except the last
    ensures r.Ok? && cfg.saveConvergenceInfo ==>
      var n, temps := Passes(cfg.initialTemp, cfg.coolingRate), r.value.temperatures;
      temps[n] <= 1.0 && forall k :: 0 <= k < n ==> temps[k] > 1.0
  {
    ghost var n := Passes(cfg.initialTemp, cfg.coolingRate);
    PassesIsExit(cfg.initialTemp, cfg.coolingRate);
    assert Temp(cfg, n) <= 1.0;
    var temp := cfg.initialTemp;
    var sinceLastReport := cfg.logInterval + 1;
    var temperatures: seq<real> := [];
    var energies: seq<real> := [];
    var permutation := p;
    var currentEnergy: Option<real> := None;
    reports := [];
    // position in the random stream: the oracles are indexed by pass
    var k: nat := 0;
    while temp > 1.0
      invariant temp == Temp(cfg, k)
      invariant permutation == PermutationAfter(p, energy, o, cfg, k)
      invariant sinceLastReport == Counter(cfg.logInterval, cfg.visualize, k)
      invariant reports == ReportsUpTo(p, energy, o, cfg, k)
      invariant k == 0 <==> currentEnergy.None?
      invariant k > 0 ==> currentEnergy == Some(energy(PermutationAfter(p, energy, o, cfg, k - 1)))
      invariant !cfg.saveConvergenceInfo ==> temperatures == [] && energies == []
      invariant cfg.saveConvergenceInfo ==>
        temperatures == TemperaturesUpTo(cfg, k) && energies == EnergiesUpTo(p, energy, o, cfg, k)
      invariant k <= n
      decreases n - k
    {
      var e := energy(permutation);
      currentEnergy := Some(e);

      if sinceLastReport > cfg.logInterval && !cfg.visualize {
        reports := reports + [Report(temp, e)];
        sinceLastReport := 0;
      } else {
        sinceLastReport := sinceLastReport + 1;
      }

      if cfg.saveConvergenceInfo {
        temperatures := temperatures + [temp];
        energies := energies + [e];
      }

      var step := o.neighbour(k, permutation);
      if step.1 < e || o.lucky(k, e - step.1, temp) {
        permutation := step.0;
      }
      temp := temp * (1.0 - cfg.coolingRate);
      k := k + 1;
    }
    assert k == n;

    if currentEnergy.None? {
      r := Err(UnboundLocalError);
      return;
    }
    var e := currentEnergy.value;
    if cfg.saveConvergenceInfo {
      temperatures := temperatures + [temp];
      energies := energies + [e];
      r := Ok(Annealed(permutation, e, temperatures, energies));
    } else {
      r := Ok(Annealed(permutation, e, [], []));
    }
  }

  /** The current permutation is always the input or a candidate that
      `neighbour_fn` returned on an earlier pass. */
  lemma {:induction false} PermutationAfterOrigin<T>(
    p: seq<T>, energy: seq<T> -> real, o: Oracles<T>, cfg: Config, k: nat)
    ensures var q := PermutationAfter(p, energy, o, cfg, k);
      q == p || exists m :: 0 <= m < k && q == o.neighbour(m, PermutationAfter(p, energy, o, cfg, m)).0
  {
    if k > 0 {
      PermutationAfterOrigin(p, energy, o, cfg, k - 1);
      var prev := PermutationAfter(p, energy, o, cfg, k - 1);
      if PermutationAfter(p, energy, o, cfg, k) != prev {
        assert PermutationAfter(p, energy, o, cfg, k) == o.neighbour(k - 1, prev).0;
      }
    }
  }

  /** When every candidate is a permutation of the ordering it was built
      from, as the three operators guarantee, so is every current permutation. */
  lemma {:induction false} PermutationAfterPreservesItems<T>(
    p: seq<T>, energy: seq<T> -> real, o: Oracles<T>, cfg: Config, k: nat)
    requires forall m: nat, q: seq<T> :: multiset(o.neighbour(m, q).0) == multiset(q)
    ensures multiset(PermutationAfter(p, energy, o, cfg, k)) == multiset(p)
  {
    if k > 0 {
      PermutationAfterPreservesItems(p, energy, o, cfg, k - 1);
      var prev := PermutationAfter(p, energy, o, cfg, k - 1);
      assert multiset(o.neighbour(k - 1, prev).0) == multiset(prev);
    }
  }

  lemma ModSucc(a: nat, m: int)
    requires m > 0
    ensures (a + 1) % m == if a % m == m - 1 then 0 else a % m + 1
  {
    var q, r := a / m, a % m;
    var q', r' := (a + 1) / m, (a + 1) % m;
    assert m * (q' - q) == r + 1 - r';
    var d := q' - q;
    assert 0 <= d <= 1;
    if d == 1 {
      assert m * d == m;
    }
  }

  /** Without visualisation and with log_interval >= 0, the counter at the
      start of pass k is log_interval + 1 right after a multiple of
      log_interval + 2 passes, and (k mod (log_interval + 2)) - 1 otherwise. */
  lemma {:induction false} CounterClosedForm(logInterval: int, k: nat)
    requires logInterval >= 0
    ensures Counter(logInterval, false, k)
         == if k % (logInterval + 2) == 0 then logInterval + 1 else k % (logInterval + 2) - 1
  {
    if k > 0 {
      CounterClosedForm(logInterval, k - 1);
      ModSucc(k - 1, logInterval + 2);
    }
  }

  /** As written, a progress line is printed on pass k exactly when k is a
      multiple of log_interval + 2 (every pass when log_interval < 0). */
  lemma {:induction false} ReportPeriod(logInterval: int, k: nat)
    ensures ReportsOn(logInterval, false, k)
        <==> k % (if logInterval >= 0 then logInterval + 2 else 1) == 0
  {
    if logInterval >= 0 {
      CounterClosedForm(logInterval, k);
    } else if k > 0 {
      ReportPeriod(logInterval, k - 1);
    }
  }

  /** In visualisation mode no progress line is printed at all. */
  lemma {:induction false} NoReportsWhenVisualizing<T>(
    p: seq<T>, energy: seq<T> -> real, o: Oracles<T>, cfg: Config, n: nat)
    requires cfg.visualize
    ensures ReportsUpTo(p, energy, o, cfg, n) == []
  {
    if n > 0 {
      NoReportsWhenVisualizing(p, energy, o, cfg, n - 1);
    }
  }

  /** The returned energy need not be the energy of the returned permutation:
      from [0, 1] at temperature 2 with rate 0.5 there is one pass, its
      candidate [1, 0] is strictly better and is accepted, and the energy
      returned is that of [0, 1]. */
  lemma ReturnedEnergyCanBeStale()
    ensures
      var cfg := Config(2.0, 0.5, 100, false, false);
      var energy := (q: seq<int>) => if q == [0, 1] then 1.0 else 0.0;
      var o := Oracles((k: nat, q: seq<int>) => ([1, 0], 0.0), (k: nat, delta: real, temp: real) => false);
      var n := Passes(cfg.initialTemp, cfg.coolingRate);
      && n == 1
      && PermutationAfter([0, 1], energy, o, cfg, n) == [1, 0]
      && energy(PermutationAfter([0, 1], energy, o, cfg, n - 1)) == 1.0
      && energy(PermutationAfter([0, 1], energy, o, cfg, n)) == 0.0
  {
  }

  /** The loop with the energy recomputed for the returned permutation after
      the last pass (which also covers the no-pass case): the returned energy
      is that of the returned permutation and the energy list records it. */
  method FindApproximatelyOptimalPermutationFixed<T>(
    p: seq<T>, energy: seq<T> -> real, o: Oracles<T>, cfg: Config)
    returns (a: Annealed<T>, reports: seq<Report>)
    requires Ends(cfg.initialTemp, cfg.coolingRate)
    ensures reports == ReportsUpTo(p, energy, o, cfg, Passes(cfg.initialTemp, cfg.coolingRate))
    ensures a.permutation == PermutationAfter(p, energy, o, cfg, Passes(cfg.initialTemp, cfg.coolingRate))
    ensures a.energy == energy(a.permutation)
    ensures !cfg.saveConvergenceInfo ==> a.temperatures == [] && a.energies == []
    ensures cfg.saveConvergenceInfo ==>
      var n := Passes(cfg.initialTemp, cfg.coolingRate);
      && a.temperatures == TemperaturesUpTo(cfg, n + 1)
      && a.energies == EnergiesUpTo(p, energy, o, cfg, n + 1)
  {
    var r;
    r, reports := FindApproximatelyOptimalPermutation(p, energy, o, cfg);
    var permutation := if r.Ok? then r.value.permutation else p;
    var e := energy(permutation);
    if !cfg.saveConvergenceInfo {
      a := Annealed(permutation, e, [], []);
    } else if r.Err? {
      a := Annealed(permutation, e, [cfg.initialTemp], [e]);
    } else {
      var energies := r.value.energies;
      a := Annealed(permutation, e, r.value.temperatures, energies[..|energies| - 1] + [e]);
    }
  }
}
