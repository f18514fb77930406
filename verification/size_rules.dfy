/** The size-outlier rules `hasNanoService` and `hasMegaService`. */
module SizeRules {
  import opened Dicts
  import opened Metamodel
  import opened Stats

  /** The payload of a size verdict: the measured and the required values. */
  datatype SizeVerdict = SizeVerdict(locs: nat, nbFiles: nat, requiredLocs: int, requiredFiles: int)

  datatype Size = Nano | Mega

  /** NANO_SERVICE_*_THRESHOLD and MEGA_SERVICE_*_THRESHOLD (the same value
      for lines of code and for files). */
  function Threshold(k: Size): real {
    match k
    case Nano => 0.5
    case Mega => 1.5
  }

  /** `math.floor(threshold * average)`. */
  function Required(k: Size, avg: real): int {
    (Threshold(k) * avg).Floor
  }

  /** Nano compares with `<`, mega with `>`. */
  predicate Beyond(k: Size, measured: int, required: int) {
    match k
    case Nano => measured < required
    case Mega => measured > required
  }

  /** The rule: both the line count and the file count are beyond their
      required values. */
  predicate Flagged(k: Size, v: Vars, s: Service) {
    Beyond(k, s.locs, Required(k, v.avgLocs)) && Beyond(k, s.nbFiles, Required(k, v.avgFiles))
  }

  function Verdict(k: Size, v: Vars, s: Service): SizeVerdict {
    SizeVerdict(s.locs, s.nbFiles, Required(k, v.avgLocs), Required(k, v.avgFiles))
  }

  /** The assignments `self._hasNano[name] = {...}` (resp. `_hasMega`) in
      service order: exactly the flagged services, each with its measured
      and required values. */
  function SizeWrites(k: Size, v: Vars, services: seq<Service>): (ws: seq<Entry<SizeVerdict>>)
    ensures forall i :: 0 <= i < |services| && Flagged(k, v, services[i]) ==>
              Entry(services[i].name, Verdict(k, v, services[i])) in ws
    ensures forall e :: e in ws ==>
              exists i :: (0 <= i < |services| && Flagged(k, v, services[i]) &&
                           e == Entry(services[i].name, Verdict(k, v, services[i])))
    ensures forall e :: e in ws ==>
              (Beyond(k, e.value.locs, e.value.requiredLocs) && Beyond(k, e.value.nbFiles, e.value.requiredFiles))
  {
    if services == [] then []
    else
      var s := services[0];
      var rest := SizeWrites(k, v, services[1..]);
      assert forall e :: e in rest ==>
               exists i :: (1 <= i < |services| && Flagged(k, v, services[i]) &&
                            e == Entry(services[i].name, Verdict(k, v, services[i])));
      (if Flagged(k, v, s) then [Entry(s.name, Verdict(k, v, s))] else []) + rest
  }

  /** For the exact average total/n, the floored thresholds are integer
      quotients: floor(0.5 * total/n) = total div 2n and
      floor(1.5 * total/n) = 3 total div 2n. */
  lemma RequiredIsQuotient(k: Size, total: nat, n: nat)
    requires n > 0
    ensures Required(k, total as real / n as real) ==
            (match k case Nano => total / (2 * n) case Mega => (3 * total) / (2 * n))
  {
    var num := match k case Nano => total case Mega => 3 * total;
    var q := num / (2 * n);
    var r := num % (2 * n);
    assert num == 2 * n * q + r;
    var x := Threshold(k) * (total as real / n as real);
    assert x == num as real / (2 * n) as real;
    assert num as real == (2 * n) as real * q as real + r as real;
    var d := (2 * n) as real;
    assert x == q as real + r as real / d;
    assert r as real < d;
    FractionBelowOne(r as real, d);
  }

  lemma FractionBelowOne(a: real, d: real)
    requires 0.0 <= a < d
    ensures 0.0 <= a / d < 1.0
  {
    assert (a / d) * d == a;
  }

  /** No service is both a nano and a mega service: the nano bound
      floor(0.5 a) never exceeds the mega bound floor(1.5 a). */
  lemma NanoMegaExclusive(v: Vars, s: Service)
    requires ValidVars(v)
    ensures !(Flagged(Nano, v, s) && Flagged(Mega, v, s))
  {
    AveragesNonNegative(v);
    assert Required(Nano, v.avgLocs) <= Required(Mega, v.avgLocs);
  }

  /** With unique service names, no key is in both verdict dictionaries. */
  lemma {:induction false} NanoMegaDisjoint(v: Vars, services: seq<Service>, name: string)
    requires ValidVars(v) && UniqueNames(services)
    ensures !(Get(Apply([], SizeWrites(Nano, v, services)), name).Some? &&
              Get(Apply([], SizeWrites(Mega, v, services)), name).Some?)
  {
    var nano := SizeWrites(Nano, v, services);
    var mega := SizeWrites(Mega, v, services);
    ApplyHasKey(nano, name);
    ApplyHasKey(mega, name);
    if Get(Apply([], nano), name).Some? {
      var a :| 0 <= a < |nano| && nano[a].key == name;
      assert nano[a] in nano;
      var i :| 0 <= i < |services| && Flagged(Nano, v, services[i]) &&
               nano[a] == Entry(services[i].name, Verdict(Nano, v, services[i]));
      forall b | 0 <= b < |mega|
        ensures mega[b].key != name
      {
        assert mega[b] in mega;
        var j :| 0 <= j < |services| && Flagged(Mega, v, services[j]) &&
                 mega[b] == Entry(services[j].name, Verdict(Mega, v, services[j]));
        assert services[j].name == name ==> i == j;
        NanoMegaExclusive(v, services[j]);
      }
    }
  }
}
