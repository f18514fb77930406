/** The aggregate statistics `buildVars` computes once per run. */
module Stats {
  import opened Wrappers
  import opened Metamodel

  /** `vars`: the service count, the totals, the averages (exact quotients;
      the source holds them as floats) and the CI/CD-folder marker. */
  datatype Vars = Vars(
    nbServices: nat,
    totalLocs: nat,
    totalFiles: nat,
    avgLocs: real,
    avgFiles: real,
    hasCiCdFolders: bool)

  function TotalLocs(services: seq<Service>): nat {
    if services == [] then 0 else services[0].locs + TotalLocs(services[1..])
  }

  function TotalFiles(services: seq<Service>): nat {
    if services == [] then 0 else services[0].nbFiles + TotalFiles(services[1..])
  }

  /** The totals add up over any split of the service list, so every
      service's count is part of them. */
  lemma {:induction false} TotalsAdditive(a: seq<Service>, b: seq<Service>)
    ensures TotalLocs(a + b) == TotalLocs(a) + TotalLocs(b)
    ensures TotalFiles(a + b) == TotalFiles(a) + TotalFiles(b)
  {
    if a != [] {
      assert (a + b)[1..] == a[1..] + b;
      TotalsAdditive(a[1..], b);
    } else {
      assert a + b == b;
    }
  }

  /** The scan `for ci in cifolders: if ci in folders: ... break`: an exact
      match between a table entry and a folder name. */
  function HasCiCdFolder(cifolders: seq<string>, folders: seq<string>): (r: bool)
    ensures r <==> exists i, j :: 0 <= i < |cifolders| && 0 <= j < |folders| && cifolders[i] == folders[j]
  {
    if cifolders == [] then false
    else if cifolders[0] in folders then true
    else
      var r := HasCiCdFolder(cifolders[1..], folders);
      assert r ==> exists i, j :: 1 <= i < |cifolders| && 0 <= j < |folders| && cifolders[i] == folders[j];
      r
  }

  /** The statistics are well formed: at least one service, and the averages
      are the totals shared out evenly over the services. */
  predicate ValidVars(v: Vars) {
    && v.nbServices > 0
    && v.avgLocs * (v.nbServices as real) == v.totalLocs as real
    && v.avgFiles * (v.nbServices as real) == v.totalFiles as real
  }

  /** `buildVars` for one fresh run.  The division by the service count fails
      for an empty service list before the CI/CD table is consulted. */
  function BuildVars(sys: System, cifolders: seq<string>): (r: Result<Vars, Error>)
    ensures |sys.services| == 0 <==> r == Failure(DivisionByZero)
    ensures r.Success? <==> |sys.services| > 0
    ensures r.Success? ==> ValidVars(r.value) && r.value.nbServices == |sys.services|
    ensures r.Success? ==> r.value.totalLocs == TotalLocs(sys.services) &&
                           r.value.totalFiles == TotalFiles(sys.services)
    ensures r.Success? ==> (r.value.hasCiCdFolders <==>
              exists i, j :: 0 <= i < |cifolders| && 0 <= j < |sys.folders| && cifolders[i] == sys.folders[j])
  {
    var n := |sys.services|;
    var locs := TotalLocs(sys.services);
    var files := TotalFiles(sys.services);
    if n == 0 then Failure(DivisionByZero)
    else Success(Vars(n, locs, files, locs as real / n as real, files as real / n as real,
                      HasCiCdFolder(cifolders, sys.folders)))
  }

  /** The averages of well-formed statistics are never negative. */
  lemma AveragesNonNegative(v: Vars)
    requires ValidVars(v)
    ensures v.avgLocs >= 0.0 && v.avgFiles >= 0.0
  {
  }
}
