/** One run of the detector: the statistics built at construction, then the
    sixteen rules in the order `getResults` calls them, each filling its own
    verdict dictionary.  The wrong-cuts dictionary is the one the corrected
    wrong-cuts rule fills (`RelationRules.WrongCutsRule`); the rule as
    written never flags anything (`RelationRules.WrongCutsAsWrittenEmpty`). */
module Detector {
  import opened Wrappers
  import opened Text
  import opened Dicts
  import opened Metamodel
  import opened Stats
  import opened SizeRules
  import opened ToolRules
  import opened Timeouts
  import opened RelationRules
  import opened DeploymentRules
  import opened Dedup

  /** The statistics and the sixteen verdict dictionaries. */
  datatype Report = Report(
    vars: Vars,
    nano: Dict<SizeVerdict>,
    mega: Dict<SizeVerdict>,
    hardcodedEndpoints: Dict<PresenceVerdict>,
    manualConfig: Dict<PresenceVerdict>,
    noApiGateway: Dict<bool>,
    localLogging: Dict<bool>,
    insufficientMonitoring: Dict<bool>,
    noCiCd: Dict<bool>,
    multipleInstances: Dict<HostVerdict>,
    noHealthCheck: Dict<HealthVerdict>,
    wrongCuts: Dict<seq<Link<()>>>,
    circularDeps: Dict<seq<Link<()>>>,
    sharedLibs: Dict<seq<Link<seq<string>>>>,
    timeouts: Dict<TimeoutVerdict>,
    sharedPersistence: Dict<seq<Link<seq<string>>>>,
    noApiVersioning: Dict<VersionVerdict>)

  /** Construction and `getResults` for one metamodel, with the tool tables
      and the readable configuration files given.  The run fails for a system
      without services (the averages), for a service configuration file that
      cannot be opened, and for a system configuration file that cannot be
      opened and is reached before one containing "apiVersion" (API
      versioning, the last rule). */
  function Run(sys: System, tables: Tables, contents: map<string, string>): (r: Result<Report, Error>)
    ensures |sys.services| == 0 ==> r == Failure(DivisionByZero)
    ensures (|sys.services| > 0 && ServiceFilesReadable(sys.services, contents) &&
             forall m :: 0 <= m < |sys.configFiles| ==> sys.configFiles[m] in contents) ==> r.Success?
    ensures !ServiceFilesReadable(sys.services, contents) ==> r.Failure?
    ensures BlockedBeforeVersion(sys.configFiles, contents) ==> r.Failure?
    ensures r.Success? <==> |sys.services| > 0 && ServiceFilesReadable(sys.services, contents) &&
                            !BlockedBeforeVersion(sys.configFiles, contents)
    ensures r.Success? ==> ValidVars(r.value.vars) && r.value.vars.nbServices == |sys.services|
    ensures r.Success? ==> Get(r.value.noApiVersioning, SystemKey).Some?
  {
    var v :- BuildVars(sys, tables.cicdFolders);
    var versioning :- ApiVersioningRule(sys, contents);
    ApplyGet([], versioning, SystemKey);
    Success(Report(
      v,
      Apply([], SizeWrites(Nano, v, sys.services)),
      Apply([], SizeWrites(Mega, v, sys.services)),
      Apply([], PresenceRule(tables.serviceDiscovery, Urls, sys)),
      Apply([], PresenceRule(tables.configuration, ConfigFiles, sys)),
      Apply([], AbsenceRule(tables.gateway, sys)),
      Apply([], AbsenceRule(tables.logging, sys)),
      Apply([], AbsenceRule(tables.monitoring, sys)),
      Apply([], CiCdRule(tables.cicd, sys)),
      Apply([], MultipleInstancesRule(sys)),
      Apply([], HealthCheckRule(tables.healthcheck, sys)),
      Apply([], WrongCutsRule(sys, tables.programming)),
      Apply([], CircularRule(sys)),
      Apply([], SharedRule(Dependencies, sys)),
      Apply([], TimeoutRule(tables.circuitBreaker, sys)),
      Apply([], SharedRule(Datasources, sys)),
      Apply([], versioning)))
  }

  /** A run over services with unique names and readable files succeeds and
      never reports a service as both nano and mega. */
  lemma NanoMegaReport(sys: System, tables: Tables, contents: map<string, string>, name: string)
    requires UniqueNames(sys.services) && |sys.services| > 0
    requires ServiceFilesReadable(sys.services, contents)
    requires forall m :: 0 <= m < |sys.configFiles| ==> sys.configFiles[m] in contents
    ensures Run(sys, tables, contents).Success?
    ensures var rep := Run(sys, tables, contents).value;
            !(Get(rep.nano, name).Some? && Get(rep.mega, name).Some?)
  {
    var rep := Run(sys, tables, contents).value;
    NanoMegaDisjoint(rep.vars, sys.services, name);
  }

  /** With unique names, the circular dictionary is exactly the write log:
      one entry per service, in service order. */
  lemma CircularDictIsLog(sys: System)
    requires UniqueNames(sys.services)
    ensures Apply([], CircularRule(sys)) == CircularRule(sys)
  {
    var ws := CircularRule(sys);
    assert [] + ws == ws;
    assert UniqueKeys(ws);
    ApplyDistinct([], ws);
  }

  /** With unique names, a circular pair's record is among the records the
      printing loop visits. */
  lemma CircularLinkVisited(sys: System, i: int, j: int)
    requires UniqueNames(sys.services) && 0 <= i < |sys.services| && 0 <= j < |sys.services|
    requires Circular(sys.services[i], sys.services[j].name, sys.services)
    ensures Link(sys.services[i].name, sys.services[j].name, ()) in Flatten(Values(Apply([], CircularRule(sys))))
  {
    var ws := CircularRule(sys);
    CircularDictIsLog(sys);
    var names := Names(sys.services);
    var lists := Values(ws);
    var l := Link(sys.services[i].name, sys.services[j].name, ());
    assert names[j] == sys.services[j].name;
    var links := CircularLinks(sys.services[i], names, sys.services);
    assert l in links;
    assert lists[i] == links;
    var m :| 0 <= m < |links| && links[m] == l;
    assert lists[i][m] in Flatten(lists);
  }

  /** Each circular pair of services is printed exactly once in the
      "Circular Dependencies" section, whichever of the two records the
      printing loop meets first. */
  lemma CircularPrintedOnce(sys: System, i: int, j: int)
    requires UniqueNames(sys.services) && 0 <= i < |sys.services| && 0 <= j < |sys.services|
    requires Circular(sys.services[i], sys.services[j].name, sys.services)
    ensures var links := Flatten(Values(Apply([], CircularRule(sys))));
            var l := Link(sys.services[i].name, sys.services[j].name, ());
            && Covers(Printed(links, []), l)
            && forall p, q :: (0 <= p < |Printed(links, [])| && 0 <= q < |Printed(links, [])| &&
                               SamePair(Printed(links, [])[p], l) && SamePair(Printed(links, [])[q], l)) ==> p == q
  {
    var links := Flatten(Values(Apply([], CircularRule(sys))));
    CircularLinkVisited(sys, i, j);
    var n :| 0 <= n < |links| && links[n] == Link(sys.services[i].name, sys.services[j].name, ());
    PrintedOnce(links, n);
  }

  /** A service that only has a size. */
  function Sized(name: string, locs: nat, files: nat): Service {
    Service(name, locs, files, "java", [], [], [], [], [], [], [], [])
  }

  /** Four services: three of 100 lines in 5 files and one of 10000 lines in
      500 files. */
  function ScenarioServices(): seq<Service> {
    [Sized("a", 100, 5), Sized("b", 100, 5), Sized("c", 100, 5), Sized("d", 10000, 500)]
  }

  /** The statistics of the four services: averages of 2575 lines and 128.75
      files, hence nano bounds of 1287 and 64 and mega bounds of 3862 and 193. */
  lemma ScenarioVars()
    ensures var v := BuildVars(System(ScenarioServices(), [], [], [], []), []).value;
            && v.totalLocs == 10300 && v.totalFiles == 515
            && Required(Nano, v.avgLocs) == 1287 && Required(Nano, v.avgFiles) == 64
            && Required(Mega, v.avgLocs) == 3862 && Required(Mega, v.avgFiles) == 193
  {
    var ss := ScenarioServices();
    assert TotalLocs(ss[3..]) == 10000 && TotalFiles(ss[3..]) == 500;
    assert ss[2..][1..] == ss[3..];
    assert TotalLocs(ss[2..]) == 10100 && TotalFiles(ss[2..]) == 505;
    assert ss[1..][1..] == ss[2..];
    assert TotalLocs(ss[1..]) == 10200 && TotalFiles(ss[1..]) == 510;
    RequiredIsQuotient(Nano, 10300, 4);
    RequiredIsQuotient(Nano, 515, 4);
    RequiredIsQuotient(Mega, 10300, 4);
    RequiredIsQuotient(Mega, 515, 4);
  }

  /** One step of the size loop. */
  lemma SizeWritesStep(k: Size, v: Vars, services: seq<Service>)
    requires |services| > 0
    ensures SizeWrites(k, v, services) ==
              (if Flagged(k, v, services[0]) then [Entry(services[0].name, Verdict(k, v, services[0]))] else [])
              + SizeWrites(k, v, services[1..])
  {
  }

  /** The nano test and verdict of each of the four services. */
  lemma NanoFlags()
    ensures var ss := ScenarioServices();
            var v := BuildVars(System(ss, [], [], [], []), []).value;
            && !Flagged(Nano, v, ss[3])
            && forall i :: 0 <= i < 3 ==>
                 Flagged(Nano, v, ss[i]) && Verdict(Nano, v, ss[i]) == SizeVerdict(100, 5, 1287, 64)
  {
    ScenarioVars();
  }

  /** Among the four services, the three of 100 lines are the nano services. */
  lemma NanoScenario()
    ensures var v := BuildVars(System(ScenarioServices(), [], [], [], []), []).value;
            SizeWrites(Nano, v, ScenarioServices()) ==
              [Entry("a", SizeVerdict(100, 5, 1287, 64)), Entry("b", SizeVerdict(100, 5, 1287, 64)),
               Entry("c", SizeVerdict(100, 5, 1287, 64))]
  {
    NanoFlags();
    NanoWrites(BuildVars(System(ScenarioServices(), [], [], [], []), []).value);
  }

  /** The size loop over the four services, for statistics under which
      exactly the first three are nano services. */
  lemma NanoWrites(v: Vars)
    requires var ss := ScenarioServices();
             && !Flagged(Nano, v, ss[3])
             && forall i :: 0 <= i < 3 ==>
                  Flagged(Nano, v, ss[i]) && Verdict(Nano, v, ss[i]) == SizeVerdict(100, 5, 1287, 64)
    ensures SizeWrites(Nano, v, ScenarioServices()) ==
              [Entry("a", SizeVerdict(100, 5, 1287, 64)), Entry("b", SizeVerdict(100, 5, 1287, 64)),
               Entry("c", SizeVerdict(100, 5, 1287, 64))]
  {
    var ss := ScenarioServices();
    SizeWritesStep(Nano, v, ss[3..]);
    assert ss[3..][1..] == [];
    SizeWritesStep(Nano, v, ss[2..]);
    assert ss[2..][1..] == ss[3..];
    SizeWritesStep(Nano, v, ss[1..]);
    assert ss[1..][1..] == ss[2..];
    SizeWritesStep(Nano, v, ss);
  }

  /** The mega test and verdict of each of the four services. */
  lemma MegaFlags()
    ensures var ss := ScenarioServices();
            var v := BuildVars(System(ss, [], [], [], []), []).value;
            && Flagged(Mega, v, ss[3]) && Verdict(Mega, v, ss[3]) == SizeVerdict(10000, 500, 3862, 193)
            && forall i :: 0 <= i < 3 ==> !Flagged(Mega, v, ss[i])
  {
    ScenarioVars();
  }

  /** Among the four services, the one of 10000 lines is the only mega
      service. */
  lemma MegaScenario()
    ensures var v := BuildVars(System(ScenarioServices(), [], [], [], []), []).value;
            SizeWrites(Mega, v, ScenarioServices()) == [Entry("d", SizeVerdict(10000, 500, 3862, 193))]
  {
    MegaFlags();
    MegaWrites(BuildVars(System(ScenarioServices(), [], [], [], []), []).value);
  }

  /** The size loop over the four services, for statistics under which
      exactly the last one is a mega service. */
  lemma MegaWrites(v: Vars)
    requires var ss := ScenarioServices();
             && Flagged(Mega, v, ss[3]) && Verdict(Mega, v, ss[3]) == SizeVerdict(10000, 500, 3862, 193)
             && forall i :: 0 <= i < 3 ==> !Flagged(Mega, v, ss[i])
    ensures SizeWrites(Mega, v, ScenarioServices()) == [Entry("d", SizeVerdict(10000, 500, 3862, 193))]
  {
    var ss := ScenarioServices();
    SizeWritesStep(Mega, v, ss[3..]);
    assert ss[3..][1..] == [];
    SizeWritesStep(Mega, v, ss[2..]);
    assert ss[2..][1..] == ss[3..];
    SizeWritesStep(Mega, v, ss[1..]);
    assert ss[1..][1..] == ss[2..];
    SizeWritesStep(Mega, v, ss);
  }
}
