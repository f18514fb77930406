/** The deployment and versioning rules: `hasMultipleServicesPerHost` and
    `hasNoApiVersioning`. */
module DeploymentRules {
  import opened Wrappers
  import opened Text
  import opened Dicts
  import opened Metamodel

  // ---------------------------------------------------------------------
  // Multiple instances per host

  /** `{"hasDockerFile": False}` for a service, `{"systemHasCompose": ...}`
      for the system. */
  datatype HostVerdict = ServiceHost(hasDockerFile: bool) | SystemHost(systemHasCompose: bool)

  const ComposeFile: string := "docker-compose.yml"

  /** Some system configuration path contains "docker-compose.yml". */
  predicate HasCompose(files: seq<string>) {
    exists m :: 0 <= m < |files| && IsSubstring(ComposeFile, files[m])
  }

  /** The service loop: every service without container build files. */
  function NoDockerEntries(services: seq<Service>): (ws: seq<Entry<HostVerdict>>)
    ensures forall w :: w in ws ==>
              exists i :: 0 <= i < |services| && services[i].dockerFiles == [] &&
                          w == Entry(services[i].name, ServiceHost(false))
    ensures forall i :: 0 <= i < |services| && services[i].dockerFiles == [] ==>
              Entry(services[i].name, ServiceHost(false)) in ws
  {
    if services == [] then []
    else
      var rest := NoDockerEntries(services[1..]);
      assert forall i :: 1 <= i < |services| ==> services[1..][i - 1] == services[i];
      (if services[0].dockerFiles == [] then [Entry(services[0].name, ServiceHost(false))] else []) + rest
  }

  /** The loop over the system configuration files, with the service loop
      nested inside it: each file repeats the service writes and then writes
      the system verdict with the compose flag found so far.  Nothing is
      written when the system has no configuration files. */
  function HostWrites(files: seq<string>, services: seq<Service>, compose: bool): (ws: seq<Entry<HostVerdict>>)
    ensures |ws| == 0 <==> |files| == 0
    ensures |ws| > 0 ==> ws[|ws| - 1] == Entry(SystemKey, SystemHost(compose || HasCompose(files)))
    ensures forall w :: w in ws ==> w.key == SystemKey || w in NoDockerEntries(services)
    ensures |files| > 0 ==> forall w :: w in NoDockerEntries(services) ==> w in ws
  {
    if files == [] then []
    else
      var compose' := compose || IsSubstring(ComposeFile, files[0]);
      var rest := HostWrites(files[1..], services, compose');
      assert HasCompose(files) <==> IsSubstring(ComposeFile, files[0]) || HasCompose(files[1..]);
      NoDockerEntries(services) + [Entry(SystemKey, SystemHost(compose'))] + rest
  }

  /** `hasMultipleServicesPerHost`. */
  function MultipleInstancesRule(sys: System): seq<Entry<HostVerdict>> {
    HostWrites(sys.configFiles, sys.services, false)
  }

  /** A service is flagged iff the system has configuration files and the
      service has no container build file; the system verdict exists iff the
      system has configuration files and says whether one is a compose file. */
  lemma MultipleInstancesVerdicts(sys: System, k: string)
    ensures k != SystemKey ==>
              (Get(Apply([], MultipleInstancesRule(sys)), k).Some? <==>
               |sys.configFiles| > 0 &&
               exists i :: 0 <= i < |sys.services| && sys.services[i].name == k && sys.services[i].dockerFiles == [])
    ensures Get(Apply([], MultipleInstancesRule(sys)), SystemKey) ==
              if |sys.configFiles| == 0 then None else Some(SystemHost(HasCompose(sys.configFiles)))
  {
    var ws := MultipleInstancesRule(sys);
    var svc := NoDockerEntries(sys.services);
    ApplyHasKey(ws, k);
    ApplyGet([], ws, SystemKey);
    if k != SystemKey {
      if exists j :: 0 <= j < |ws| && ws[j].key == k {
        var j :| 0 <= j < |ws| && ws[j].key == k;
        assert ws[j] in ws;
        assert ws[j] in svc;
      }
      if |sys.configFiles| > 0 &&
         exists i :: 0 <= i < |sys.services| && sys.services[i].name == k && sys.services[i].dockerFiles == [] {
        var i :| 0 <= i < |sys.services| && sys.services[i].name == k && sys.services[i].dockerFiles == [];
        var w := Entry(k, ServiceHost(false));
        assert w in svc;
        assert w in ws;
        var j :| 0 <= j < |ws| && ws[j] == w;
      }
    }
  }

  // ---------------------------------------------------------------------
  // API versioning

  /** `{"hasApiVersioning": ...}`. */
  datatype VersionVerdict = VersionVerdict(hasApiVersioning: bool)

  const ApiVersion: string := "apiVersion"

  /** Some configuration file of the service is readable and lacks
      "apiVersion". */
  ghost predicate LacksVersion(s: Service, contents: map<string, string>) {
    exists m :: 0 <= m < |s.configFiles| && s.configFiles[m] in contents &&
                !IsSubstring(ApiVersion, contents[s.configFiles[m]])
  }

  /** Every configuration file of every service can be opened. */
  ghost predicate ServiceFilesReadable(services: seq<Service>, contents: map<string, string>) {
    forall i, m :: 0 <= i < |services| && 0 <= m < |services[i].configFiles| ==>
                   services[i].configFiles[m] in contents
  }

  /** `for conf_file in paths: with open(conf_file) as conf: if "apiVersion"
      not in conf.read(): ...` for the service `name`; a path missing from
      `contents` is a file `open` fails on. */
  function FileVersionWrites(name: string, paths: seq<string>, contents: map<string, string>)
    : (r: Result<seq<Entry<VersionVerdict>>, Error>)
    ensures r.Success? <==> forall m :: 0 <= m < |paths| ==> paths[m] in contents
    ensures r.Failure? ==> exists m :: 0 <= m < |paths| && paths[m] !in contents && r.error == FileNotFound(paths[m])
    ensures r.Success? ==> forall w :: w in r.value ==> w == Entry(name, VersionVerdict(false))
    ensures r.Success? ==> (|r.value| > 0 <==>
              exists m :: 0 <= m < |paths| && !IsSubstring(ApiVersion, contents[paths[m]]))
  {
    if paths == [] then Success([])
    else if paths[0] !in contents then Failure(FileNotFound(paths[0]))
    else
      var rest :- FileVersionWrites(name, paths[1..], contents);
      assert forall m :: 1 <= m < |paths| ==> paths[1..][m - 1] == paths[m];
      Success((if !IsSubstring(ApiVersion, contents[paths[0]]) then [Entry(name, VersionVerdict(false))] else []) + rest)
  }

  /** The service loop of `hasNoApiVersioning`. */
  function ServiceVersionWrites(services: seq<Service>, contents: map<string, string>)
    : (r: Result<seq<Entry<VersionVerdict>>, Error>)
    ensures r.Success? <==> ServiceFilesReadable(services, contents)
    ensures r.Success? ==> forall w :: w in r.value ==>
              exists i :: 0 <= i < |services| && LacksVersion(services[i], contents) &&
                          w == Entry(services[i].name, VersionVerdict(false))
    ensures r.Success? ==> forall i :: 0 <= i < |services| && LacksVersion(services[i], contents) ==>
              Entry(services[i].name, VersionVerdict(false)) in r.value
  {
    if services == [] then Success([])
    else
      var s := services[0];
      var here :- FileVersionWrites(s.name, s.configFiles, contents);
      var rest :- ServiceVersionWrites(services[1..], contents);
      assert forall i :: 1 <= i < |services| ==> services[1..][i - 1] == services[i];
      assert here != [] ==> here[0] in here;
      Success(here + rest)
  }

  /** Some path cannot be opened, and every path before it is readable and
      lacks "apiVersion": the system loop reaches the unreadable file. */
  ghost predicate BlockedBeforeVersion(paths: seq<string>, contents: map<string, string>) {
    exists m :: 0 <= m < |paths| && paths[m] !in contents && UnversionedPrefix(paths, contents, m)
  }

  /** The first `m` paths are readable and lack "apiVersion". */
  ghost predicate UnversionedPrefix(paths: seq<string>, contents: map<string, string>, m: int)
    requires 0 <= m <= |paths|
  {
    forall m' :: 0 <= m' < m ==> paths[m'] in contents && !IsSubstring(ApiVersion, contents[paths[m']])
  }

  /** The system loop: stops at the first file that contains "apiVersion",
      so files after it are never opened. */
  function SystemVersioned(paths: seq<string>, contents: map<string, string>): (r: Result<bool, Error>)
    ensures r.Success? ==> (r.value <==>
              exists m :: 0 <= m < |paths| && paths[m] in contents && IsSubstring(ApiVersion, contents[paths[m]]))
    ensures (forall m :: 0 <= m < |paths| ==> paths[m] in contents) ==> r.Success?
    ensures r.Failure? ==>
              exists m :: (0 <= m < |paths| && paths[m] !in contents && r.error == FileNotFound(paths[m]) &&
                           UnversionedPrefix(paths, contents, m))
    ensures r.Failure? <==> BlockedBeforeVersion(paths, contents)
  {
    if paths == [] then Success(false)
    else if paths[0] !in contents then
      assert UnversionedPrefix(paths, contents, 0);
      Failure(FileNotFound(paths[0]))
    else if IsSubstring(ApiVersion, contents[paths[0]]) then
      assert !BlockedBeforeVersion(paths, contents) by {
        forall m | 0 <= m < |paths| && paths[m] !in contents
          ensures !UnversionedPrefix(paths, contents, m)
        {
          assert m > 0;
        }
      }
      Success(true)
    else
      var r := SystemVersioned(paths[1..], contents);
      assert forall m :: 1 <= m < |paths| ==> paths[1..][m - 1] == paths[m];
      assert forall m :: 0 <= m < |paths[1..]| ==>
               (UnversionedPrefix(paths[1..], contents, m) <==> UnversionedPrefix(paths, contents, m + 1));
      assert BlockedBeforeVersion(paths, contents) ==> BlockedBeforeVersion(paths[1..], contents) by {
        if BlockedBeforeVersion(paths, contents) {
          var m :| 0 <= m < |paths| && paths[m] !in contents && UnversionedPrefix(paths, contents, m);
          assert m > 0;
          assert paths[1..][m - 1] !in contents;
        }
      }
      r
  }

  /** `hasNoApiVersioning`: the service writes, then the system verdict,
      which is always written. */
  function ApiVersioningRule(sys: System, contents: map<string, string>)
    : (r: Result<seq<Entry<VersionVerdict>>, Error>)
    ensures r.Success? ==> |r.value| > 0 && r.value[|r.value| - 1].key == SystemKey
    ensures (ServiceFilesReadable(sys.services, contents) &&
             forall m :: 0 <= m < |sys.configFiles| ==> sys.configFiles[m] in contents) ==> r.Success?
    ensures !ServiceFilesReadable(sys.services, contents) ==> r.Failure?
    ensures BlockedBeforeVersion(sys.configFiles, contents) ==> r.Failure?
    ensures r.Success? <==> ServiceFilesReadable(sys.services, contents) &&
                            !BlockedBeforeVersion(sys.configFiles, contents)
  {
    var svc :- ServiceVersionWrites(sys.services, contents);
    var top :- SystemVersioned(sys.configFiles, contents);
    Success(svc + [Entry(SystemKey, VersionVerdict(top))])
  }

  /** A successful log is the service writes followed by the system entry. */
  lemma ApiVersioningLog(sys: System, contents: map<string, string>) returns (svc: seq<Entry<VersionVerdict>>)
    requires ApiVersioningRule(sys, contents).Success?
    ensures ServiceVersionWrites(sys.services, contents) == Success(svc)
    ensures var ws := ApiVersioningRule(sys, contents).value;
            ws == svc + [ws[|ws| - 1]]
  {
    svc := ServiceVersionWrites(sys.services, contents).value;
  }

  /** A service is flagged iff one of its configuration files lacks
      "apiVersion". */
  lemma ApiVersioningServiceVerdict(sys: System, contents: map<string, string>, k: string)
    requires k != SystemKey
    requires ApiVersioningRule(sys, contents).Success?
    ensures Get(Apply([], ApiVersioningRule(sys, contents).value), k).Some? <==>
              exists i :: 0 <= i < |sys.services| && sys.services[i].name == k &&
                          LacksVersion(sys.services[i], contents)
  {
    var svc := ApiVersioningLog(sys, contents);
    var ws := ApiVersioningRule(sys, contents).value;
    ApplyHasKey(ws, k);
    if exists j :: 0 <= j < |ws| && ws[j].key == k {
      var j :| 0 <= j < |ws| && ws[j].key == k;
      assert ws[j] in svc;
    }
    if exists i :: 0 <= i < |sys.services| && sys.services[i].name == k && LacksVersion(sys.services[i], contents) {
      var i :| 0 <= i < |sys.services| && sys.services[i].name == k && LacksVersion(sys.services[i], contents);
      var w := Entry(k, VersionVerdict(false));
      assert w in svc;
      var j :| 0 <= j < |svc| && svc[j] == w;
      assert ws[j] == w;
    }
  }

  /** The system verdict is always written and says whether some system
      configuration file contains "apiVersion". */
  lemma ApiVersioningSystemVerdict(sys: System, contents: map<string, string>)
    requires ApiVersioningRule(sys, contents).Success?
    ensures Get(Apply([], ApiVersioningRule(sys, contents).value), SystemKey) ==
              Some(VersionVerdict(exists m :: 0 <= m < |sys.configFiles| && sys.configFiles[m] in contents &&
                                              IsSubstring(ApiVersion, contents[sys.configFiles[m]])))
  {
    var ws := ApiVersioningRule(sys, contents).value;
    ApplyGet([], ws, SystemKey);
  }
}
