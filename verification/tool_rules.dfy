/** The rules that scan dependencies against a lookup table: the absence
    rules (`hasApiGateway`, `hasLocalLogging`, `hasInsufficientMonitoring`,
    `hasCiCd`, `hasHealthCheck`) and the presence rules
    (`hasHardcodedEndpoints`, `hasManualConfiguration`).  Each rule creates
    its hit list `res` once and never resets it between services, so a
    service's "tool found" status includes the hits of every earlier service. */
module ToolRules {
  import opened Wrappers
  import opened Text
  import opened Dicts
  import opened Metamodel

  /** `tool in dependency` holds for some token of the table. */
  predicate Matches(tools: seq<string>, dep: string) {
    exists j :: 0 <= j < |tools| && IsSubstring(tools[j], dep)
  }

  predicate AnyMatch(tools: seq<string>, deps: seq<string>) {
    exists i :: 0 <= i < |deps| && Matches(tools, deps[i])
  }

  /** Some service up to and including index `i` declares a dependency that
      a token matches. */
  ghost predicate ToolSeen(tools: seq<string>, services: seq<Service>, i: int) {
    exists j :: 0 <= j <= i && j < |services| && AnyMatch(tools, services[j].dependencies)
  }

  lemma ToolSeenShift(tools: seq<string>, services: seq<Service>)
    requires |services| > 0
    ensures forall i :: 1 <= i < |services| ==>
              (ToolSeen(tools, services, i) <==>
               AnyMatch(tools, services[0].dependencies) || ToolSeen(tools, services[1..], i - 1))
  {
    forall i | 1 <= i < |services|
      ensures ToolSeen(tools, services, i) ==>
                AnyMatch(tools, services[0].dependencies) || ToolSeen(tools, services[1..], i - 1)
    {
      if ToolSeen(tools, services, i) {
        var j :| 0 <= j <= i && j < |services| && AnyMatch(tools, services[j].dependencies);
        if j > 0 {
          assert services[1..][j - 1] == services[j];
        }
      }
    }
  }

  /** The tokens `for tool in tools: if tool in dependency: res.append(tool)`
      appends for one dependency. */
  function TokenHits(tools: seq<string>, dep: string): (r: seq<string>)
    ensures |r| == 0 <==> !Matches(tools, dep)
    ensures forall t :: t in r ==> t in tools && IsSubstring(t, dep)
  {
    if tools == [] then []
    else
      var rest := TokenHits(tools[1..], dep);
      assert Matches(tools[1..], dep) ==> Matches(tools, dep);
      (if IsSubstring(tools[0], dep) then [tools[0]] else []) + rest
  }

  /** The tokens one service's dependency loop appends to `res`. */
  function Hits(tools: seq<string>, deps: seq<string>): (r: seq<string>)
    ensures |r| == 0 <==> !AnyMatch(tools, deps)
    ensures forall t :: t in r ==> t in tools
  {
    if deps == [] then []
    else
      var rest := Hits(tools, deps[1..]);
      assert AnyMatch(tools, deps[1..]) ==> AnyMatch(tools, deps);
      TokenHits(tools, deps[0]) + rest
  }

  // ---------------------------------------------------------------------
  // Absence rules

  /** The services the per-service loop of an absence rule writes, when `res`
      already holds the given tokens: a service is written iff `res` is still
      empty after its dependencies are scanned.  They form a prefix of the
      service list. */
  function AbsentServices(tools: seq<string>, services: seq<Service>, res: seq<string>): (r: seq<Service>)
    ensures |res| > 0 ==> r == []
    ensures |r| <= |services|
    ensures |res| == 0 ==> r == services[..|r|]
    ensures |res| == 0 ==>
              forall i :: 0 <= i < |services| ==> (i < |r| <==> !ToolSeen(tools, services, i))
    decreases |services|
  {
    if services == [] then []
    else
      var res' := res + Hits(tools, services[0].dependencies);
      var rest := AbsentServices(tools, services[1..], res');
      ToolSeenShift(tools, services);
      (if |res'| == 0 then [services[0]] else []) + rest
  }

  /** The names the service loop of an absence rule writes. */
  lemma AbsentNames(tools: seq<string>, services: seq<Service>, k: string)
    ensures var flagged := AbsentServices(tools, services, []);
            (exists j :: 0 <= j < |flagged| && flagged[j].name == k) <==>
            (exists i :: 0 <= i < |services| && services[i].name == k && !ToolSeen(tools, services, i))
  {
    var flagged := AbsentServices(tools, services, []);
    forall j | 0 <= j < |flagged| && flagged[j].name == k
      ensures exists i :: 0 <= i < |services| && services[i].name == k && !ToolSeen(tools, services, i)
    {
      assert flagged[j] == services[j];
      assert !ToolSeen(tools, services, j);
    }
    forall i | 0 <= i < |services| && services[i].name == k && !ToolSeen(tools, services, i)
      ensures exists j :: 0 <= j < |flagged| && flagged[j].name == k
    {
      assert i < |flagged|;
      assert flagged[i] == services[i];
    }
  }

  /** The system-level writes of an absence rule.  The assignment sits inside
      the loop over the system's dependencies, so it happens once per
      dependency while `sysres` is still empty: there is no write when the
      system has no dependencies, and there is one iff the first dependency
      matches no token. */
  function SystemAbsentWrites<V>(tools: seq<string>, deps: seq<string>, sysres: seq<string>, v: V)
    : (ws: seq<Entry<V>>)
    ensures forall w :: w in ws ==> w == Entry(SystemKey, v)
    ensures |ws| > 0 <==> |sysres| == 0 && |deps| > 0 && !Matches(tools, deps[0])
  {
    if deps == [] then []
    else
      var sysres' := sysres + TokenHits(tools, deps[0]);
      (if |sysres'| == 0 then [Entry(SystemKey, v)] else []) + SystemAbsentWrites(tools, deps[1..], sysres', v)
  }

  /** `{"hasXTool": False}` for every written service; the flag is the
      boolean payload. */
  function NoToolEntries(flagged: seq<Service>): (ws: seq<Entry<bool>>)
    ensures |ws| == |flagged|
    ensures forall i :: 0 <= i < |ws| ==> ws[i].key == flagged[i].name && !ws[i].value
  {
    seq(|flagged|, i requires 0 <= i < |flagged| => Entry(flagged[i].name, false))
  }

  /** `hasApiGateway`, `hasLocalLogging` and `hasInsufficientMonitoring`:
      the assignments of the service loop, then those of the system loop. */
  function AbsenceRule(tools: seq<string>, sys: System): seq<Entry<bool>> {
    NoToolEntries(AbsentServices(tools, sys.services, []))
      + SystemAbsentWrites(tools, sys.dependencies, [], false)
  }

  /** `hasCiCd`: the service loop only; there is no system-level verdict. */
  function CiCdRule(tools: seq<string>, sys: System): seq<Entry<bool>> {
    NoToolEntries(AbsentServices(tools, sys.services, []))
  }

  /** The keys of the service writes of an absence rule. */
  lemma NoToolKeys(tools: seq<string>, services: seq<Service>, k: string)
    ensures var ws := NoToolEntries(AbsentServices(tools, services, []));
            (exists j :: 0 <= j < |ws| && ws[j].key == k) <==>
            (exists i :: 0 <= i < |services| && services[i].name == k && !ToolSeen(tools, services, i))
  {
    var flagged := AbsentServices(tools, services, []);
    var ws := NoToolEntries(flagged);
    AbsentNames(tools, services, k);
    forall j | 0 <= j < |ws| && ws[j].key == k
      ensures exists j' :: 0 <= j' < |flagged| && flagged[j'].name == k
    {
      assert flagged[j].name == k;
    }
    forall j | 0 <= j < |flagged| && flagged[j].name == k
      ensures exists j' :: 0 <= j' < |ws| && ws[j'].key == k
    {
      assert ws[j].key == k;
    }
  }

  /** A service key is flagged by an absence rule iff it names a service
      such that no token matches a dependency of it or of any earlier
      service. */
  lemma {:induction false} AbsenceServiceVerdicts(tools: seq<string>, sys: System, k: string)
    requires k != SystemKey
    ensures Get(Apply([], AbsenceRule(tools, sys)), k).Some? <==>
              exists i :: 0 <= i < |sys.services| && sys.services[i].name == k &&
                          !ToolSeen(tools, sys.services, i)
  {
    var svc := NoToolEntries(AbsentServices(tools, sys.services, []));
    var top := SystemAbsentWrites(tools, sys.dependencies, [], false);
    assert forall j :: 0 <= j < |top| ==> top[j] in top;
    ApplyHasKey(svc + top, k);
    AssignedKeysAppend(svc, top, k);
    NoToolKeys(tools, sys.services, k);
  }

  /** The system key is flagged by an absence rule iff the first system
      dependency matches no token (so never for a system without
      dependencies). */
  lemma {:induction false} AbsenceSystemVerdict(tools: seq<string>, sys: System)
    requires forall i :: 0 <= i < |sys.services| ==> sys.services[i].name != SystemKey
    ensures Get(Apply([], AbsenceRule(tools, sys)), SystemKey).Some? <==>
              |sys.dependencies| > 0 && !Matches(tools, sys.dependencies[0])
  {
    var svc := NoToolEntries(AbsentServices(tools, sys.services, []));
    var top := SystemAbsentWrites(tools, sys.dependencies, [], false);
    var ws := svc + top;
    ApplyHasKey(ws, SystemKey);
    NoToolKeys(tools, sys.services, SystemKey);
    forall j | 0 <= j < |ws| && ws[j].key == SystemKey
      ensures |top| > 0
    {
      if j < |svc| {
        assert false;
      }
    }
    if |top| > 0 {
      assert ws[|svc|] == top[0];
    }
  }

  /** Every verdict of an absence rule says the tool is absent. */
  lemma {:induction false} AbsenceVerdictsFalse(tools: seq<string>, sys: System, k: string)
    ensures Get(Apply([], AbsenceRule(tools, sys)), k) != Some(true)
  {
    var svc := NoToolEntries(AbsentServices(tools, sys.services, []));
    var top := SystemAbsentWrites(tools, sys.dependencies, [], false);
    var ws := svc + top;
    ApplyGet([], ws, k);
    forall j | 0 <= j < |ws|
      ensures !ws[j].value
    {
      if j >= |svc| {
        assert ws[j] == top[j - |svc|];
        assert ws[j] in top;
      }
    }
  }

  /** `hasCiCd` flags exactly the services before the first one whose own
      dependencies match a token. */
  lemma {:induction false} CiCdRuleVerdicts(tools: seq<string>, sys: System, k: string)
    ensures Get(Apply([], CiCdRule(tools, sys)), k).Some? <==>
              exists i :: 0 <= i < |sys.services| && sys.services[i].name == k &&
                          !ToolSeen(tools, sys.services, i)
  {
    ApplyHasKey(CiCdRule(tools, sys), k);
    NoToolKeys(tools, sys.services, k);
  }

  // ---------------------------------------------------------------------
  // Health checks

  /** `for x in xs: if word in x.lower(): found = True; break`. */
  function ScanFor(xs: seq<string>, word: string): (r: bool)
    ensures r <==> AnyContainsWord(xs, word)
  {
    if xs == [] then false
    else if ContainsWord(xs[0], word) then true
    else
      var r := ScanFor(xs[1..], word);
      assert AnyContainsWord(xs[1..], word) ==> AnyContainsWord(xs, word);
      r
  }

  /** The payloads of `hasHealthCheck`: a written service also records
      whether an import or an annotation mentions "health". */
  datatype HealthVerdict =
    | ServiceHealth(hasHealthcheckTools: bool, hasHealthImports: bool, hasHealthAnnotations: bool)
    | SystemHealth(hasHealthcheckTools: bool)

  /** One verdict per flagged service, keyed by its name, recording whether
      some import and some annotation contain "health" in lower case. */
  function HealthEntries(flagged: seq<Service>): (ws: seq<Entry<HealthVerdict>>)
    ensures |ws| == |flagged|
    ensures forall i :: 0 <= i < |flagged| ==>
              ws[i] == Entry(flagged[i].name,
                             ServiceHealth(false, AnyContainsWord(flagged[i].imports, "health"),
                                                  AnyContainsWord(flagged[i].annotations, "health")))
  {
    seq(|flagged|, i requires 0 <= i < |flagged| =>
      Entry(flagged[i].name, ServiceHealth(false, ScanFor(flagged[i].imports, "health"),
                                                  ScanFor(flagged[i].annotations, "health"))))
  }

  /** `hasHealthCheck`: the absence rule over the health-check table. */
  function HealthCheckRule(tools: seq<string>, sys: System): seq<Entry<HealthVerdict>> {
    HealthEntries(AbsentServices(tools, sys.services, []))
      + SystemAbsentWrites(tools, sys.dependencies, [], SystemHealth(false))
  }

  /** A service's health-check verdict is written iff no token has matched up
      to it, and then records exactly whether some import (resp. annotation)
      contains "health" in lower case; the tool flag is always false. */
  lemma HealthCheckServiceVerdict(tools: seq<string>, sys: System, i: int)
    requires UniqueNames(sys.services) && 0 <= i < |sys.services|
    ensures var s := sys.services[i];
            (Entry(s.name, ServiceHealth(false, AnyContainsWord(s.imports, "health"),
                                                AnyContainsWord(s.annotations, "health")))
               in HealthCheckRule(tools, sys)) <==> !ToolSeen(tools, sys.services, i)
  {
    var flagged := AbsentServices(tools, sys.services, []);
    var svc := HealthEntries(flagged);
    var top := SystemAbsentWrites(tools, sys.dependencies, [], SystemHealth(false));
    var s := sys.services[i];
    var e := Entry(s.name, ServiceHealth(false, AnyContainsWord(s.imports, "health"),
                                                AnyContainsWord(s.annotations, "health")));
    if !ToolSeen(tools, sys.services, i) {
      assert svc[i] == e;
    }
    if e in svc + top {
      assert e !in top;
      var j :| 0 <= j < |svc| && svc[j] == e;
      assert !ToolSeen(tools, sys.services, j);
      assert sys.services[j].name == s.name;
    }
  }

  // ---------------------------------------------------------------------
  // Presence rules

  /** The metamodel field a presence rule reports. */
  datatype Evidence = Urls | ConfigFiles

  function ServiceEvidence(e: Evidence, s: Service): seq<string> {
    match e
    case Urls => s.http
    case ConfigFiles => s.configFiles
  }

  function SystemEvidence(e: Evidence, sys: System): seq<string> {
    match e
    case Urls => sys.http
    case ConfigFiles => sys.configFiles
  }

  /** `{"hasServiceDiscoveryTool": ..., "FoundUrls": ...}` and
      `{"hasConfigurationTool": ..., "FoundConfigFiles": ...}`. */
  datatype PresenceVerdict = PresenceVerdict(hasTool: bool, found: string)

  function Found(xs: seq<string>): string {
    Join(xs, ", ")
  }

  /** The entry the service loop of a presence rule writes for service `i`
      when `res` held the given tokens before the loop. */
  ghost function PresenceEntry(tools: seq<string>, e: Evidence, services: seq<Service>, res: seq<string>, i: int)
    : Entry<PresenceVerdict>
    requires 0 <= i < |services|
  {
    Entry(services[i].name,
          PresenceVerdict(|res| > 0 || ToolSeen(tools, services, i), Found(ServiceEvidence(e, services[i]))))
  }

  /** Dropping the first service moves its hits into `res`. */
  lemma PresenceEntryShift(tools: seq<string>, e: Evidence, services: seq<Service>, res: seq<string>)
    requires |services| > 0
    ensures PresenceEntry(tools, e, services, res, 0) ==
              Entry(services[0].name,
                    PresenceVerdict(|res + Hits(tools, services[0].dependencies)| != 0,
                                    Found(ServiceEvidence(e, services[0]))))
    ensures forall i :: 1 <= i < |services| ==>
              PresenceEntry(tools, e, services, res, i) ==
              PresenceEntry(tools, e, services[1..], res + Hits(tools, services[0].dependencies), i - 1)
  {
    ToolSeenShift(tools, services);
    assert forall i :: 1 <= i < |services| ==> services[1..][i - 1] == services[i];
  }

  /** The service loop of a presence rule: a service is written iff its
      evidence list is non-empty, and the tool flag tells whether `res` holds
      a token by then. */
  function PresenceServiceWrites(tools: seq<string>, e: Evidence, services: seq<Service>, res: seq<string>)
    : (ws: seq<Entry<PresenceVerdict>>)
    ensures forall i :: 0 <= i < |services| && |ServiceEvidence(e, services[i])| > 0 ==>
              PresenceEntry(tools, e, services, res, i) in ws
    ensures forall w :: w in ws ==>
              exists i :: (0 <= i < |services| && |ServiceEvidence(e, services[i])| > 0 &&
                           w == PresenceEntry(tools, e, services, res, i))
    decreases |services|
  {
    if services == [] then []
    else
      var s := services[0];
      var res' := res + Hits(tools, s.dependencies);
      var rest := PresenceServiceWrites(tools, e, services[1..], res');
      PresenceEntryShift(tools, e, services, res);
      assert forall i :: 1 <= i < |services| ==> services[1..][i - 1] == services[i];
      (if |ServiceEvidence(e, s)| > 0 then [Entry(s.name, PresenceVerdict(|res'| != 0, Found(ServiceEvidence(e, s))))]
       else []) + rest
  }

  /** The system loop of a presence rule: one assignment per system
      dependency when the system evidence is non-empty; the last one, which
      the dictionary keeps, records whether any system dependency matched. */
  function PresenceSystemWrites(tools: seq<string>, deps: seq<string>, sysres: seq<string>, found: seq<string>)
    : (ws: seq<Entry<PresenceVerdict>>)
    ensures |ws| == if |found| > 0 then |deps| else 0
    ensures forall w :: w in ws ==> w.key == SystemKey && w.value.found == Found(found)
    ensures |ws| > 0 ==> ws[|ws| - 1].value.hasTool == (|sysres| > 0 || AnyMatch(tools, deps))
  {
    if deps == [] then []
    else
      var sysres' := sysres + TokenHits(tools, deps[0]);
      var rest := PresenceSystemWrites(tools, deps[1..], sysres', found);
      assert AnyMatch(tools, deps) <==> Matches(tools, deps[0]) || AnyMatch(tools, deps[1..]);
      (if |found| > 0 then [Entry(SystemKey, PresenceVerdict(|sysres'| != 0, Found(found)))] else []) + rest
  }

  /** `hasHardcodedEndpoints` (service-discovery table, `code.http`) and
      `hasManualConfiguration` (configuration table, `config_files`). */
  function PresenceRule(tools: seq<string>, e: Evidence, sys: System): seq<Entry<PresenceVerdict>> {
    PresenceServiceWrites(tools, e, sys.services, [])
      + PresenceSystemWrites(tools, sys.dependencies, [], SystemEvidence(e, sys))
  }

  /** The system verdict of a presence rule exists iff the system has both
      dependencies and evidence, and then says whether any system dependency
      matches a token. */
  lemma PresenceSystemVerdict(tools: seq<string>, e: Evidence, sys: System)
    requires forall i :: 0 <= i < |sys.services| ==> sys.services[i].name != SystemKey
    ensures Get(Apply([], PresenceRule(tools, e, sys)), SystemKey) ==
              if |sys.dependencies| > 0 && |SystemEvidence(e, sys)| > 0
              then Some(PresenceVerdict(AnyMatch(tools, sys.dependencies), Found(SystemEvidence(e, sys))))
              else None
  {
    var svc := PresenceServiceWrites(tools, e, sys.services, []);
    var top := PresenceSystemWrites(tools, sys.dependencies, [], SystemEvidence(e, sys));
    PresenceServiceKeys(tools, e, sys.services, []);
    assert forall i :: 0 <= i < |top| ==> top[i] in top;
    LastWriteOfTail(svc, top, SystemKey);
    ApplyGet([], svc + top, SystemKey);
  }

  /** No service write of a presence rule uses the system's key. */
  lemma PresenceServiceKeys(tools: seq<string>, e: Evidence, services: seq<Service>, res: seq<string>)
    requires forall i :: 0 <= i < |services| ==> services[i].name != SystemKey
    ensures forall k :: 0 <= k < |PresenceServiceWrites(tools, e, services, res)| ==> PresenceServiceWrites(tools, e, services, res)[k].key != SystemKey
  {
    var ws := PresenceServiceWrites(tools, e, services, res);
    forall k | 0 <= k < |ws|
      ensures ws[k].key != SystemKey
    {
      assert ws[k] in ws;
      var i :| 0 <= i < |services| && |ServiceEvidence(e, services[i])| > 0 &&
               ws[k] == PresenceEntry(tools, e, services, res, i);
    }
  }

  /** The tool flag of a presence rule is monotone along the service list:
      once the dependencies of some service have matched a token, every
      later service with evidence is reported with the flag set. */
  lemma PresenceFlagMonotone(tools: seq<string>, e: Evidence, sys: System, i: int, j: int)
    requires 0 <= i <= j < |sys.services| && |ServiceEvidence(e, sys.services[j])| > 0
    requires AnyMatch(tools, sys.services[i].dependencies)
    ensures Entry(sys.services[j].name, PresenceVerdict(true, Found(ServiceEvidence(e, sys.services[j]))))
              in PresenceRule(tools, e, sys)
  {
    assert ToolSeen(tools, sys.services, j);
  }
}
