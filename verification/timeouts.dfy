/** The timeout rule `hasTimeouts`, the one compound predicate of the rule
    set. */
module Timeouts {
  import opened Wrappers
  import opened Text
  import opened Dicts
  import opened Metamodel
  import opened ToolRules

  predicate MentionsKeyword(m: string) {
    ContainsWord(m, "timeout") || ContainsWord(m, "fallback")
  }

  /** `hasTOMethods` and `hasFBMethods` after the method loop. */
  datatype MethodFlags = MethodFlags(timeout: bool, fallback: bool)

  /** The method loop breaks after the first method that mentions "timeout"
      or "fallback", so both flags describe that one method only. */
  function ScanMethods(methods: seq<string>): (r: MethodFlags)
    ensures (r.timeout || r.fallback) <==> exists i :: 0 <= i < |methods| && MentionsKeyword(methods[i])
    ensures (r.timeout || r.fallback) ==>
              exists i :: (0 <= i < |methods| && (forall j :: 0 <= j < i ==> !MentionsKeyword(methods[j])) &&
                           r == MethodFlags(ContainsWord(methods[i], "timeout"), ContainsWord(methods[i], "fallback")))
  {
    if methods == [] then MethodFlags(false, false)
    else if MentionsKeyword(methods[0]) then
      MethodFlags(ContainsWord(methods[0], "timeout"), ContainsWord(methods[0], "fallback"))
    else
      var r := ScanMethods(methods[1..]);
      assert forall i :: 1 <= i < |methods| ==> methods[1..][i - 1] == methods[i];
      r
  }

  /** A fallback method seen first hides a later timeout method: a method
      mentions "timeout", yet `hasTOMethods` stays false. */
  lemma FirstKeywordOnly()
    ensures AnyContainsWord(["fallback", "timeout"], "timeout")
    ensures ScanMethods(["fallback", "timeout"]) == MethodFlags(false, true)
  {
    var m := ["fallback", "timeout"];
    assert Lower("timeout") == "timeout";
    assert ContainsWord(m[1], "timeout");
    assert Lower("fallback") == "fallback";
    assert IsSubstring("fallback", "fallback");
    assert !IsSubstring("timeout", "fallback") by {
      FirstCharMissing("timeout", "fallback");
    }
    assert MentionsKeyword(m[0]);
  }

  /** The payloads of `hasTimeouts`.  `hasCircuitBreakerTool` is always
      written as False, whatever the tool scan found. */
  datatype TimeoutVerdict =
    | ServiceTimeout(hasCircuitBreakerTool: bool, hasTOMethods: bool, hasTOImports: bool, hasFBMethods: bool)
    | SystemTimeout(hasCircuitBreaker: bool)

  function ServicePayload(s: Service): TimeoutVerdict {
    var m := ScanMethods(s.methods);
    ServiceTimeout(false, m.timeout, ScanFor(s.imports, "timeout"), m.fallback)
  }

  /** Service `i` is written when `res` holds the hits before the list:
      (no circuit-breaker token found up to it and a fallback method) or a
      timeout import or a timeout method. */
  ghost predicate TimeoutWritten(tools: seq<string>, services: seq<Service>, res: seq<string>, i: int)
    requires 0 <= i < |services|
  {
    var s := services[i];
    var m := ScanMethods(s.methods);
    (!(|res| > 0 || ToolSeen(tools, services, i)) && m.fallback) ||
      AnyContainsWord(s.imports, "timeout") || m.timeout
  }

  /** Dropping the first service moves its hits into `res`. */
  lemma TimeoutWrittenShift(tools: seq<string>, services: seq<Service>, res: seq<string>)
    requires |services| > 0
    ensures var res' := res + Hits(tools, services[0].dependencies);
            var m := ScanMethods(services[0].methods);
            TimeoutWritten(tools, services, res, 0) <==>
              (|res'| == 0 && m.fallback) || ScanFor(services[0].imports, "timeout") || m.timeout
    ensures forall i :: 1 <= i < |services| ==>
              (TimeoutWritten(tools, services, res, i) <==>
               TimeoutWritten(tools, services[1..], res + Hits(tools, services[0].dependencies), i - 1))
  {
    ToolSeenShift(tools, services);
    assert forall i :: 1 <= i < |services| ==> services[1..][i - 1] == services[i];
  }

  /** The write for one service, once `res'` holds the hits up to it. */
  function TimeoutStep(s: Service, res': seq<string>): seq<Entry<TimeoutVerdict>> {
    var m := ScanMethods(s.methods);
    if (|res'| == 0 && m.fallback) || (ScanFor(s.imports, "timeout") || m.timeout)
    then [Entry(s.name, ServicePayload(s))] else []
  }

  /** Every written later service stays written once the first service's
      write is put in front, and the first is written when it qualifies. */
  lemma TimeoutStepCovers(tools: seq<string>, services: seq<Service>, res: seq<string>,
                          rest: seq<Entry<TimeoutVerdict>>)
    requires |services| > 0
    requires var res' := res + Hits(tools, services[0].dependencies);
             forall i :: 0 <= i < |services[1..]| && TimeoutWritten(tools, services[1..], res', i) ==>
               Entry(services[1..][i].name, ServicePayload(services[1..][i])) in rest
    ensures var ws := TimeoutStep(services[0], res + Hits(tools, services[0].dependencies)) + rest;
            forall i :: 0 <= i < |services| && TimeoutWritten(tools, services, res, i) ==>
              Entry(services[i].name, ServicePayload(services[i])) in ws
  {
    var res' := res + Hits(tools, services[0].dependencies);
    var ws := TimeoutStep(services[0], res') + rest;
    TimeoutWrittenShift(tools, services, res);
    forall i | 0 <= i < |services| && TimeoutWritten(tools, services, res, i)
      ensures Entry(services[i].name, ServicePayload(services[i])) in ws
    {
      if i > 0 {
        assert services[1..][i - 1] == services[i];
        assert TimeoutWritten(tools, services[1..], res', i - 1);
      }
    }
  }

  /** Putting the first service's write in front writes only qualifying
      services. */
  lemma TimeoutStepOnly(tools: seq<string>, services: seq<Service>, res: seq<string>,
                        rest: seq<Entry<TimeoutVerdict>>)
    requires |services| > 0
    requires var res' := res + Hits(tools, services[0].dependencies);
             forall w :: w in rest ==>
               exists i :: 0 <= i < |services[1..]| && TimeoutWritten(tools, services[1..], res', i) &&
                           w == Entry(services[1..][i].name, ServicePayload(services[1..][i]))
    ensures var ws := TimeoutStep(services[0], res + Hits(tools, services[0].dependencies)) + rest;
            forall w :: w in ws ==>
              exists i :: 0 <= i < |services| && TimeoutWritten(tools, services, res, i) &&
                          w == Entry(services[i].name, ServicePayload(services[i]))
  {
    var res' := res + Hits(tools, services[0].dependencies);
    var here := TimeoutStep(services[0], res');
    var ws := here + rest;
    TimeoutWrittenShift(tools, services, res);
    forall w | w in ws
      ensures exists i :: 0 <= i < |services| && TimeoutWritten(tools, services, res, i) &&
                          w == Entry(services[i].name, ServicePayload(services[i]))
    {
      if w in here {
        assert TimeoutWritten(tools, services, res, 0);
      } else {
        assert w in rest;
        var i :| 0 <= i < |services[1..]| && TimeoutWritten(tools, services[1..], res', i) &&
                 w == Entry(services[1..][i].name, ServicePayload(services[1..][i]));
        assert services[1..][i] == services[i + 1];
        assert TimeoutWritten(tools, services, res, i + 1);
      }
    }
  }

  /** The service loop of `hasTimeouts`: a service is written iff
      (no circuit-breaker token found so far and a fallback method) or a
      timeout import or a timeout method. */
  function TimeoutServiceWrites(tools: seq<string>, services: seq<Service>, res: seq<string>)
    : (ws: seq<Entry<TimeoutVerdict>>)
    ensures forall i :: 0 <= i < |services| && TimeoutWritten(tools, services, res, i) ==>
              Entry(services[i].name, ServicePayload(services[i])) in ws
    ensures forall w :: w in ws ==>
              exists i :: 0 <= i < |services| && TimeoutWritten(tools, services, res, i) &&
                          w == Entry(services[i].name, ServicePayload(services[i]))
    ensures forall w :: w in ws ==> w.value.ServiceTimeout? && !w.value.hasCircuitBreakerTool
    decreases |services|
  {
    if services == [] then []
    else
      var res' := res + Hits(tools, services[0].dependencies);
      var rest := TimeoutServiceWrites(tools, services[1..], res');
      TimeoutStepCovers(tools, services, res, rest);
      TimeoutStepOnly(tools, services, res, rest);
      TimeoutStep(services[0], res') + rest
  }

  /** The system loop of `hasTimeouts`: one assignment per system
      dependency; the last one, which the dictionary keeps, records whether
      any system dependency matches a circuit-breaker token. */
  function TimeoutSystemWrites(tools: seq<string>, deps: seq<string>, sysres: seq<string>)
    : (ws: seq<Entry<TimeoutVerdict>>)
    ensures |ws| == |deps|
    ensures forall w :: w in ws ==> w.key == SystemKey && w.value.SystemTimeout?
    ensures |ws| > 0 ==> ws[|ws| - 1].value == SystemTimeout(|sysres| > 0 || AnyMatch(tools, deps))
  {
    if deps == [] then []
    else
      var sysres' := sysres + TokenHits(tools, deps[0]);
      var rest := TimeoutSystemWrites(tools, deps[1..], sysres');
      assert AnyMatch(tools, deps) <==> Matches(tools, deps[0]) || AnyMatch(tools, deps[1..]);
      [Entry(SystemKey, SystemTimeout(|sysres'| != 0))] + rest
  }

  /** `hasTimeouts`: the service loop, then the system loop. */
  function TimeoutRule(tools: seq<string>, sys: System): seq<Entry<TimeoutVerdict>> {
    TimeoutServiceWrites(tools, sys.services, []) + TimeoutSystemWrites(tools, sys.dependencies, [])
  }

  /** The system verdict exists iff the system has dependencies, and then
      says whether one of them matches a circuit-breaker token. */
  lemma TimeoutSystemVerdict(tools: seq<string>, sys: System)
    requires forall i :: 0 <= i < |sys.services| ==> sys.services[i].name != SystemKey
    ensures Get(Apply([], TimeoutRule(tools, sys)), SystemKey) ==
              if |sys.dependencies| > 0 then Some(SystemTimeout(AnyMatch(tools, sys.dependencies))) else None
  {
    var svc := TimeoutServiceWrites(tools, sys.services, []);
    var top := TimeoutSystemWrites(tools, sys.dependencies, []);
    TimeoutServiceKeys(tools, sys.services);
    assert forall i :: 0 <= i < |top| ==> top[i] in top;
    LastWriteOfTail(svc, top, SystemKey);
    ApplyGet([], svc + top, SystemKey);
  }

  /** No service write of the timeout rule uses the system's key. */
  lemma TimeoutServiceKeys(tools: seq<string>, services: seq<Service>)
    requires forall i :: 0 <= i < |services| ==> services[i].name != SystemKey
    ensures forall k :: 0 <= k < |TimeoutServiceWrites(tools, services, [])| ==> TimeoutServiceWrites(tools, services, [])[k].key != SystemKey
  {
    var ws := TimeoutServiceWrites(tools, services, []);
    forall k | 0 <= k < |ws|
      ensures ws[k].key != SystemKey
    {
      assert ws[k] in ws;
      var i :| 0 <= i < |services| && TimeoutWritten(tools, services, [], i) &&
               ws[k] == Entry(services[i].name, ServicePayload(services[i]));
    }
  }
}
