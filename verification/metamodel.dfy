/** The metamodel document the detector reads, and the lookup tables. */
module Metamodel {
  import opened Wrappers

  /** One entry of `system.microservices`; the nested JSON objects
      (`config`, `deployment`, `code`, `code.databases`) are flattened into
      the fields they contribute. */
  datatype Service = Service(
    name: string,
    locs: nat,
    nbFiles: nat,
    language: string,
    dependencies: seq<string>,
    configFiles: seq<string>,   // config.config_files
    dockerFiles: seq<string>,   // deployment.docker_files
    http: seq<string>,          // code.http
    imports: seq<string>,       // code.imports
    annotations: seq<string>,   // code.annotations
    methods: seq<string>,       // code.methods
    datasources: seq<string>)   // code.databases.datasources

  /** The `system` object of the metamodel. */
  datatype System = System(
    services: seq<Service>,
    dependencies: seq<string>,
    configFiles: seq<string>,
    http: seq<string>,
    folders: seq<string>)

  /** The lookup tables under `tools/`, one token per line with trailing
      white space already stripped. */
  datatype Tables = Tables(
    serviceDiscovery: seq<string>,
    configuration: seq<string>,
    gateway: seq<string>,
    logging: seq<string>,
    monitoring: seq<string>,
    cicd: seq<string>,
    cicdFolders: seq<string>,
    healthcheck: seq<string>,
    circuitBreaker: seq<string>,
    programming: seq<string>)

  /** The failures that end a run. */
  datatype Error =
    | DivisionByZero            // the averages of a system without services
    | FileNotFound(path: string) // `open(conf_file)` of a file that cannot be read

  /** The key of the system-wide verdict in every verdict dictionary. */
  const SystemKey: string := "system"

  function Names(services: seq<Service>): (ns: seq<string>)
    ensures |ns| == |services|
    ensures forall i :: 0 <= i < |services| ==> ns[i] == services[i].name
  {
    seq(|services|, i requires 0 <= i < |services| => services[i].name)
  }

  /** No two services share a name. */
  predicate UniqueNames(services: seq<Service>) {
    forall i, j :: 0 <= i < j < |services| ==> services[i].name != services[j].name
  }

  /** Name-keyed access to a service: the first service with that name. */
  function Find(services: seq<Service>, name: string): (r: Option<Service>)
    ensures r.None? <==> forall i :: 0 <= i < |services| ==> services[i].name != name
    ensures r.Some? ==> exists i :: 0 <= i < |services| && services[i] == r.value &&
                                    r.value.name == name &&
                                    forall j :: 0 <= j < i ==> services[j].name != name
  {
    if services == [] then None
    else if services[0].name == name then Some(services[0])
    else
      var r := Find(services[1..], name);
      assert r.Some? ==> exists i :: 1 <= i < |services| && services[i] == r.value &&
                                     forall j :: 0 <= j < i ==> services[j].name != name;
      r
  }

  /** With unique names, looking a service up by its own name finds it. */
  lemma FindByOwnName(services: seq<Service>, i: int)
    requires UniqueNames(services) && 0 <= i < |services|
    ensures Find(services, services[i].name) == Some(services[i])
  {
  }
}
