# Antipattern detector — a Dafny model

This project models the detection engine of a microservice antipattern
detector (`Detector/main.py`). The detector reads a *metamodel* of a
microservice system: the services with their sizes, dependencies, imports,
annotations, methods, configuration and container files and data sources,
plus the system-wide dependencies, configuration files, URLs and folders.
It also reads a set of *lookup tables* of tool names. From these it
computes aggregate statistics and sixteen verdict dictionaries, one per
antipattern. The rules are:

- nano and mega services;
- hard-coded endpoints and manual configuration;
- no API gateway, local logging, insufficient monitoring, no CI/CD and no
  health check;
- multiple instances per host;
- wrong cuts and circular dependencies;
- shared libraries and shared persistence;
- timeouts;
- no API versioning.

The model also covers the pair de-duplication the report applies to the
relation rules before printing.

Modules:

- `Wrappers`: `Option` and `Result`.
- `Text`: Python's substring test `in`, ASCII `lower()` and `", ".join`.
- `Dicts`: an insertion-ordered Python dictionary as a sequence of entries.
  A rule is modelled by its *write log*: the `self._hasX[key] = ...`
  assignments in program order. The rule's dictionary is that log applied
  to an empty dictionary, and `Dicts.ApplyGet` says that a key's value is
  its last write.
- `Metamodel`: services, the system, the tool tables, the run's errors and
  the name lookup.
- `Stats`: `buildVars`.
- `SizeRules`: nano and mega.
- `ToolRules`: the absence rules (gateway, logging, monitoring, CI/CD,
  health check) and the presence rules (hard-coded endpoints, manual
  configuration). Each rule's hit list `res` is created once and never
  reset. The ghost predicate `ToolRules.ToolSeen(tools, services, i)` is
  the reference: some service up to and including `i` has a dependency
  that a token matches.
- `Timeouts`: `hasTimeouts`.
- `RelationRules`: shared dependencies, shared persistence, circular
  dependencies and wrong cuts.
- `DeploymentRules`: multiple instances per host and API versioning. File
  contents are a `map<string, string>`, and a path missing from the map is
  a file `open` fails on.
- `Dedup`: the printing loops that skip a pair of services already printed
  in either orientation.
- `Detector`: one run (`Run`) producing a `Report`, plus end-to-end lemmas.

## Model

| member | source | states |
|---|---|---|
| `Text.IsSubstringIff` | Detector/main.py:121 | Python's `tool in dependency` holds iff the token occurs at some position of the dependency string |
| `Text.Lower` | Detector/main.py:332 | `.lower()` keeps the length, maps each upper-case ASCII letter to the letter 32 code points above it, and changes no other character, so none is left upper-case |
| `Text.Join` | Detector/main.py:127 | `", ".join(xs)` is empty for no items, starts with the first item, and is as long as the items plus one separator between each two |
| `Text.JoinSnoc` | Detector/main.py:139 | joining one more item appends the separator and that item, so the items appear in order with the separator between each two |
| `Text.JoinExample` | Detector/main.py:161 | joining "a", "b" and "c" with ", " gives "a, b, c" |
| `Dicts.Put` | Detector/main.py:84-89 | assigning `d[k] = v` makes `k` map to `v`, leaves every other key's value alone, and appends a new key at the end |
| `Dicts.PutUnique` | Detector/main.py:136-140 | assigning to a dictionary whose keys are distinct leaves them distinct, even when the key is already present |
| `Dicts.PutKeepsOrder` | Detector/main.py:136-140 | assigning to a key already present keeps every key in its place: the insertion order is unchanged |
| `Dicts.ApplyGet` | Detector/main.py:465-467 | after a sequence of assignments, a key's value is the one of its last assignment, and a key never assigned is absent |
| `Dicts.ApplyHasKey` | Detector/main.py:204-206 | a key is in the dictionary iff some assignment wrote it |
| `Metamodel.Find` | Detector/main.py:388 | the name lookup returns the first service with that name, and nothing iff no service has it |
| `Stats.HasCiCdFolder` | Detector/main.py:64-71 | `hasCiCdFolders` holds iff some CI/CD-folder table entry is exactly one of the system folders |
| `Stats.TotalsAdditive` | Detector/main.py:55-57 | the line and file totals add up over any split of the service list |
| `Stats.BuildVars` | Detector/main.py:50-71 | an empty service list fails with a division by zero, and every non-empty one succeeds; then the count is the list length, the totals are the sums, each average times the count is its total, and the CI/CD-folder flag is the exact-match test |
| `SizeRules.SizeWrites` | Detector/main.py:75-107 | a service is written iff both its line count and its file count are beyond the floored threshold times the average (`<` for nano, `>` for mega), with its measured and required values |
| `SizeRules.RequiredIsQuotient` | Detector/main.py:77-78 | for exact averages, floor(0.5·T/n) = T div 2n and floor(1.5·T/n) = 3T div 2n |
| `SizeRules.NanoMegaExclusive` | Detector/main.py:80-101 | no service meets both the nano and the mega conditions |
| `SizeRules.NanoMegaDisjoint` | Detector/main.py:84-102 | with unique service names, no key is in both the nano and the mega dictionaries |
| `ToolRules.ToolSeenShift` | Detector/main.py:186-190 | the accumulated hit status of the services after the first is the first service's hits or the later services' own accumulated status |
| `ToolRules.Hits` | Detector/main.py:187-190 | the dependency scan appends nothing iff no token is a substring of any dependency, and appends only table tokens |
| `ToolRules.AbsentServices` | Detector/main.py:186-195 | the services an absence rule writes form a prefix of the service list, and service `i` is in it iff no token matched a dependency of it or of an earlier service |
| `ToolRules.SystemAbsentWrites` | Detector/main.py:198-206 | the system assignment happens inside the dependency loop: there is a write iff the system has dependencies and the first one matches no token |
| `ToolRules.AbsentNames` | Detector/main.py:192-195 | a name is among the written services iff some service of that name has no tool hit up to it |
| `ToolRules.NoToolKeys` | Detector/main.py:178-195 | the service keys an absence rule writes are exactly the names of services with no tool hit up to them |
| `ToolRules.AbsenceServiceVerdicts` | Detector/main.py:178-206 | a service key is in a gateway, logging or monitoring dictionary iff some service of that name has no tool hit in its own or an earlier service's dependencies |
| `ToolRules.AbsenceSystemVerdict` | Detector/main.py:197-206 | the system key is present iff the system has dependencies and the first one matches no token |
| `ToolRules.AbsenceVerdictsFalse` | Detector/main.py:192-206 | every verdict of an absence rule records the tool as absent |
| `ToolRules.CiCdRuleVerdicts` | Detector/main.py:296-312 | `hasCiCd` flags exactly the names of services with no tool hit up to them, and has no system verdict |
| `ToolRules.ScanFor` | Detector/main.py:331-339 | the import and annotation scans find "health" iff some lower-cased entry contains it |
| `ToolRules.HealthEntries` | Detector/main.py:342-347 | each written service is keyed by its name and records a false tool flag and whether some import and some annotation contain "health" in lower case |
| `ToolRules.HealthCheckServiceVerdict` | Detector/main.py:324-347 | with unique names, a service's health-check entry, recording whether an import and whether an annotation mentions "health", is written iff it has no tool hit up to it |
| `ToolRules.PresenceServiceWrites` | Detector/main.py:118-128 | a service is written iff its URL (resp. configuration-file) list is non-empty, with that list joined by ", " and the tool flag of the accumulated hits |
| `ToolRules.PresenceSystemWrites` | Detector/main.py:131-140 | the system is written once per system dependency when it has evidence, and the last write records whether any system dependency matched |
| `ToolRules.PresenceSystemVerdict` | Detector/main.py:130-140 | the system entry exists iff the system has dependencies and evidence, and records whether any system dependency matches a token, with the joined evidence |
| `ToolRules.PresenceFlagMonotone` | Detector/main.py:118-128 | once a service's dependencies matched a token, every later service with evidence is reported with the tool flag set |
| `Timeouts.ScanMethods` | Detector/main.py:441-448 | the method scan finds a keyword iff some method mentions "timeout" or "fallback", and then both flags describe the first such method only |
| `Timeouts.FirstKeywordOnly` | Detector/main.py:441-448 | a fallback method met first hides a later timeout method: the timeout flag stays false |
| `Timeouts.TimeoutServiceWrites` | Detector/main.py:428-457 | a service is written iff (no circuit-breaker hit so far and a fallback method) or a timeout import or a timeout method, and its circuit-breaker flag is always false |
| `Timeouts.TimeoutSystemWrites` | Detector/main.py:459-467 | the system verdict is written once per system dependency; the last says whether any system dependency matches a circuit-breaker token |
| `Timeouts.TimeoutSystemVerdict` | Detector/main.py:459-467 | the system entry exists iff the system has dependencies, and then records whether one matches a circuit-breaker token |
| `RelationRules.Overlap` | Detector/main.py:407 | an item is in the overlap iff it is in both lists |
| `RelationRules.OverlapMultiplicity` | Detector/main.py:407 | the overlap keeps each occurrence in A of an item of B, and nothing else |
| `RelationRules.OverlapAppend` | Detector/main.py:480 | the overlap keeps A's order: it distributes over concatenation of A |
| `RelationRules.OverlapSymmetric` | Detector/main.py:407 | A overlaps B iff B overlaps A, with the same items |
| `RelationRules.SharedLinks` | Detector/main.py:402-414 | A records exactly the other-named services whose list overlaps A's, each with the overlap |
| `RelationRules.SharedLinksTo` | Detector/main.py:397-414 | with unique names, A records B iff they are different services whose lists overlap |
| `RelationRules.SharedSymmetric` | Detector/main.py:470-487 | with unique names, no service records itself and A records B iff B records A |
| `RelationRules.Reciprocal` | Detector/main.py:388-393 | B's imports produce a record iff one of them contains A's name |
| `RelationRules.CircularForName` | Detector/main.py:386-393 | a name is recorded for A iff it is not A's, an import of A contains it, and the service of that name has an import containing A's name |
| `RelationRules.CircularLinks` | Detector/main.py:381-393 | A's circular records are exactly the links to names B with B ≠ A, A importing B and B importing A |
| `RelationRules.CircularSymmetric` | Detector/main.py:380-393 | with unique names, A→B is recorded iff B→A is, and never A→A |
| `RelationRules.Words` | Detector/main.py:371 | `rsplit()` yields non-empty words free of white space, and no word at all iff the line is all white space |
| `RelationRules.WordLengthPrefix` | Detector/main.py:371 | a word that ends at a space, or at the end of a string followed by a space, is not lengthened by what follows |
| `RelationRules.WordsSplit` | Detector/main.py:371 | no word runs across a white-space character: the words of `a + c + b` are the words of `a` followed by the words of `b` |
| `RelationRules.TwoWords` | Detector/main.py:371 | two space-free words with one white-space character between them split into exactly those two words, in order |
| `RelationRules.WordsKeepLetters` | Detector/main.py:371 | run together, the words are exactly the line's non-white-space characters in order |
| `RelationRules.NeverAStringInLists` | Detector/main.py:373 | as written, a service's wrong-cut list is empty for any imports and any table |
| `RelationRules.WrongCutsAsWrittenEmpty` | Detector/main.py:362-377 | as written, every wrong-cut list of every service is empty |
| `RelationRules.MatchCount` | Detector/main.py:366-367 | the number of A's imports containing a name is positive iff some import contains it, and at most the number of imports |
| `RelationRules.WrongCutForName` | Detector/main.py:366-377 | corrected, for one name B: every record is the link A → B, and there is one per import of A that contains B when A and B sit on a language seam (B ≠ A, A's language in the table, B's not), none otherwise |
| `RelationRules.WrongCutLinks` | Detector/main.py:362-377 | corrected: every record of A links A to a name B ≠ A that A imports, with A's language in the table and B's not; every such name has a record |
| `RelationRules.WrongCutPerImport` | Detector/main.py:366-377 | a Java service importing a COBOL service through two imports gets two identical records, one per import |
| `RelationRules.WrongCutMissedAsWritten` | Detector/main.py:373 | a Java service importing a COBOL service is a wrong cut under the corrected rule, yet the written rule records nothing |
| `DeploymentRules.NoDockerEntries` | Detector/main.py:284-289 | the service loop writes exactly the services without container build files |
| `DeploymentRules.HostWrites` | Detector/main.py:279-293 | nothing is written iff there are no system configuration files; otherwise the last write is the system verdict saying whether some path contains "docker-compose.yml" |
| `DeploymentRules.MultipleInstancesVerdicts` | Detector/main.py:277-293 | a service is flagged iff the system has configuration files and the service has no container build file; the system entry exists iff there are configuration files and records the compose test |
| `DeploymentRules.FileVersionWrites` | Detector/main.py:493-498 | reading a service's files fails iff some path cannot be opened; otherwise the service is written iff some file lacks "apiVersion" |
| `DeploymentRules.ServiceVersionWrites` | Detector/main.py:492-498 | the service loop succeeds iff every service file can be opened, and then writes exactly the services with a file lacking "apiVersion" |
| `DeploymentRules.SystemVersioned` | Detector/main.py:500-504 | the system loop stops at the first file containing "apiVersion"; it fails iff it reaches an unreadable file before any such file, naming that file, and otherwise answers whether one exists |
| `DeploymentRules.ApiVersioningRule` | Detector/main.py:490-508 | the rule succeeds iff every service configuration file can be opened and the system loop does not reach an unreadable file before one containing "apiVersion"; on success the system verdict is written last |
| `DeploymentRules.ApiVersioningServiceVerdict` | Detector/main.py:492-498 | a service key is present iff some service of that name has a configuration file lacking "apiVersion" |
| `DeploymentRules.ApiVersioningSystemVerdict` | Detector/main.py:500-508 | the system entry is always present and says whether some system configuration file contains "apiVersion" |
| `Dedup.Flatten` | Detector/main.py:639-640 | iterating over the dictionary's lists visits every record of every list and nothing else, and is empty iff every list is |
| `Dedup.FlattenAppend` | Detector/main.py:639-640 | the visit keeps the lists' order: the records of earlier lists come before those of later ones |
| `Dedup.Printed` | Detector/main.py:639-647 | printing prints only records of the input, never one whose pair was already marked |
| `Dedup.PrintedDistinct` | Detector/main.py:641-647 | no two printed records name the same two services in either orientation |
| `Dedup.PrintedCovers` | Detector/main.py:639-647 | every record is either already marked or shares its pair of services with a printed record |
| `Dedup.PrintedFirstSeen` | Detector/main.py:641-647 | each printed record is the first record of its pair of services, in that record's orientation |
| `Dedup.PrintedOnce` | Detector/main.py:664-670 | starting with no marks, every record's pair of services is printed exactly once |
| `Detector.Run` | Detector/main.py:510-526 | a run fails with a division by zero for a system without services, and with a missing file when a service's configuration file cannot be opened or the system loop reaches an unreadable file before one containing "apiVersion"; it succeeds iff there are services, every service configuration file can be opened and the system loop meets no unreadable file before one containing "apiVersion"; a successful run has consistent statistics and a system API-versioning verdict. This holds for the model's name lookup (see `Metamodel.Find` under Left out): the circular-dependency rule as written fails as soon as its guard holds |
| `Detector.NanoMegaReport` | Detector/main.py:512-513 | a run over services with unique names and readable files succeeds, and no service is in both its nano and its mega dictionaries |
| `Detector.CircularDictIsLog` | Detector/main.py:383-384 | with unique names, the circular dictionary has one entry per service, in service order |
| `Detector.CircularLinkVisited` | Detector/main.py:664-666 | with unique names, every recorded circular pair is among the records the printing loop visits |
| `Detector.CircularPrintedOnce` | Detector/main.py:664-670 | with unique names, every circular pair of services is printed exactly once |
| `Detector.ScenarioVars` | Detector/main.py:50-60 | three services of 100 lines and 5 files plus one of 10000 lines and 500 files give totals 10300 and 515, nano bounds 1287 and 64, and mega bounds 3862 and 193 |
| `Detector.NanoScenario` | Detector/main.py:75-89 | in that system the three small services, and only they, are nano services |
| `Detector.MegaScenario` | Detector/main.py:93-107 | in that system the large service is the only mega service |

## Left out

- Repository import (cloning and clean-up of a git working copy) is not part of this model. It is file-system and network plumbing.
- Loading the metamodel from JSON, argument parsing and the `__main__` driver (Detector/main.py:698-712) are left out. So is reading the tool tables from `../tools/*.txt`. The metamodel and the tables are parameters; each table is its lines with trailing white space already stripped.
- The console formatting of `printResults` is left out, except for the pair de-duplication. That includes the `self._hasMultipleInstancesPerHost["system"]` lookup at Detector/main.py:611, which fails for a system without configuration files.
- The class-level dictionaries (Detector/main.py:22-41) persist across instances, and `buildVars` adds to them with `setdefault`. The model is one fresh run that returns its dictionaries.
- The `int(...)` conversions of `locs` and `nb_files` are left out: the counts are natural numbers.
- Stats.BuildVars: averages are exact rationals, not IEEE doubles. Python's rounding could differ from the exact floor for very large totals.
- Text.Lower: ASCII letters only. Python's `.lower()` also folds non-ASCII letters.
- Metamodel.Find: the circular-dependency rule as written indexes `self._metamodel["microservices"][name]` (Detector/main.py:388) and keys a dictionary by a service record (Detector/main.py:390). Either would fail as soon as the guard holds. The model follows the stated rule and finds B by name, taking the first service of that name.
- RelationRules.WrongCutLinks: the corrected rule finds B by name too, instead of `service[name]` (Detector/main.py:373) and the record-keyed append (Detector/main.py:374).
- DeploymentRules.ApiVersioningRule: an unreadable file is a failed run, as in the code, which does not catch it. File contents are a map rather than file reads.
- ToolRules.HealthCheckServiceVerdict: stated for unique service names. With repeated names a later service's entry overwrites an earlier one's flags.
- Detector.Run: the report's wrong-cut dictionary is the one the corrected rule fills (`RelationRules.WrongCutsRule`), not the one `hasWrongCuts` fills as written, which is always empty (see Findings and `RelationRules.WrongCutsAsWrittenEmpty`).
- RelationRules.Words: splits on space, tab, line feed, carriage return, vertical tab and form feed only. Python's `str.rsplit()` also splits on `\x1c`-`\x1f`, `\x85`, `\xa0` and the other Unicode white-space characters.
- ToolRules.AbsenceSystemVerdict, ToolRules.PresenceSystemVerdict and Timeouts.TimeoutSystemVerdict: stated for systems with no service named "system". The code keys service and system verdicts in the same dictionary (Detector/main.py:193 and :204), so such a service's entry and the system entry collide; the model writes them into one dictionary the same way but these three lemmas state nothing about that case. `DeploymentRules.MultipleInstancesVerdicts` and `DeploymentRules.ApiVersioningSystemVerdict` hold for every system, because there the system verdict is written after every service verdict.

## Findings

| source | as written | input that shows it | evidently intended | confidence | as-written member | corrected member |
|---|---|---|---|---|---|---|
| Detector/main.py:371-373 | `languages = [l.rsplit() for l in languages]` makes a list of lists. `service["language"] in languages` compares a string with lists and is never true, so every wrong-cut list stays empty. | Services `orders` (java, importing `billing.client`) and `billing` (cobol), with the language table `["java"]`: the written rule records nothing. | Test the language as a string against the table's language names (its words). Then a service whose language is in the table, importing one whose language is not, records a wrong cut (`orders → billing`). | not executed | `RelationRules.WrongCutMissedAsWritten` | `RelationRules.WrongCutLinks` |
