/** The rules that relate two services: `hasSharedDependencies`,
    `hasSharedPersistence`, `hasCircularDependencies` and `hasWrongCuts`.
    Each assigns, per service, the list of `{"from", "to", ...}` records
    found for it. */
module RelationRules {
  import opened Wrappers
  import opened Text
  import opened Dicts
  import opened Metamodel

  /** A `{"from": ..., "to": ..., "shared": ...}` record; the circular and
      wrong-cut records carry no payload. */
  datatype Link<P> = Link(from: string, to: string, payload: P)

  // ---------------------------------------------------------------------
  // Shared dependencies and shared persistence

  /** `[val for val in a if val in b]`: the elements of `a`, in `a`'s order
      and with `a`'s multiplicity, that occur in `b`. */
  function Overlap(a: seq<string>, b: seq<string>): (r: seq<string>)
    ensures forall x :: x in r <==> x in a && x in b
  {
    if a == [] then []
    else (if a[0] in b then [a[0]] else []) + Overlap(a[1..], b)
  }

  /** The overlap keeps every occurrence in `a` of an element of `b`, and
      nothing else. */
  lemma {:induction false} OverlapMultiplicity(a: seq<string>, b: seq<string>, x: string)
    ensures multiset(Overlap(a, b))[x] == if x in b then multiset(a)[x] else 0
  {
    if a != [] {
      OverlapMultiplicity(a[1..], b, x);
      assert a == [a[0]] + a[1..];
    }
  }

  /** The overlap keeps the order of the first list: it distributes over
      concatenation. */
  lemma {:induction false} OverlapAppend(a1: seq<string>, a2: seq<string>, b: seq<string>)
    ensures Overlap(a1 + a2, b) == Overlap(a1, b) + Overlap(a2, b)
  {
    if a1 == [] {
      assert a1 + a2 == a2;
    } else {
      assert (a1 + a2)[1..] == a1[1..] + a2;
      OverlapAppend(a1[1..], a2, b);
    }
  }

  /** One list overlaps the other iff the other overlaps the one, and the
      two overlaps hold the same elements. */
  lemma OverlapSymmetric(a: seq<string>, b: seq<string>)
    ensures Overlap(a, b) == [] <==> Overlap(b, a) == []
    ensures forall x :: x in Overlap(a, b) <==> x in Overlap(b, a)
  {
    if Overlap(a, b) != [] {
      assert Overlap(a, b)[0] in Overlap(b, a);
    }
    if Overlap(b, a) != [] {
      assert Overlap(b, a)[0] in Overlap(a, b);
    }
  }

  /** Which list a sharing rule compares. */
  datatype Shared = Dependencies | Datasources

  function Items(k: Shared, s: Service): seq<string> {
    match k
    case Dependencies => s.dependencies
    case Datasources => s.datasources
  }

  /** Service `a` records service `b`: a different name and an overlap. */
  predicate SharesWith(k: Shared, a: Service, b: Service) {
    b.name != a.name && Overlap(Items(k, a), Items(k, b)) != []
  }

  function SharedLink(k: Shared, a: Service, b: Service): Link<seq<string>> {
    Link(a.name, b.name, Overlap(Items(k, a), Items(k, b)))
  }

  /** The inner loop for service `a`: every service of `others` whose name
      differs from `a`'s and whose list overlaps `a`'s gives one record. */
  function SharedLinks(k: Shared, a: Service, others: seq<Service>): (ls: seq<Link<seq<string>>>)
    ensures forall l :: l in ls ==>
              exists j :: 0 <= j < |others| && SharesWith(k, a, others[j]) && l == SharedLink(k, a, others[j])
    ensures forall j :: 0 <= j < |others| && SharesWith(k, a, others[j]) ==> SharedLink(k, a, others[j]) in ls
  {
    if others == [] then []
    else
      var b := others[0];
      var rest := SharedLinks(k, a, others[1..]);
      assert forall j :: 1 <= j < |others| ==> others[1..][j - 1] == others[j];
      (if SharesWith(k, a, b) then [SharedLink(k, a, b)] else []) + rest
  }

  /** The outer loop: `self._hasSharedX[name] = [...]` for every service. */
  function SharedWrites(k: Shared, services: seq<Service>, all: seq<Service>)
    : (ws: seq<Entry<seq<Link<seq<string>>>>>)
    ensures |ws| == |services|
    ensures forall i :: 0 <= i < |services| ==>
              ws[i] == Entry(services[i].name, SharedLinks(k, services[i], all))
  {
    seq(|services|, i requires 0 <= i < |services| => Entry(services[i].name, SharedLinks(k, services[i], all)))
  }

  /** `hasSharedDependencies` (k = Dependencies) and `hasSharedPersistence`
      (k = Datasources). */
  function SharedRule(k: Shared, sys: System): seq<Entry<seq<Link<seq<string>>>>> {
    SharedWrites(k, sys.services, sys.services)
  }

  /** Some record of `ls` points to `to`. */
  predicate LinksTo<P>(ls: seq<Link<P>>, to: string) {
    exists m :: 0 <= m < |ls| && ls[m].to == to
  }

  /** With unique names, service `i` has a record pointing to service `j`
      iff they are different services whose lists overlap. */
  lemma SharedLinksTo(k: Shared, services: seq<Service>, i: int, j: int)
    requires UniqueNames(services) && 0 <= i < |services| && 0 <= j < |services|
    ensures LinksTo(SharedLinks(k, services[i], services), services[j].name) <==>
            i != j && Overlap(Items(k, services[i]), Items(k, services[j])) != []
  {
    var a := services[i];
    var ls := SharedLinks(k, a, services);
    if LinksTo(ls, services[j].name) {
      var m :| 0 <= m < |ls| && ls[m].to == services[j].name;
      assert ls[m] in ls;
      var j' :| 0 <= j' < |services| && SharesWith(k, a, services[j']) && ls[m] == SharedLink(k, a, services[j']);
      assert services[j'].name == services[j].name;
      assert j' == j;
    }
    if i != j && Overlap(Items(k, a), Items(k, services[j])) != [] {
      assert SharesWith(k, a, services[j]);
      var l := SharedLink(k, a, services[j]);
      assert l in ls;
      var m :| 0 <= m < |ls| && ls[m] == l;
      assert ls[m].to == services[j].name;
    }
  }

  /** With unique names: no service is paired with itself, and A→B is
      recorded iff B→A is, with the same shared items. */
  lemma SharedSymmetric(k: Shared, services: seq<Service>, i: int, j: int)
    requires UniqueNames(services) && 0 <= i < |services| && 0 <= j < |services|
    ensures !LinksTo(SharedLinks(k, services[i], services), services[i].name)
    ensures LinksTo(SharedLinks(k, services[i], services), services[j].name) <==>
            LinksTo(SharedLinks(k, services[j], services), services[i].name)
    ensures forall x :: x in Overlap(Items(k, services[i]), Items(k, services[j])) <==>
                        x in Overlap(Items(k, services[j]), Items(k, services[i]))
  {
    OverlapSymmetric(Items(k, services[i]), Items(k, services[j]));
    SharedLinksTo(k, services, i, i);
    SharedLinksTo(k, services, i, j);
    SharedLinksTo(k, services, j, i);
  }

  // ---------------------------------------------------------------------
  // Circular dependencies

  /** Some string of `imps` contains `name`. */
  predicate ImportsName(imps: seq<string>, name: string) {
    exists m :: 0 <= m < |imps| && IsSubstring(name, imps[m])
  }

  /** The stated rule: A imports B and B imports A, for a B other than A;
      B's imports are found through the name-keyed lookup. */
  predicate Circular(a: Service, name: string, services: seq<Service>) {
    && name != a.name
    && ImportsName(a.imports, name)
    && match Find(services, name)
       case Some(b) => ImportsName(b.imports, a.name)
       case None => false
  }

  /** `for imp2 in B.imports: if A in imp2: append(A → B)`. */
  function Reciprocal(from: string, to: string, imps2: seq<string>): (ls: seq<Link<()>>)
    ensures forall l :: l in ls ==> l == Link(from, to, ())
    ensures |ls| > 0 <==> ImportsName(imps2, from)
  {
    if imps2 == [] then []
    else
      var rest := Reciprocal(from, to, imps2[1..]);
      assert ImportsName(imps2[1..], from) ==> ImportsName(imps2, from);
      (if IsSubstring(from, imps2[0]) then [Link(from, to, ())] else []) + rest
  }

  /** `for imp in A.imports: if name in imp and name != A: ...` for one name. */
  function CircularForName(a: Service, name: string, imps: seq<string>, services: seq<Service>)
    : (ls: seq<Link<()>>)
    ensures forall l :: l in ls ==> l == Link(a.name, name, ())
    ensures |ls| > 0 <==> name != a.name && ImportsName(imps, name) &&
                          Find(services, name).Some? && ImportsName(Find(services, name).value.imports, a.name)
  {
    if imps == [] then []
    else
      var rest := CircularForName(a, name, imps[1..], services);
      assert ImportsName(imps[1..], name) ==> ImportsName(imps, name);
      var here := if IsSubstring(name, imps[0]) && name != a.name then
                    match Find(services, name)
                    case Some(b) => Reciprocal(a.name, name, b.imports)
                    case None => []
                  else [];
      here + rest
  }

  /** All records for service `a`, over the list of service names. */
  function CircularLinks(a: Service, names: seq<string>, services: seq<Service>): (ls: seq<Link<()>>)
    ensures forall l :: l in ls ==>
              (l.from == a.name && l.to in names && l.payload == () && Circular(a, l.to, services))
    ensures forall n :: n in names && Circular(a, n, services) ==> Link(a.name, n, ()) in ls
  {
    if names == [] then []
    else
      var here := CircularForName(a, names[0], a.imports, services);
      var rest := CircularLinks(a, names[1..], services);
      assert here != [] ==> here[0] in here;
      here + rest
  }

  /** `hasCircularDependencies`. */
  function CircularRule(sys: System): (ws: seq<Entry<seq<Link<()>>>>)
    ensures |ws| == |sys.services|
    ensures forall i :: 0 <= i < |ws| ==>
              ws[i] == Entry(sys.services[i].name, CircularLinks(sys.services[i], Names(sys.services), sys.services))
  {
    var names := Names(sys.services);
    seq(|sys.services|, i requires 0 <= i < |sys.services| =>
      Entry(sys.services[i].name, CircularLinks(sys.services[i], names, sys.services)))
  }

  /** With unique names the circular relation is symmetric and irreflexive:
      A → B is recorded iff B → A is, and never A → A. */
  lemma CircularSymmetric(services: seq<Service>, i: int, j: int)
    requires UniqueNames(services) && 0 <= i < |services| && 0 <= j < |services|
    ensures var names := Names(services);
            Link(services[i].name, services[j].name, ()) in CircularLinks(services[i], names, services) <==>
            Link(services[j].name, services[i].name, ()) in CircularLinks(services[j], names, services)
    ensures Link(services[i].name, services[i].name, ()) !in CircularLinks(services[i], Names(services), services)
  {
    var names := Names(services);
    FindByOwnName(services, i);
    FindByOwnName(services, j);
    assert services[i].name in names && services[j].name in names;
  }

  // ---------------------------------------------------------------------
  // Wrong cuts

  predicate IsSpace(c: char) {
    c == ' ' || c == '\t' || c == '\n' || c == '\r' || c == '\U{0B}' || c == '\U{0C}'
  }

  /** `line.rsplit()`: the maximal runs of non-space characters. */
  function Words(line: string): (ws: seq<string>)
    ensures forall w :: w in ws ==> |w| > 0
    ensures forall k, i :: 0 <= k < |ws| && 0 <= i < |ws[k]| ==> !IsSpace(ws[k][i])
    ensures ws == [] <==> forall i :: 0 <= i < |line| ==> IsSpace(line[i])
    decreases |line|
  {
    if line == [] then []
    else if IsSpace(line[0]) then Words(line[1..])
    else
      var n := WordLength(line);
      [line[..n]] + Words(line[n..])
  }

  /** A non-empty string without spaces is one word. */
  lemma {:induction false} SingleWord(w: string)
    requires |w| > 0 && forall i :: 0 <= i < |w| ==> !IsSpace(w[i])
    ensures Words(w) == [w]
  {
    WholeWord(w);
    assert w[..|w|] == w;
  }

  lemma {:induction false} WholeWord(w: string)
    requires |w| > 0 && forall i :: 0 <= i < |w| ==> !IsSpace(w[i])
    ensures WordLength(w) == |w|
    decreases |w|
  {
    if |w| > 1 {
      WholeWord(w[1..]);
    }
  }

  /** The length of the run of non-space characters `line` starts with. */
  function WordLength(line: string): (n: nat)
    requires |line| > 0 && !IsSpace(line[0])
    ensures 0 < n <= |line|
    ensures forall i :: 0 <= i < n ==> !IsSpace(line[i])
    ensures n == |line| || IsSpace(line[n])
    decreases |line|
  {
    if |line| == 1 || IsSpace(line[1]) then 1 else 1 + WordLength(line[1..])
  }

  /** A word of `a` that ends before `a` does, or right before a space,
      keeps its length whatever follows `a`. */
  lemma WordLengthPrefix(a: string, t: string)
    requires |a| > 0 && !IsSpace(a[0])
    requires WordLength(a) < |a| || (|t| > 0 && IsSpace(t[0]))
    ensures WordLength(a + t) == WordLength(a)
  {
    var n := WordLength(a);
    assert IsSpace((a + t)[n]);
    assert forall i :: 0 <= i < n ==> (a + t)[i] == a[i];
  }

  lemma SliceAppend(a: string, t: string, m: nat)
    requires m <= |a|
    ensures (a + t)[..m] == a[..m] && (a + t)[m..] == a[m..] + t
  {
  }

  /** A white-space character splits the words of a line in two: none of
      the words runs across it, and the order is kept. */
  lemma {:induction false} WordsSplit(a: string, c: char, b: string)
    requires IsSpace(c)
    ensures Words(a + ([c] + b)) == Words(a) + Words(b)
    decreases |a|
  {
    var t := [c] + b;
    if a == [] {
      assert a + t == t;
      assert t[1..] == b;
    } else if IsSpace(a[0]) {
      SliceAppend(a, t, 1);
      WordsSplit(a[1..], c, b);
    } else {
      var m := WordLength(a);
      WordLengthPrefix(a, t);
      SliceAppend(a, t, m);
      WordsSplit(a[m..], c, b);
    }
  }

  /** Two words with one space between them split into exactly those two. */
  lemma TwoWords(x: string, c: char, y: string)
    requires |x| > 0 && forall i :: 0 <= i < |x| ==> !IsSpace(x[i])
    requires |y| > 0 && forall i :: 0 <= i < |y| ==> !IsSpace(y[i])
    requires IsSpace(c)
    ensures Words(x + ([c] + y)) == [x, y]
  {
    SingleWord(x);
    SingleWord(y);
    WordsSplit(x, c, y);
  }

  /** The non-space characters of `line`, in order. */
  function Letters(line: string): (r: string)
    ensures |r| <= |line|
    decreases |line|
  {
    if line == [] then []
    else if IsSpace(line[0]) then Letters(line[1..])
    else [line[0]] + Letters(line[1..])
  }

  /** The first word followed by the letters after it are the line's letters. */
  lemma {:induction false} LettersSplit(line: string)
    requires |line| > 0 && !IsSpace(line[0])
    ensures Letters(line) == line[..WordLength(line)] + Letters(line[WordLength(line)..])
    decreases |line|
  {
    var n := WordLength(line);
    if n > 1 {
      LettersSplit(line[1..]);
      assert line[1..][..n - 1] == line[1..n];
      assert line[1..][n - 1..] == line[n..];
      assert line[..n] == [line[0]] + line[1..n];
    }
  }

  /** Splitting loses no character but the spaces and reorders nothing: the
      words, run together, are exactly the line's non-space characters. */
  lemma {:induction false} WordsKeepLetters(line: string)
    ensures Join(Words(line), "") == Letters(line)
    decreases |line|
  {
    if line != [] {
      if IsSpace(line[0]) {
        WordsKeepLetters(line[1..]);
      } else {
        var n := WordLength(line);
        WordsKeepLetters(line[n..]);
        LettersSplit(line);
        var rest := Words(line[n..]);
        assert Words(line) == [line[..n]] + rest;
        if rest != [] {
          assert ([line[..n]] + rest)[1..] == rest;
        }
      }
    }
  }

  /** The Python values the as-written test compares: a string, or a list. */
  datatype PyValue = Str(s: string) | List(items: seq<PyValue>)

  /** `[l.rsplit() for l in languages]`: a list of LISTS of words. */
  function LanguageLists(lines: seq<string>): (vs: seq<PyValue>)
    ensures |vs| == |lines|
    ensures forall i :: 0 <= i < |vs| ==> vs[i].List?
  {
    seq(|lines|, i requires 0 <= i < |lines| =>
      List(seq(|Words(lines[i])|, w requires 0 <= w < |Words(lines[i])| => Str(Words(lines[i])[w]))))
  }

  /** `for imp in A.imports: if name in imp and name != A: ...` for one name,
      as written: the guard `service["language"] in languages` tests a string
      for membership in a list of lists, which is never true, so the `and`
      stops there. */
  function WrongCutForNameAsWritten(a: Service, name: string, imps: seq<string>, lines: seq<string>)
    : seq<Link<()>>
  {
    if imps == [] then []
    else
      var here := if IsSubstring(name, imps[0]) && name != a.name && Str(a.language) in LanguageLists(lines)
                  then [Link(a.name, name, ())] else [];
      here + WrongCutForNameAsWritten(a, name, imps[1..], lines)
  }

  /** The records of `hasWrongCuts` for service `a` as written. */
  function WrongCutLinksAsWritten(a: Service, names: seq<string>, lines: seq<string>): seq<Link<()>> {
    if names == [] then []
    else WrongCutForNameAsWritten(a, names[0], a.imports, lines) + WrongCutLinksAsWritten(a, names[1..], lines)
  }

  function WrongCutsAsWritten(sys: System, lines: seq<string>): seq<Entry<seq<Link<()>>>> {
    var names := Names(sys.services);
    seq(|sys.services|, i requires 0 <= i < |sys.services| =>
      Entry(sys.services[i].name, WrongCutLinksAsWritten(sys.services[i], names, lines)))
  }

  /** As written, every service's wrong-cut list is empty, whatever the
      metamodel and the language table. */
  lemma WrongCutsAsWrittenEmpty(sys: System, lines: seq<string>)
    ensures forall w :: w in WrongCutsAsWritten(sys, lines) ==> w.value == []
  {
    forall i | 0 <= i < |sys.services|
      ensures WrongCutLinksAsWritten(sys.services[i], Names(sys.services), lines) == []
    {
      NeverAStringInLists(sys.services[i], Names(sys.services), lines);
    }
  }

  lemma {:induction false} NeverAStringInLists(a: Service, names: seq<string>, lines: seq<string>)
    ensures WrongCutLinksAsWritten(a, names, lines) == []
  {
    if names != [] {
      NeverAStringForName(a, names[0], a.imports, lines);
      NeverAStringInLists(a, names[1..], lines);
    }
  }

  lemma {:induction false} NeverAStringForName(a: Service, name: string, imps: seq<string>, lines: seq<string>)
    ensures WrongCutForNameAsWritten(a, name, imps, lines) == []
  {
    assert Str(a.language) !in LanguageLists(lines);
    if imps != [] {
      NeverAStringForName(a, name, imps[1..], lines);
    }
  }

  /** The language table lists the language as one of its words. */
  predicate Accepted(language: string, lines: seq<string>) {
    exists i :: 0 <= i < |lines| && language in Words(lines[i])
  }

  /** The language test of the stated rule: A is not B, A's language is in
      the table and B's is not; B is found through the name-keyed lookup. */
  predicate LanguageSeam(a: Service, name: string, services: seq<Service>, lines: seq<string>) {
    && name != a.name
    && Accepted(a.language, lines)
    && match Find(services, name)
       case Some(b) => !Accepted(b.language, lines)
       case None => false
  }

  /** The stated rule: A imports B across a language seam. */
  predicate WrongCut(a: Service, name: string, services: seq<Service>, lines: seq<string>) {
    LanguageSeam(a, name, services, lines) && ImportsName(a.imports, name)
  }

  /** The number of strings of `imps` that contain `name`. */
  function MatchCount(imps: seq<string>, name: string): (c: nat)
    ensures c > 0 <==> ImportsName(imps, name)
    ensures c <= |imps|
  {
    if imps == [] then 0
    else
      var rest := MatchCount(imps[1..], name);
      assert ImportsName(imps[1..], name) ==> ImportsName(imps, name);
      (if IsSubstring(name, imps[0]) then 1 else 0) + rest
  }

  /** `for imp in A.imports: if name in imp and name != A: ...` for one name,
      corrected: one record for every import that contains the name, when the
      two services sit on a language seam. */
  function WrongCutForName(a: Service, name: string, imps: seq<string>, services: seq<Service>,
                           lines: seq<string>): (ls: seq<Link<()>>)
    ensures forall l :: l in ls ==> l == Link(a.name, name, ())
    ensures |ls| == if LanguageSeam(a, name, services, lines) then MatchCount(imps, name) else 0
  {
    if imps == [] then []
    else
      var here := if IsSubstring(name, imps[0]) && LanguageSeam(a, name, services, lines)
                  then [Link(a.name, name, ())] else [];
      here + WrongCutForName(a, name, imps[1..], services, lines)
  }

  /** The corrected records of `hasWrongCuts` for service `a`. */
  function WrongCutLinks(a: Service, names: seq<string>, services: seq<Service>, lines: seq<string>)
    : (ls: seq<Link<()>>)
    ensures forall l :: l in ls ==>
              (l.from == a.name && l.to in names && l.payload == () && WrongCut(a, l.to, services, lines))
    ensures forall n :: n in names && WrongCut(a, n, services, lines) ==> Link(a.name, n, ()) in ls
  {
    if names == [] then []
    else
      var here := WrongCutForName(a, names[0], a.imports, services, lines);
      var rest := WrongCutLinks(a, names[1..], services, lines);
      assert here != [] ==> here[0] in here;
      here + rest
  }

  /** `hasWrongCuts`, corrected. */
  function WrongCutsRule(sys: System, lines: seq<string>): (ws: seq<Entry<seq<Link<()>>>>)
    ensures |ws| == |sys.services|
    ensures forall i :: 0 <= i < |ws| ==>
              ws[i] == Entry(sys.services[i].name,
                             WrongCutLinks(sys.services[i], Names(sys.services), sys.services, lines))
  {
    var names := Names(sys.services);
    seq(|sys.services|, i requires 0 <= i < |sys.services| =>
      Entry(sys.services[i].name, WrongCutLinks(sys.services[i], names, sys.services, lines)))
  }

  /** A concrete seam the written rule misses: a Java service importing a
      COBOL service is a wrong cut, yet the written rule records nothing. */
  lemma WrongCutMissedAsWritten()
    ensures var a := Service("orders", 0, 0, "java", [], [], [], [], ["billing.client"], [], [], []);
            var b := Service("billing", 0, 0, "cobol", [], [], [], [], [], [], [], []);
            var sys := System([a, b], [], [], [], []);
            && WrongCutsRule(sys, ["java"])[0].value == [Link("orders", "billing", ())]
            && WrongCutsAsWritten(sys, ["java"])[0].value == []
  {
    var a := Service("orders", 0, 0, "java", [], [], [], [], ["billing.client"], [], [], []);
    var b := Service("billing", 0, 0, "cobol", [], [], [], [], [], [], [], []);
    var sys := System([a, b], [], [], [], []);
    SeamRecorded(a, b, ["java"]);
    WrongCutsAsWrittenEmpty(sys, ["java"]);
  }

  /** The corrected half of `WrongCutMissedAsWritten`. */
  lemma SeamRecorded(a: Service, b: Service, lines: seq<string>)
    requires a == Service("orders", 0, 0, "java", [], [], [], [], ["billing.client"], [], [], [])
    requires b == Service("billing", 0, 0, "cobol", [], [], [], [], [], [], [], [])
    requires lines == ["java"]
    ensures WrongCutsRule(System([a, b], [], [], [], []), lines)[0].value == [Link("orders", "billing", ())]
  {
    var services := [a, b];
    SeamFacts(a, b, lines);
    OneRecord(a, "billing", services, lines);
    assert Names(services) == ["orders", "billing"];
    assert ["orders", "billing"][1..] == ["billing"];
    assert WrongCutForName(a, "orders", a.imports, services, lines) == [];
    assert WrongCutLinks(a, ["billing"], services, lines) == [Link("orders", "billing", ())] + [];
  }

  /** A seam named by A's only import gives exactly one record. */
  lemma OneRecord(a: Service, name: string, services: seq<Service>, lines: seq<string>)
    requires LanguageSeam(a, name, services, lines)
    requires |a.imports| == 1 && IsSubstring(name, a.imports[0])
    ensures WrongCutForName(a, name, a.imports, services, lines) == [Link(a.name, name, ())]
  {
    var ls := WrongCutForName(a, name, a.imports, services, lines);
    assert MatchCount(a.imports, name) == 1;
    assert ls[0] in ls;
  }

  /** The corrected rule records a seam once per import that names the
      other service: two imports of `billing` give two records. */
  lemma WrongCutPerImport()
    ensures var a := Service("orders", 0, 0, "java", [], [], [], [], ["billing.client", "billing.api"], [], [], []);
            var b := Service("billing", 0, 0, "cobol", [], [], [], [], [], [], [], []);
            WrongCutsRule(System([a, b], [], [], [], []), ["java"])[0].value ==
              [Link("orders", "billing", ()), Link("orders", "billing", ())]
  {
    var a := Service("orders", 0, 0, "java", [], [], [], [], ["billing.client", "billing.api"], [], [], []);
    var b := Service("billing", 0, 0, "cobol", [], [], [], [], [], [], [], []);
    var services := [a, b];
    var lines := ["java"];
    TwoImportsFacts(a, b, lines);
    var l := Link("orders", "billing", ());
    TwoRecords(a, "billing", services, lines);
    assert Names(services) == ["orders", "billing"];
    assert ["orders", "billing"][1..] == ["billing"];
    assert WrongCutForName(a, "orders", a.imports, services, lines) == [];
    assert WrongCutLinks(a, ["billing"], services, lines) == [l, l] + [];
  }

  /** A seam named by both of A's two imports gives exactly two records. */
  lemma TwoRecords(a: Service, name: string, services: seq<Service>, lines: seq<string>)
    requires LanguageSeam(a, name, services, lines)
    requires |a.imports| == 2 && IsSubstring(name, a.imports[0]) && IsSubstring(name, a.imports[1])
    ensures WrongCutForName(a, name, a.imports, services, lines) == [Link(a.name, name, ()), Link(a.name, name, ())]
  {
    var ls := WrongCutForName(a, name, a.imports, services, lines);
    assert a.imports[1..][1..] == [];
    assert MatchCount(a.imports, name) == 2;
    assert ls[0] in ls && ls[1] in ls;
  }

  lemma TwoImportsFacts(a: Service, b: Service, lines: seq<string>)
    requires a == Service("orders", 0, 0, "java", [], [], [], [], ["billing.client", "billing.api"], [], [], [])
    requires b == Service("billing", 0, 0, "cobol", [], [], [], [], [], [], [], [])
    requires lines == ["java"]
    ensures LanguageSeam(a, "billing", [a, b], lines)
    ensures IsSubstring("billing", a.imports[0]) && IsSubstring("billing", a.imports[1])
  {
    JavaCobolSeam(a, b, lines);
    assert "billing" <= "billing.client" && "billing" <= "billing.api";
  }

  /** A Java service named "orders" and a COBOL service named "billing"
      sit on a seam when only Java is in the table. */
  lemma JavaCobolSeam(a: Service, b: Service, lines: seq<string>)
    requires a.name == "orders" && a.language == "java"
    requires b == Service("billing", 0, 0, "cobol", [], [], [], [], [], [], [], [])
    requires lines == ["java"]
    ensures LanguageSeam(a, "billing", [a, b], lines)
  {
    SingleWord("java");
    SingleWord("cobol");
    assert Words(lines[0]) == [a.language];
    assert a.language in Words(lines[0]);
    assert "cobol" !in Words(lines[0]);
    assert Find([a, b], "billing") == Some(b);
  }

  lemma SeamFacts(a: Service, b: Service, lines: seq<string>)
    requires a == Service("orders", 0, 0, "java", [], [], [], [], ["billing.client"], [], [], [])
    requires b == Service("billing", 0, 0, "cobol", [], [], [], [], [], [], [], [])
    requires lines == ["java"]
    ensures LanguageSeam(a, "billing", [a, b], lines)
    ensures IsSubstring("billing", a.imports[0])
  {
    JavaCobolSeam(a, b, lines);
    assert "billing" <= "billing.client";
  }
}
