/** The de-duplication of relation records when the report is printed:
    every `from`/`to` record of a relation dictionary is visited in order,
    and a record is printed unless its ordered pair was already marked;
    printing one marks both orientations. */
module Dedup {
  import opened Dicts
  import opened RelationRules

  type Pair = (string, string)

  /** Two records name the same two services, in either orientation. */
  predicate SamePair<P>(a: Link<P>, b: Link<P>) {
    (a.from == b.from && a.to == b.to) || (a.from == b.to && a.to == b.from)
  }

  /** Both orientations of a record's pair. */
  function Marks<P>(l: Link<P>): seq<Pair> {
    [(l.from, l.to), (l.to, l.from)]
  }

  /** Every marked pair is marked in both orientations. */
  predicate Symmetric(seen: seq<Pair>) {
    forall x :: x in seen ==> (x.1, x.0) in seen
  }

  /** No two printed records name the same two services. */
  predicate PairwiseDistinct<P>(r: seq<Link<P>>) {
    forall i, j :: 0 <= i < j < |r| ==> !SamePair(r[i], r[j])
  }

  /** Some printed record names the same two services as `l`. */
  predicate Covers<P>(r: seq<Link<P>>, l: Link<P>) {
    exists k :: 0 <= k < |r| && SamePair(r[k], l)
  }

  /** `for v in d.values(): for pair in v:` visits the lists one after the
      other. */
  function Flatten<T>(xss: seq<seq<T>>): (r: seq<T>)
    ensures |r| == 0 <==> forall i :: 0 <= i < |xss| ==> |xss[i]| == 0
    ensures forall i, j :: 0 <= i < |xss| && 0 <= j < |xss[i]| ==> xss[i][j] in r
    ensures forall x :: x in r ==> exists i :: 0 <= i < |xss| && x in xss[i]
  {
    if xss == [] then []
    else
      var rest := Flatten(xss[1..]);
      assert forall i :: 1 <= i < |xss| ==> xss[1..][i - 1] == xss[i];
      xss[0] + rest
  }

  /** Flattening keeps the order of the lists: the items of `a` come
      before those of `b`. */
  lemma {:induction false} FlattenAppend<T>(a: seq<seq<T>>, b: seq<seq<T>>)
    ensures Flatten(a + b) == Flatten(a) + Flatten(b)
  {
    if a != [] {
      assert (a + b)[1..] == a[1..] + b;
      FlattenAppend(a[1..], b);
    } else {
      assert a + b == b;
    }
  }

  /** The records the printing loop prints, starting from the marks in
      `seen`. */
  function Printed<P(==)>(links: seq<Link<P>>, seen: seq<Pair>): (r: seq<Link<P>>)
    ensures |r| <= |links|
    ensures forall k :: 0 <= k < |r| ==> r[k] in links && (r[k].from, r[k].to) !in seen
  {
    if links == [] then []
    else
      var l := links[0];
      if (l.from, l.to) in seen then Printed(links[1..], seen)
      else [l] + Printed(links[1..], seen + Marks(l))
  }

  /** Printing never repeats a pair of services, in either orientation. */
  lemma {:induction false} PrintedDistinct<P>(links: seq<Link<P>>, seen: seq<Pair>)
    ensures PairwiseDistinct(Printed(links, seen))
  {
    if links != [] {
      var l := links[0];
      if (l.from, l.to) in seen {
        PrintedDistinct(links[1..], seen);
      } else {
        var rest := Printed(links[1..], seen + Marks(l));
        PrintedDistinct(links[1..], seen + Marks(l));
        assert forall k :: 0 <= k < |rest| ==> (rest[k].from, rest[k].to) !in seen + Marks(l);
        var r := [l] + rest;
        forall i, j | 0 <= i < j < |r|
          ensures !SamePair(r[i], r[j])
        {
          assert r[j] == rest[j - 1];
          if i > 0 {
            assert r[i] == rest[i - 1];
          }
        }
      }
    }
  }

  /** A record covered by the rest of the printed records is covered once
      another record is printed in front of them. */
  lemma CoversCons<P>(l: Link<P>, rest: seq<Link<P>>, x: Link<P>)
    requires Covers(rest, x)
    ensures Covers([l] + rest, x)
  {
    var k :| 0 <= k < |rest| && SamePair(rest[k], x);
    assert ([l] + rest)[k + 1] == rest[k];
  }

  /** Every record is either already marked or shares its pair of services
      with a printed record. */
  lemma {:induction false} PrintedCovers<P>(links: seq<Link<P>>, seen: seq<Pair>, n: int)
    requires 0 <= n < |links|
    ensures (links[n].from, links[n].to) in seen || Covers(Printed(links, seen), links[n])
  {
    var l := links[0];
    var x := links[n];
    if n > 0 {
      assert links[1..][n - 1] == x;
    }
    if (l.from, l.to) in seen {
      if n > 0 {
        PrintedCovers(links[1..], seen, n - 1);
      }
    } else {
      var seen' := seen + Marks(l);
      var rest := Printed(links[1..], seen');
      assert Printed(links, seen) == [l] + rest;
      if n == 0 || (x.from, x.to) in Marks(l) {
        assert ([l] + rest)[0] == l && SamePair(l, x);
      } else {
        PrintedCovers(links[1..], seen', n - 1);
        if (x.from, x.to) !in seen {
          CoversCons(l, rest, x);
        }
      }
    }
  }

  /** Each printed record is the first record of its pair of services, in
      the orientation that record has: a later record of the same two
      services, reversed or not, is never printed. */
  lemma {:induction false} PrintedFirstSeen<P>(links: seq<Link<P>>, seen: seq<Pair>, k: int)
    requires Symmetric(seen)
    requires 0 <= k < |Printed(links, seen)|
    ensures exists n :: 0 <= n < |links| && links[n] == Printed(links, seen)[k] &&
                        forall m :: 0 <= m < n ==> !SamePair(links[m], links[n])
  {
    var l := links[0];
    var p := Printed(links, seen)[k];
    var seen' := if (l.from, l.to) in seen then seen else seen + Marks(l);
    if (l.from, l.to) !in seen && k == 0 {
      assert links[0] == p;
    } else {
      var k' := if (l.from, l.to) in seen then k else k - 1;
      assert Printed(links[1..], seen')[k'] == p;
      assert Symmetric(seen');
      PrintedFirstSeen(links[1..], seen', k');
      var n :| 0 <= n < |links[1..]| && links[1..][n] == p &&
               forall m :: 0 <= m < n ==> !SamePair(links[1..][m], links[1..][n]);
      assert (p.from, p.to) !in seen';
      assert (l.from, l.to) in seen' && (l.to, l.from) in seen';
      assert !SamePair(l, p);
      assert links[n + 1] == p;
      forall m | 0 <= m < n + 1
        ensures !SamePair(links[m], links[n + 1])
      {
        if m > 0 {
          assert links[m] == links[1..][m - 1];
        }
      }
    }
  }

  /** From no marks, every record's pair of services is printed exactly
      once. */
  lemma PrintedOnce<P>(links: seq<Link<P>>, n: int)
    requires 0 <= n < |links|
    ensures Covers(Printed(links, []), links[n])
    ensures forall i, j :: (0 <= i < |Printed(links, [])| && 0 <= j < |Printed(links, [])| &&
                            SamePair(Printed(links, [])[i], links[n]) &&
                            SamePair(Printed(links, [])[j], links[n])) ==> i == j
  {
    var r := Printed(links, []);
    PrintedCovers(links, [], n);
    PrintedDistinct(links, []);
    forall i, j | 0 <= i < |r| && 0 <= j < |r| && SamePair(r[i], links[n]) && SamePair(r[j], links[n])
      ensures i == j
    {
      assert SamePair(r[i], r[j]) && SamePair(r[j], r[i]);
    }
  }
}
