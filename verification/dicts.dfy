/** Python's insertion-ordered `dict` with string keys, as the detector uses
    it for every verdict collection: `d[k] = v` overwrites the value of an
    existing key in place and appends a new key at the end. */
module Dicts {
  import opened Wrappers

  datatype Entry<V> = Entry(key: string, value: V)

  /** The entries in insertion order. */
  type Dict<V> = seq<Entry<V>>

  function Keys<V>(d: Dict<V>): (ks: seq<string>)
    ensures |ks| == |d|
    ensures forall i :: 0 <= i < |d| ==> ks[i] == d[i].key
  {
    seq(|d|, i requires 0 <= i < |d| => d[i].key)
  }

  /** No key is stored twice. */
  predicate UniqueKeys<V>(d: seq<Entry<V>>) {
    forall i, j :: 0 <= i < j < |d| ==> d[i].key != d[j].key
  }

  /** `d.get(k)`. */
  function Get<V>(d: Dict<V>, k: string): (r: Option<V>)
    ensures r.None? <==> forall i :: 0 <= i < |d| ==> d[i].key != k
  {
    if d == [] then None
    else if d[0].key == k then Some(d[0].value)
    else Get(d[1..], k)
  }

  /** A value found for `k` is stored under `k`. */
  lemma {:induction false} GetFound<V>(d: Dict<V>, k: string)
    requires Get(d, k).Some?
    ensures exists i :: 0 <= i < |d| && d[i] == Entry(k, Get(d, k).value)
  {
    if d[0].key != k {
      GetFound(d[1..], k);
      var i :| 0 <= i < |d[1..]| && d[1..][i] == Entry(k, Get(d, k).value);
      assert d[i + 1] == d[1..][i];
    }
  }

  /** `d[k] = v`. */
  function Put<V>(d: Dict<V>, k: string, v: V): (r: Dict<V>)
    ensures Get(r, k) == Some(v)
    ensures forall k' :: k' != k ==> Get(r, k') == Get(d, k')
    ensures Get(d, k).None? ==> r == d + [Entry(k, v)]
  {
    if d == [] then [Entry(k, v)]
    else if d[0].key == k then
      var r := [Entry(k, v)] + d[1..];
      assert r[1..] == d[1..];
      r
    else
      var rest := Put(d[1..], k, v);
      var r := [d[0]] + rest;
      assert r[1..] == rest;
      assert Get(d[1..], k).None? ==> r == d + [Entry(k, v)] by {
        if Get(d[1..], k).None? {
          assert d == [d[0]] + d[1..];
        }
      }
      r
  }

  /** Overwriting a key that is already present keeps every key where it
      was: only the value changes, the insertion order does not. */
  lemma {:induction false} PutKeepsOrder<V>(d: Dict<V>, k: string, v: V)
    requires Get(d, k).Some?
    ensures |Put(d, k, v)| == |d|
    ensures forall i :: 0 <= i < |d| ==> Put(d, k, v)[i].key == d[i].key
  {
    var r := Put(d, k, v);
    if d[0].key != k {
      var rest := Put(d[1..], k, v);
      PutKeepsOrder(d[1..], k, v);
      assert r == [d[0]] + rest;
      assert forall i :: 1 <= i < |d| ==> r[i] == rest[i - 1] && d[i] == d[1..][i - 1];
    } else {
      assert r == [Entry(k, v)] + d[1..];
    }
  }

  /** Every key after an assignment is the assigned key or an old one. */
  lemma PutKeyOrigin<V>(d: Dict<V>, k: string, v: V, j: int)
    requires 0 <= j < |Put(d, k, v)|
    ensures Put(d, k, v)[j].key == k || exists i :: 0 <= i < |d| && d[i].key == Put(d, k, v)[j].key
  {
    var k' := Put(d, k, v)[j].key;
    assert Get(Put(d, k, v), k').Some?;
  }

  /** Assignment never stores a key twice. */
  lemma {:induction false} PutUnique<V>(d: Dict<V>, k: string, v: V)
    requires UniqueKeys(d)
    ensures UniqueKeys(Put(d, k, v))
  {
    if d != [] && d[0].key != k {
      var rest := Put(d[1..], k, v);
      PutUnique(d[1..], k, v);
      forall j | 0 <= j < |rest|
        ensures rest[j].key != d[0].key
      {
        PutKeyOrigin(d[1..], k, v, j);
        if rest[j].key != k {
          var i :| 0 <= i < |d[1..]| && d[1..][i].key == rest[j].key;
          assert d[i + 1].key == rest[j].key;
        }
      }
      assert Put(d, k, v) == [d[0]] + rest;
    }
  }

  /** Performs the assignments `d[w.key] = w.value` of `ws` in order. */
  function Apply<V>(d: Dict<V>, ws: seq<Entry<V>>): (r: Dict<V>)
    decreases |ws|
  {
    if ws == [] then d else Apply(Put(d, ws[0].key, ws[0].value), ws[1..])
  }

  /** The value of the last assignment to `k` in `ws`, if any. */
  function LastWrite<V>(ws: seq<Entry<V>>, k: string): (r: Option<V>)
    ensures r.None? <==> forall i :: 0 <= i < |ws| ==> ws[i].key != k
    ensures r.Some? ==> exists i :: 0 <= i < |ws| && ws[i] == Entry(k, r.value) &&
                                    forall j :: i < j < |ws| ==> ws[j].key != k
  {
    if ws == [] then None
    else match LastWrite(ws[1..], k)
      case Some(v) => Some(v)
      case None => if ws[0].key == k then Some(ws[0].value) else None
  }

  /** After a sequence of assignments a key holds the value of its last
      assignment, or the value it had before if it was never assigned. */
  lemma {:induction false} ApplyGet<V>(d: Dict<V>, ws: seq<Entry<V>>, k: string)
    ensures Get(Apply(d, ws), k) == if LastWrite(ws, k).Some? then LastWrite(ws, k) else Get(d, k)
    decreases |ws|
  {
    if ws != [] {
      ApplyGet(Put(d, ws[0].key, ws[0].value), ws[1..], k);
    }
  }

  /** When a log writes `k` only in its tail `b`, the last write of `k` is
      the tail's last entry. */
  lemma LastWriteOfTail<V>(a: seq<Entry<V>>, b: seq<Entry<V>>, k: string)
    requires forall i :: 0 <= i < |a| ==> a[i].key != k
    requires forall i :: 0 <= i < |b| ==> b[i].key == k
    ensures LastWrite(a + b, k) == if b == [] then None else Some(b[|b| - 1].value)
  {
    var ws := a + b;
    if b == [] {
      assert ws == a;
    } else {
      assert ws[|ws| - 1] == b[|b| - 1];
      var i :| 0 <= i < |ws| && ws[i] == Entry(k, LastWrite(ws, k).value) &&
               forall j :: i < j < |ws| ==> ws[j].key != k;
      assert i == |ws| - 1;
    }
  }

  /** A key is in the dictionary built from nothing iff it was assigned. */
  lemma ApplyHasKey<V>(ws: seq<Entry<V>>, k: string)
    ensures Get(Apply([], ws), k).Some? <==> exists i :: 0 <= i < |ws| && ws[i].key == k
  {
    ApplyGet([], ws, k);
  }

  /** Appending assignments to other keys does not change which keys a log
      assigns. */
  lemma AssignedKeysAppend<V>(ws: seq<Entry<V>>, more: seq<Entry<V>>, k: string)
    requires forall j :: 0 <= j < |more| ==> more[j].key != k
    ensures (exists j :: 0 <= j < |ws + more| && (ws + more)[j].key == k) <==>
            (exists j :: 0 <= j < |ws| && ws[j].key == k)
  {
    forall j | |ws| <= j < |ws + more|
      ensures (ws + more)[j].key != k
    {
      assert (ws + more)[j] == more[j - |ws|];
    }
    forall j | 0 <= j < |ws| && ws[j].key == k
      ensures (ws + more)[j].key == k
    {
    }
  }

  /** When every key is assigned once, the dictionary is the assignment log. */
  lemma {:induction false} ApplyDistinct<V>(d: Dict<V>, ws: seq<Entry<V>>)
    requires UniqueKeys(d + ws)
    ensures Apply(d, ws) == d + ws
    decreases |ws|
  {
    if ws != [] {
      assert Get(d, ws[0].key).None? by {
        forall i | 0 <= i < |d|
          ensures d[i].key != ws[0].key
        {
          assert (d + ws)[i] == d[i] && (d + ws)[|d|] == ws[0];
        }
      }
      var d' := Put(d, ws[0].key, ws[0].value);
      assert d' + ws[1..] == d + ws;
      ApplyDistinct(d', ws[1..]);
    }
  }

  /** The values in insertion order, as `d.values()` iterates them. */
  function Values<V>(d: Dict<V>): (vs: seq<V>)
    ensures |vs| == |d|
    ensures forall i :: 0 <= i < |d| ==> vs[i] == d[i].value
  {
    seq(|d|, i requires 0 <= i < |d| => d[i].value)
  }
}
