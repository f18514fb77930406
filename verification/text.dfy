/** The string primitives the detection rules are written with: Python's
    substring test `needle in hay`, ASCII `lower()`, and `sep.join(xs)`. */
module Text {

  /** Python's `needle in hay` on two strings: `needle` is a prefix of some
      suffix of `hay`.  The empty string occurs in every string. */
  predicate IsSubstring(needle: string, hay: string)
    decreases |hay|
  {
    needle <= hay || (|hay| > 0 && IsSubstring(needle, hay[1..]))
  }

  /** Reference definition: `needle` sits at position `i` of `hay`. */
  ghost predicate OccursAt(needle: string, hay: string, i: int) {
    0 <= i && i + |needle| <= |hay| && hay[i..i + |needle|] == needle
  }

  lemma PrefixIsOccurrenceAtZero(needle: string, hay: string)
    ensures needle <= hay <==> OccursAt(needle, hay, 0)
  {
    if OccursAt(needle, hay, 0) {
      assert hay[..|needle|] == needle;
    }
  }

  lemma OccursShift(needle: string, hay: string, i: int)
    requires |hay| > 0 && 0 <= i
    ensures OccursAt(needle, hay[1..], i) <==> OccursAt(needle, hay, i + 1)
  {
    if 0 <= i && i + |needle| <= |hay[1..]| {
      assert hay[1..][i..i + |needle|] == hay[i + 1..i + 1 + |needle|];
    }
  }

  /** The recursive test agrees with "occurs at some position". */
  lemma {:induction false} IsSubstringIff(needle: string, hay: string)
    ensures IsSubstring(needle, hay) <==> exists i :: OccursAt(needle, hay, i)
    decreases |hay|
  {
    PrefixIsOccurrenceAtZero(needle, hay);
    if needle <= hay {
      assert OccursAt(needle, hay, 0);
    } else if |hay| == 0 {
      assert needle != [];
    } else {
      IsSubstringIff(needle, hay[1..]);
      if IsSubstring(needle, hay) {
        var i :| OccursAt(needle, hay[1..], i);
        OccursShift(needle, hay, i);
      } else {
        forall i | OccursAt(needle, hay, i)
          ensures false
        {
          if i > 0 {
            OccursShift(needle, hay, i - 1);
          }
        }
      }
    }
  }

  /** A needle whose first character does not occur in `hay` is not a
      substring of it. */
  lemma {:induction false} FirstCharMissing(needle: string, hay: string)
    requires |needle| > 0 && needle[0] !in hay
    ensures !IsSubstring(needle, hay)
    decreases |hay|
  {
    if |hay| > 0 {
      assert hay[0] != needle[0];
      FirstCharMissing(needle, hay[1..]);
    }
  }

  predicate IsUpper(c: char) {
    'A' <= c <= 'Z'
  }

  /** An upper-case ASCII letter becomes the lower-case letter 32 code
      points above it; every other character is kept. */
  function LowerChar(c: char): (r: char)
    ensures !IsUpper(r)
    ensures !IsUpper(c) ==> r == c
    ensures IsUpper(c) ==> r == (c as int + 32) as char && 'a' <= r <= 'z'
  {
    if IsUpper(c) then (c as int + 32) as char else c
  }

  /** Python's `s.lower()`, restricted to ASCII letters. */
  function Lower(s: string): (r: string)
    ensures |r| == |s|
    ensures forall i :: 0 <= i < |r| ==> !IsUpper(r[i])
    ensures forall i :: 0 <= i < |s| && !IsUpper(s[i]) ==> r[i] == s[i]
    ensures forall i :: 0 <= i < |s| && IsUpper(s[i]) ==> r[i] == (s[i] as int + 32) as char
  {
    seq(|s|, i requires 0 <= i < |s| => LowerChar(s[i]))
  }

  /** Python's `word in s.lower()`, the case-insensitive keyword test. */
  predicate ContainsWord(s: string, word: string) {
    IsSubstring(word, Lower(s))
  }

  /** Python's `any(word in s.lower() for s in xs)`; a `for ... break` scan
      that stops at the first hit yields the same boolean. */
  predicate AnyContainsWord(xs: seq<string>, word: string) {
    exists i :: 0 <= i < |xs| && ContainsWord(xs[i], word)
  }

  function TotalLength(xs: seq<string>): nat {
    if xs == [] then 0 else |xs[0]| + TotalLength(xs[1..])
  }

  /** Python's `sep.join(xs)`. */
  function Join(xs: seq<string>, sep: string): (r: string)
    ensures xs == [] ==> r == ""
    ensures xs != [] ==> xs[0] <= r
    ensures xs != [] ==> |r| == TotalLength(xs) + (|xs| - 1) * |sep|
  {
    if xs == [] then ""
    else if |xs| == 1 then xs[0]
    else xs[0] + sep + Join(xs[1..], sep)
  }

  /** Joining one more item appends the separator and the item: the items
      appear in order, each pair separated by `sep`. */
  lemma {:induction false} JoinSnoc(xs: seq<string>, y: string, sep: string)
    requires xs != []
    ensures Join(xs + [y], sep) == Join(xs, sep) + sep + y
  {
    if |xs| == 1 {
      assert (xs + [y])[1..] == [y];
    } else {
      assert (xs + [y])[1..] == xs[1..] + [y];
      JoinSnoc(xs[1..], y, sep);
    }
  }

  /** A concrete join: `", ".join(["a", "b", "c"])` is "a, b, c". */
  lemma JoinExample()
    ensures Join(["a", "b", "c"], ", ") == "a, b, c"
  {
    assert ["a", "b", "c"][1..] == ["b", "c"];
    assert ["b", "c"][1..] == ["c"];
  }
}
