/** The few JavaScript string operations the two rules rely on:
    `String.prototype.includes`, `indexOf`, `split(sep)[1]` and `Array.prototype.join`,
    written over `seq<char>`. */
module Strings {
  import opened Wrappers

  /** `pat` occurs in `s` starting at index `k`. */
  predicate OccursAt(s: string, pat: string, k: int)
  {
    0 <= k && k + |pat| <= |s| && s[k..k + |pat|] == pat
  }

  /** `s.includes(pat)` */
  predicate Contains(s: string, pat: string)
  {
    exists k :: 0 <= k <= |s| - |pat| && OccursAt(s, pat, k)
  }

  /** `k` is the leftmost occurrence of `pat` in `s`. */
  predicate FirstOccurrence(s: string, pat: string, k: int)
  {
    OccursAt(s, pat, k) && forall j :: 0 <= j < k ==> !OccursAt(s, pat, j)
  }

  /** `s.indexOf(pat, from)`, with -1 written as `None`. */
  function IndexOf(s: string, pat: string, from: nat): (r: Option<nat>)
    requires |pat| > 0
    ensures r.Some? ==> from <= r.value && OccursAt(s, pat, r.value)
    ensures forall k :: from <= k && (r.None? || k < r.value) ==> !OccursAt(s, pat, k)
    decreases |s| - from
  {
    if from + |pat| > |s| then None
    else if s[from..from + |pat|] == pat then Some(from)
    else IndexOf(s, pat, from + 1)
  }

  /** An occurrence inside a slice is an occurrence in the whole string. */
  lemma OccursInSlice(s: string, pat: string, a: int, b: int, m: int)
    requires 0 <= a <= b <= |s|
    requires OccursAt(s[a..b], pat, m)
    ensures OccursAt(s, pat, a + m)
  {
    var t := s[a..b];
    assert t[m..m + |pat|] == pat;
    forall j | 0 <= j < |pat|
      ensures s[a + m + j] == pat[j]
    {
      assert t[m + j] == pat[j];
    }
    assert s[a + m..a + m + |pat|] == pat;
  }

  /** `v` is the text that follows the separator occurrence at `i`, up to the
      next occurrence of the separator or the end of `s`. */
  predicate FieldAfter(s: string, sep: string, i: int, v: string)
  {
    0 <= i && i + |sep| + |v| <= |s|
    && s[i + |sep|..i + |sep| + |v|] == v
    && (i + |sep| + |v| == |s| || OccursAt(s, sep, i + |sep| + |v|))
  }

  /** `s.split(sep)[1]`: the second field of the split, which is `undefined`
      (here `None`) when the separator does not occur at all. */
  function SecondField(s: string, sep: string): (r: Option<string>)
    requires |sep| > 0
    ensures r.None? <==> !Contains(s, sep)
    ensures r.Some? ==> !Contains(r.value, sep)
    ensures r.Some? ==> exists i :: FirstOccurrence(s, sep, i) && FieldAfter(s, sep, i, r.value)
    ensures r.Some? ==> forall i, j :: FirstOccurrence(s, sep, i) && i + |sep| <= j < i + |sep| + |r.value|
                                       ==> !OccursAt(s, sep, j)
  {
    match IndexOf(s, sep, 0)
    case None => None
    case Some(i) =>
      var start := i + |sep|;
      var stop := match IndexOf(s, sep, start) case Some(j) => j case None => |s|;
      var v := s[start..stop];
      assert FirstOccurrence(s, sep, i);
      assert FieldAfter(s, sep, i, v);
      assert !Contains(v, sep) by {
        forall m | 0 <= m <= |v| - |sep| && OccursAt(v, sep, m)
          ensures false
        {
          OccursInSlice(s, sep, start, stop, m);
        }
      }
      Some(v)
  }

  /** The second field is the only text that starts right after the first
      occurrence of the separator and runs, without a separator starting
      inside it, to the next occurrence or to the end. */
  lemma SecondFieldUnique(s: string, sep: string, i: int, v: string)
    requires |sep| > 0 && FirstOccurrence(s, sep, i) && FieldAfter(s, sep, i, v)
    requires forall j :: i + |sep| <= j < i + |sep| + |v| ==> !OccursAt(s, sep, j)
    ensures SecondField(s, sep) == Some(v)
  {
    assert Contains(s, sep);
    var r := SecondField(s, sep).value;
    var i' :| FirstOccurrence(s, sep, i') && FieldAfter(s, sep, i', r);
    assert i' == i;
    assert |r| == |v|;
  }

  /** `xs.join(sep)` */
  function Join(xs: seq<string>, sep: string): (r: string)
    ensures |xs| == 1 ==> r == xs[0]
    ensures |xs| == 0 ==> r == ""
  {
    if |xs| == 0 then ""
    else if |xs| == 1 then xs[0]
    else xs[0] + sep + Join(xs[1..], sep)
  }

  /** Splitting `x + sep + y` on a two-character separator `sep` whose first
      character occurs in neither `x` nor `y` gives `y` as the second field. */
  lemma {:induction false} SecondFieldOfJoined(x: string, sep: string, y: string)
    requires |sep| == 2 && sep[0] !in x && sep[0] !in y
    ensures SecondField(x + sep + y, sep) == Some(y)
  {
    var s := x + sep + y;
    assert OccursAt(s, sep, |x|);
    assert FirstOccurrence(s, sep, |x|);
    assert IndexOf(s, sep, 0) == Some(|x|);
    assert IndexOf(s, sep, |x| + 2) == None;
    assert s[|x| + 2..|s|] == y;
  }

  /** A pattern cannot occur where its first character is missing. */
  lemma NoOccurrenceWithoutFirstChar(s: string, pat: string, k: int)
    requires |pat| > 0 && pat[0] !in s
    ensures !OccursAt(s, pat, k)
  {
    if 0 <= k && k + |pat| <= |s| {
      assert s[k..k + |pat|][0] == s[k];
    }
  }

  /** If the first character of `pat` is missing from `x`, every occurrence of
      `pat` in `x + y` lies wholly inside `y`. */
  lemma OccurrenceAfterPrefix(x: string, y: string, pat: string, k: int)
    requires |pat| > 0 && pat[0] !in x
    requires OccursAt(x + y, pat, k)
    ensures k >= |x| && OccursAt(y, pat, k - |x|)
  {
    var s := x + y;
    assert s[k..k + |pat|][0] == s[k];
    assert s[k..k + |pat|] == y[k - |x|..k - |x| + |pat|];
  }
}
