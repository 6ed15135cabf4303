/** Searching, splitting and slicing of sequences with the semantics of the
    Python `str`/`bytes` methods the server calls: `find`, `rfind`, `split`,
    `removeprefix`, `removesuffix` and clamped slices. */
module Seqs {
  import opened Basics

  /** Regrouping a concatenation of four sequences behind the first. */
  lemma Reassociate<T>(a: seq<T>, b: seq<T>, c: seq<T>, d: seq<T>)
    ensures a + b + c + d == a + (b + c + d)
  {
  }

  /** `pat` occurs in `s` starting at index `j`. */
  predicate OccursAt<T(==)>(s: seq<T>, pat: seq<T>, j: int) {
    0 <= j && j + |pat| <= |s| && s[j..j + |pat|] == pat
  }

  /** `s.find(pat, from)`: the first index at or after `from` where `pat` occurs. */
  function IndexOfFrom<T(==)>(s: seq<T>, pat: seq<T>, from: nat): (r: Option<nat>)
    ensures r.Some? ==> from <= r.value && OccursAt(s, pat, r.value)
    ensures r.Some? ==> forall j :: from <= j < r.value ==> !OccursAt(s, pat, j)
    ensures r.None? ==> forall j :: from <= j ==> !OccursAt(s, pat, j)
    decreases |s| - from
  {
    if from + |pat| > |s| then None
    else if s[from..from + |pat|] == pat then Some(from)
    else IndexOfFrom(s, pat, from + 1)
  }

  /** `s.find(pat)`, with `None` for Python's -1. */
  function IndexOf<T(==)>(s: seq<T>, pat: seq<T>): Option<nat> {
    IndexOfFrom(s, pat, 0)
  }

  lemma OccursSingle<T>(s: seq<T>, c: T, j: int)
    ensures OccursAt(s, [c], j) <==> 0 <= j < |s| && s[j] == c
  {
    if 0 <= j < |s| && s[j] == c {
      assert s[j..j + 1] == [c];
    }
  }

  /** `s.find(c)` for a single element. */
  function Find<T(==)>(s: seq<T>, c: T): (r: Option<nat>)
    ensures r.Some? ==> r.value < |s| && s[r.value] == c && c !in s[..r.value]
    ensures r.None? <==> c !in s
  {
    var r := IndexOf(s, [c]);
    assert forall j :: OccursAt(s, [c], j) <==> 0 <= j < |s| && s[j] == c by {
      forall j ensures OccursAt(s, [c], j) <==> 0 <= j < |s| && s[j] == c {
        OccursSingle(s, c, j);
      }
    }
    r
  }

  /** `s.rfind(c)`: the last index holding `c`. */
  function LastIndexOf<T(==)>(s: seq<T>, c: T): (r: Option<nat>)
    ensures r.Some? ==> r.value < |s| && s[r.value] == c && c !in s[r.value + 1..]
    ensures r.None? <==> c !in s
  {
    if s == [] then None
    else if s[|s| - 1] == c then Some(|s| - 1)
    else
      var r := LastIndexOf(s[..|s| - 1], c);
      assert s == s[..|s| - 1] + [s[|s| - 1]];
      r
  }

  /** `s[k:]` in Python: an index past the end yields the empty sequence. */
  function SliceFrom<T>(s: seq<T>, k: nat): (r: seq<T>)
    ensures k <= |s| ==> r == s[k..]
    ensures k >= |s| ==> r == []
  {
    if k <= |s| then s[k..] else []
  }

  predicate StartsWith<T(==)>(s: seq<T>, p: seq<T>) {
    |p| <= |s| && s[..|p|] == p
  }

  predicate EndsWith<T(==)>(s: seq<T>, p: seq<T>) {
    |p| <= |s| && s[|s| - |p|..] == p
  }

  /** `s.removeprefix(p)`. */
  function RemovePrefix<T(==)>(s: seq<T>, p: seq<T>): (r: seq<T>)
    ensures StartsWith(s, p) ==> p + r == s
    ensures !StartsWith(s, p) ==> r == s
  {
    if StartsWith(s, p) then s[|p|..] else s
  }

  /** `s.removesuffix(p)`. */
  function RemoveSuffix<T(==)>(s: seq<T>, p: seq<T>): (r: seq<T>)
    ensures EndsWith(s, p) ==> r + p == s
    ensures !EndsWith(s, p) ==> r == s
  {
    if EndsWith(s, p) then s[..|s| - |p|] else s
  }

  lemma OccursInPrefix<T>(s: seq<T>, n: nat, pat: seq<T>, j: int)
    requires n <= |s| && OccursAt(s[..n], pat, j)
    ensures OccursAt(s, pat, j)
  {
    assert s[..n][j..j + |pat|] == s[j..j + |pat|];
  }

  lemma OccursInSuffix<T>(s: seq<T>, n: nat, pat: seq<T>, j: int)
    requires n <= |s| && OccursAt(s[n..], pat, j)
    ensures OccursAt(s, pat, j + n)
  {
    assert s[n..][j..j + |pat|] == s[j + n..j + n + |pat|];
  }

  /** `s.split(sep)`: the pieces between the occurrences of `sep`, found left
      to right; there is always one more piece than there are separators. */
  function Split<T(==)>(s: seq<T>, sep: seq<T>): (r: seq<seq<T>>)
    requires |sep| > 0
    ensures |r| >= 1
    ensures forall k, j :: 0 <= k < |r| ==> !OccursAt(r[k], sep, j)
    decreases |s|
  {
    match IndexOf(s, sep)
    case None => [s]
    case Some(i) =>
      var rest := Split(s[i + |sep|..], sep);
      forall j ensures !OccursAt(s[..i], sep, j) {
        if OccursAt(s[..i], sep, j) { OccursInPrefix(s, i, sep, j); }
      }
      [s[..i]] + rest
  }

  /** `sep.join(parts)`. */
  function Join<T>(parts: seq<seq<T>>, sep: seq<T>): seq<T>
    requires |parts| >= 1
  {
    if |parts| == 1 then parts[0] else parts[0] + sep + Join(parts[1..], sep)
  }

  /** Splitting loses nothing: joining the pieces with the separator gives
      back the input. */
  lemma {:induction false} JoinSplit<T>(s: seq<T>, sep: seq<T>)
    requires |sep| > 0
    ensures Join(Split(s, sep), sep) == s
    decreases |s|
  {
    match IndexOf(s, sep)
    case None =>
      assert Split(s, sep) == [s];
    case Some(i) =>
      var rest := s[i + |sep|..];
      JoinSplit(rest, sep);
      SplitAt(s, sep, i);
      var parts := Split(s, sep);
      assert parts[0] == s[..i] && parts[1..] == Split(rest, sep);
  }

  /** Where the first separator sits, the split takes one piece off the
      front and goes on after the separator. */
  lemma SplitAt<T>(s: seq<T>, sep: seq<T>, i: nat)
    requires |sep| > 0 && IndexOf(s, sep) == Some(i)
    ensures Split(s, sep) == [s[..i]] + Split(s[i + |sep|..], sep)
    ensures s == s[..i] + sep + s[i + |sep|..]
  {
    assert s == s[..i] + s[i..i + |sep|] + s[i + |sep|..];
  }

  /** The first piece of a split ends at the first separator. */
  lemma SplitAtFirst<T>(a: seq<T>, c: T, b: seq<T>)
    requires c !in a
    ensures Split(a + [c] + b, [c]) == [a] + Split(b, [c])
  {
    var s := a + [c] + b;
    assert OccursAt(s, [c], |a|) by { OccursSingle(s, c, |a|); }
    forall j | 0 <= j < |a| ensures !OccursAt(s, [c], j) {
      OccursSingle(s, c, j);
      assert s[j] == a[j];
    }
    assert IndexOf(s, [c]) == Some(|a|);
    assert s[..|a|] == a;
    assert s[|a| + 1..] == b;
  }

  /** A sequence free of the separator splits into itself alone. */
  lemma SplitWithout<T>(s: seq<T>, c: T)
    requires c !in s
    ensures Split(s, [c]) == [s]
  {
    assert Find(s, c).None?;
  }

  /** An occurrence of `pat` at `j` puts each of its elements in place. */
  lemma OccursAtElement<T>(s: seq<T>, pat: seq<T>, j: int, k: nat)
    requires k < |pat|
    ensures OccursAt(s, pat, j) ==> s[j + k] == pat[k]
  {
    if OccursAt(s, pat, j) {
      assert s[j..j + |pat|][k] == s[j + k];
    }
  }

  /** When nothing before `a`'s end starts an occurrence, the separator
      written after `a` is the first one. */
  lemma IndexOfAfter<T>(a: seq<T>, sep: seq<T>, b: seq<T>)
    requires |sep| > 0
    requires forall j :: 0 <= j < |a| ==> !OccursAt(a + sep + b, sep, j)
    ensures IndexOf(a + sep + b, sep) == Some(|a|)
  {
    var s := a + sep + b;
    assert s[|a|..|a| + |sep|] == sep;
    assert OccursAt(s, sep, |a|);
  }

  /** A piece that lacks the separator's first element cannot start an
      occurrence. */
  lemma NoHeadNoOccurrence<T>(a: seq<T>, sep: seq<T>, b: seq<T>)
    requires |sep| > 0 && sep[0] !in a
    ensures forall j :: 0 <= j < |a| ==> !OccursAt(a + b, sep, j)
  {
    forall j | 0 <= j < |a| ensures !OccursAt(a + b, sep, j) {
      OccursAtElement(a + b, sep, j, 0);
      assert (a + b)[j] == a[j];
    }
  }

  /** Splitting inverts joining when no piece holds the separator's first
      element. */
  lemma {:induction false} SplitJoin<T>(parts: seq<seq<T>>, sep: seq<T>)
    requires |sep| > 0 && |parts| >= 1
    requires forall i :: 0 <= i < |parts| ==> sep[0] !in parts[i]
    ensures Split(Join(parts, sep), sep) == parts
    decreases |parts|
  {
    var p := parts[0];
    if |parts| == 1 {
      NoHeadNoOccurrence(p, sep, []);
      assert p + [] == p;
      assert IndexOf(p, sep).None?;
    } else {
      var rest := Join(parts[1..], sep);
      NoHeadNoOccurrence(p, sep, sep + rest);
      assert p + (sep + rest) == p + sep + rest;
      IndexOfAfter(p, sep, rest);
      var s := p + sep + rest;
      assert s[..|p|] == p && s[|p| + |sep|..] == rest;
      SplitJoin(parts[1..], sep);
      assert parts == [p] + parts[1..];
    }
  }
}
