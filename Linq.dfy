/** The two LINQ queries the repositories are written with:
    `Where(predicate)` (a lazy, order-keeping filter, materialised by
    `ToList`) and `Where(predicate).FirstOrDefault()`. */
module Linq {
  import opened Wrappers

  /** `s.Where(p)`: the elements of `s` that satisfy `p`, in the order of `s`. */
  function Where<T>(s: seq<T>, p: T -> bool): (r: seq<T>)
    ensures |r| <= |s|
    ensures forall i :: 0 <= i < |r| ==> r[i] in s && p(r[i])
    ensures forall i :: 0 <= i < |s| && p(s[i]) ==> s[i] in r
  {
    if s == [] then []
    else if p(s[0]) then [s[0]] + Where(s[1..], p)
    else Where(s[1..], p)
  }

  /** Filtering distributes over concatenation: `Where` keeps the order of
      its input and decides each element on its own. */
  lemma {:induction false} WhereAppend<T>(a: seq<T>, b: seq<T>, p: T -> bool)
    ensures Where(a + b, p) == Where(a, p) + Where(b, p)
  {
    if a == [] {
      assert a + b == b;
    } else {
      assert (a + b)[0] == a[0];
      assert (a + b)[1..] == a[1..] + b;
      WhereAppend(a[1..], b, p);
    }
  }

  /** A filter that every element passes changes nothing. */
  lemma {:induction false} WhereKeepsAll<T>(s: seq<T>, p: T -> bool)
    requires forall i :: 0 <= i < |s| ==> p(s[i])
    ensures Where(s, p) == s
  {
    if s != [] {
      WhereKeepsAll(s[1..], p);
    }
  }

  /** A filter that rejects exactly one position drops exactly one element. */
  lemma {:induction false} WhereDropsOne<T>(s: seq<T>, p: T -> bool, k: nat)
    requires k < |s| && !p(s[k])
    requires forall i :: 0 <= i < |s| && i != k ==> p(s[i])
    ensures |Where(s, p)| == |s| - 1
  {
    if k == 0 {
      WhereKeepsAll(s[1..], p);
    } else {
      WhereDropsOne(s[1..], p, k - 1);
    }
  }

  /** The head of a non-empty filter is the first element that passes. */
  lemma {:induction false} WhereHead<T>(s: seq<T>, p: T -> bool)
    requires Where(s, p) != []
    ensures exists i :: 0 <= i < |s| && s[i] == Where(s, p)[0] && p(s[i])
                        && forall j :: 0 <= j < i ==> !p(s[j])
  {
    if !p(s[0]) {
      WhereHead(s[1..], p);
      var i :| 0 <= i < |s[1..]| && s[1..][i] == Where(s[1..], p)[0] && p(s[1..][i])
                && forall j :: 0 <= j < i ==> !p(s[1..][j]);
      assert s[i + 1] == Where(s, p)[0];
    }
  }

  /** `s.FirstOrDefault()` for a reference type: the first element, or `null`. */
  function FirstOrDefault<T>(s: seq<T>): Option<T> {
    if s == [] then None else Some(s[0])
  }

  /** `s.Where(p).FirstOrDefault()`: the first element that satisfies `p`,
      or `null` when none does. */
  function FirstWhere<T>(s: seq<T>, p: T -> bool): (r: Option<T>)
    ensures r.None? <==> forall i :: 0 <= i < |s| ==> !p(s[i])
    ensures r.Some? ==> exists i :: 0 <= i < |s| && s[i] == r.value && p(s[i])
                                    && forall j :: 0 <= j < i ==> !p(s[j])
  {
    var w := Where(s, p);
    if w != [] then WhereHead(s, p); FirstOrDefault(w) else FirstOrDefault(w)
  }
}
