/** The .NET string operations the repositories and controllers rely on:
    `char.IsWhiteSpace`, `string.IsNullOrWhiteSpace`, `string.Trim` and
    `string.ToLower`, and the normalisation `s.ToLower().Trim()` used by
    every id, name and title comparison. */
module Text {
  import opened Wrappers

  /** `char.IsWhiteSpace`: the Unicode separators plus the control
      characters U+0009..U+000D and U+0085. */
  predicate IsWhiteSpace(c: char) {
    || c == ' '
    || '\t' <= c <= '\r'
    || c == '\U{0085}' || c == '\U{00A0}' || c == '\U{1680}'
    || '\U{2000}' <= c <= '\U{200A}'
    || c == '\U{2028}' || c == '\U{2029}' || c == '\U{202F}' || c == '\U{205F}'
    || c == '\U{3000}'
  }

  /** `string.IsNullOrWhiteSpace` of a non-null string: empty or white space only. */
  predicate IsBlank(s: string) {
    forall i :: 0 <= i < |s| ==> IsWhiteSpace(s[i])
  }

  /** Number of white-space characters at the start of `s`. */
  function LeadingWhiteSpace(s: string): (n: nat)
    ensures n <= |s|
  {
    if s != [] && IsWhiteSpace(s[0]) then 1 + LeadingWhiteSpace(s[1..]) else 0
  }

  /** `LeadingWhiteSpace` counts exactly the white-space prefix. */
  lemma {:induction false} LeadingWhiteSpaceSpec(s: string)
    ensures forall i :: 0 <= i < LeadingWhiteSpace(s) ==> IsWhiteSpace(s[i])
    ensures LeadingWhiteSpace(s) < |s| ==> !IsWhiteSpace(s[LeadingWhiteSpace(s)])
  {
    if s != [] && IsWhiteSpace(s[0]) {
      LeadingWhiteSpaceSpec(s[1..]);
    }
  }

  /** Number of white-space characters at the end of `s`. */
  function TrailingWhiteSpace(s: string): (n: nat)
    ensures n <= |s|
  {
    if s != [] && IsWhiteSpace(s[|s| - 1]) then 1 + TrailingWhiteSpace(s[..|s| - 1]) else 0
  }

  /** `TrailingWhiteSpace` counts exactly the white-space suffix. */
  lemma {:induction false} TrailingWhiteSpaceSpec(s: string)
    ensures forall i :: |s| - TrailingWhiteSpace(s) <= i < |s| ==> IsWhiteSpace(s[i])
    ensures TrailingWhiteSpace(s) < |s| ==> !IsWhiteSpace(s[|s| - 1 - TrailingWhiteSpace(s)])
  {
    if s != [] && IsWhiteSpace(s[|s| - 1]) {
      TrailingWhiteSpaceSpec(s[..|s| - 1]);
    }
  }

  /** `string.Trim()`: `s` without its leading and trailing white space. */
  function Trim(s: string): (r: string)
    ensures |r| <= |s|
  {
    var rest := s[LeadingWhiteSpace(s)..];
    rest[..|rest| - TrailingWhiteSpace(rest)]
  }

  /** The white-space prefix `LeadingWhiteSpace` counts is blank. */
  lemma LeadingIsBlank(s: string)
    ensures IsBlank(s[..LeadingWhiteSpace(s)])
  {
    LeadingWhiteSpaceSpec(s);
    var head := s[..LeadingWhiteSpace(s)];
    forall j | 0 <= j < |head|
      ensures IsWhiteSpace(head[j])
    {
      assert head[j] == s[j];
    }
  }

  /** The white-space suffix `TrailingWhiteSpace` counts is blank. */
  lemma TrailingIsBlank(s: string)
    ensures IsBlank(s[|s| - TrailingWhiteSpace(s)..])
  {
    TrailingWhiteSpaceSpec(s);
    var n := |s| - TrailingWhiteSpace(s);
    var tail := s[n..];
    forall j | 0 <= j < |tail|
      ensures IsWhiteSpace(tail[j])
    {
      assert tail[j] == s[n + j];
    }
  }

  /** A slice of a suffix is a slice of the whole string. */
  lemma SliceOfSuffix(s: string, lo: nat, a: nat, b: nat)
    requires lo <= |s| && a <= b <= |s| - lo
    ensures s[lo..][a..b] == s[lo + a..lo + b]
    ensures s[lo..][a..] == s[lo + a..]
  {
    var left := s[lo..][a..b];
    forall k | 0 <= k < b - a
      ensures left[k] == s[lo + a + k]
    {
    }
    var tail := s[lo..][a..];
    forall k | 0 <= k < |tail|
      ensures tail[k] == s[lo + a + k]
    {
    }
  }

  /** `Trim(s)` is the slice of `s` after its leading white space. */
  lemma TrimIsSlice(s: string)
    ensures var lo := LeadingWhiteSpace(s);
      lo + |Trim(s)| <= |s| && Trim(s) == s[lo..lo + |Trim(s)|]
  {
    var lo := LeadingWhiteSpace(s);
    var rest := s[lo..];
    var n := |rest| - TrailingWhiteSpace(rest);
    assert Trim(s) == rest[..n];
    SliceOfSuffix(s, lo, 0, n);
  }

  /** What `Trim(s)` cuts off after the slice is white space. */
  lemma TrimCutsBlankTail(s: string)
    ensures var lo := LeadingWhiteSpace(s);
      lo + |Trim(s)| <= |s| && IsBlank(s[lo + |Trim(s)|..])
  {
    var lo := LeadingWhiteSpace(s);
    var rest := s[lo..];
    var n := |rest| - TrailingWhiteSpace(rest);
    assert |Trim(s)| == n;
    SliceOfSuffix(s, lo, n, |rest|);
    TrailingIsBlank(rest);
    var cut := rest[n..];
    assert IsBlank(cut);
    assert cut == s[lo + n..];
  }

  /** `Trim(s)` is the middle of `s`, and what was cut off on either side
      is white space. */
  lemma TrimSpec(s: string)
    ensures var r := Trim(s); var lo := LeadingWhiteSpace(s);
      && lo + |r| <= |s| && r == s[lo..lo + |r|] && IsBlank(s[..lo]) && IsBlank(s[lo + |r|..])
  {
    TrimIsSlice(s);
    LeadingIsBlank(s);
    TrimCutsBlankTail(s);
  }

  /** `Trim(s)` neither starts nor ends with white space. */
  lemma TrimEnds(s: string)
    ensures var r := Trim(s); r != [] ==> !IsWhiteSpace(r[0]) && !IsWhiteSpace(r[|r| - 1])
  {
    var lo := LeadingWhiteSpace(s);
    var rest := s[lo..];
    var t := TrailingWhiteSpace(rest);
    LeadingWhiteSpaceSpec(s);
    TrailingWhiteSpaceSpec(rest);
    var r := Trim(s);
    if r != [] {
      assert r[0] == rest[0] && r[|r| - 1] == rest[|rest| - 1 - t];
    }
  }

  /** `Trim(s)` is empty exactly when `s` is blank. */
  lemma TrimEmpty(s: string)
    ensures Trim(s) == [] <==> IsBlank(s)
  {
    var lo := LeadingWhiteSpace(s);
    var rest := s[lo..];
    var t := TrailingWhiteSpace(rest);
    LeadingWhiteSpaceSpec(s);
    TrailingWhiteSpaceSpec(rest);
    if Trim(s) == [] {
      assert lo == |s|;
    }
  }

  /** `char.ToLower`, restricted to the ASCII letters. */
  function Lower(c: char): char {
    if 'A' <= c <= 'Z' then (c as int - 'A' as int + 'a' as int) as char else c
  }

  /** `string.ToLower()`: `Lower` applied to every character. */
  function ToLower(s: string): (r: string)
    ensures |r| == |s|
  {
    seq(|s|, i requires 0 <= i < |s| => Lower(s[i]))
  }

  /** `s.ToLower().Trim()`, the key every lookup in the repositories compares. */
  function Norm(s: string): (r: string)
    ensures |r| <= |s|
  {
    Trim(ToLower(s))
  }

  /** `s?.ToLower().Trim()`: the null-conditional form, which keeps `null`. */
  function NormOpt(s: Option<string>): (r: Option<string>)
    ensures r.Some? <==> s.Some?
  {
    match s
    case None => None
    case Some(v) => Some(Norm(v))
  }

  /** Trimming twice trims nothing more. */
  lemma TrimIdempotent(s: string)
    ensures Trim(Trim(s)) == Trim(s)
  {
    var r := Trim(s);
    TrimEnds(s);
    if r != [] {
      assert LeadingWhiteSpace(r) == 0;
      assert TrailingWhiteSpace(r) == 0;
    }
  }

  /** Lowering a string moves no white space. */
  lemma {:induction false} LeadingWhiteSpaceOfLower(s: string)
    ensures LeadingWhiteSpace(ToLower(s)) == LeadingWhiteSpace(s)
  {
    if s != [] {
      assert ToLower(s)[0] == Lower(s[0]);
      LowerSlice(s, 1, |s|);
      assert s[1..|s|] == s[1..] && ToLower(s)[1..|s|] == ToLower(s)[1..];
      LeadingWhiteSpaceOfLower(s[1..]);
    }
  }

  /** Lowering a string moves no white space, counted from the end. */
  lemma {:induction false} TrailingWhiteSpaceOfLower(s: string)
    ensures TrailingWhiteSpace(ToLower(s)) == TrailingWhiteSpace(s)
  {
    if s != [] {
      var n := |s|;
      LowerSlice(s, 0, n - 1);
      TrailingWhiteSpaceOfLower(s[..n - 1]);
    }
  }

  /** Lowering commutes with every slice. */
  lemma LowerSlice(s: string, i: nat, j: nat)
    requires i <= j <= |s|
    ensures ToLower(s)[i..j] == ToLower(s[i..j])
  {
    var whole := ToLower(s)[i..j];
    var part := ToLower(s[i..j]);
    forall k | 0 <= k < j - i
      ensures whole[k] == part[k]
    {
      assert whole[k] == Lower(s[i + k]) == part[k];
    }
  }

  /** `ToLower` and `Trim` commute. */
  lemma LowerTrimCommute(s: string)
    ensures Trim(ToLower(s)) == ToLower(Trim(s))
  {
    var lo := LeadingWhiteSpace(s);
    var rest := s[lo..];
    var t := TrailingWhiteSpace(rest);
    LeadingWhiteSpaceOfLower(s);
    LowerSlice(s, lo, |s|);
    var lowRest := ToLower(s)[LeadingWhiteSpace(ToLower(s))..];
    assert s[lo..|s|] == rest;
    assert lowRest == ToLower(s)[lo..|s|];
    TrailingWhiteSpaceOfLower(rest);
    LowerSlice(rest, 0, |rest| - t);
    calc {
      Trim(ToLower(s));
      lowRest[..|lowRest| - TrailingWhiteSpace(lowRest)];
      ToLower(rest)[..|rest| - t];
      ToLower(rest[..|rest| - t]);
      ToLower(Trim(s));
    }
  }

  /** Comparing `Norm(id.Trim())` is comparing `Norm(id)`: the controllers
      trim an id before the repository normalises it again. */
  lemma NormOfTrim(s: string)
    ensures Norm(Trim(s)) == Norm(s)
  {
    calc {
      Norm(Trim(s));
      Trim(ToLower(Trim(s)));
      { LowerTrimCommute(s); }
      Trim(Trim(ToLower(s)));
      { TrimIdempotent(ToLower(s)); }
      Trim(ToLower(s));
    }
  }
}
