/** `short.TryParse(string?, out short)`: .NET's integer parsing with
    `NumberStyles.Integer` (optional leading and trailing white space, an
    optional leading sign, ASCII decimal digits) followed by the range check
    of a 16-bit signed integer. */
module NumberParsing {
  import opened Wrappers

  const MinInt16: int := -32768
  const MaxInt16: int := 32767

  /** The white space `NumberStyles.AllowLeadingWhite` and
      `AllowTrailingWhite` accept: U+0009..U+000D and U+0020. */
  predicate IsNumberWhite(c: char) {
    c == ' ' || '\t' <= c <= '\r'
  }

  /** Text made of number white space only (possibly none). */
  predicate AllWhite(w: string) {
    forall i :: 0 <= i < |w| ==> IsNumberWhite(w[i])
  }

  predicate IsDigit(c: char) {
    '0' <= c <= '9'
  }

  /** A non-empty run of decimal digits. */
  predicate IsDigits(ds: string) {
    ds != [] && forall i :: 0 <= i < |ds| ==> IsDigit(ds[i])
  }

  /** The value of a run of decimal digits, most significant first. */
  function DigitsValue(ds: string): nat
    requires forall i :: 0 <= i < |ds| ==> IsDigit(ds[i])
  {
    if ds == [] then 0
    else
      assert IsDigit(ds[|ds| - 1]);
      DigitsValue(ds[..|ds| - 1]) * 10 + (ds[|ds| - 1] as int - '0' as int)
  }

  /** `s` without its leading number white space. */
  function SkipLeadingWhite(s: string): string {
    if s != [] && IsNumberWhite(s[0]) then SkipLeadingWhite(s[1..]) else s
  }

  /** `s` without its trailing number white space. */
  function SkipTrailingWhite(s: string): string {
    if s != [] && IsNumberWhite(s[|s| - 1]) then SkipTrailingWhite(s[..|s| - 1]) else s
  }

  /** The integer `NumberStyles.Integer` reads from `s`, before any range
      check, or `None` when `s` is not of that form. */
  function ParseInteger(s: string): (r: Option<int>)
    ensures IsDigits(s) ==> r == Some(DigitsValue(s))
    ensures s == [] ==> r.None?
  {
    ParseSigned(SkipTrailingWhite(SkipLeadingWhite(s)))
  }

  /** An optional sign followed by a digit run, with no white space around. */
  function ParseSigned(body: string): Option<int> {
    if body != [] && (body[0] == '-' || body[0] == '+') then
      var digits := body[1..];
      if IsDigits(digits) then
        var magnitude: int := DigitsValue(digits);
        Some(if body[0] == '-' then -magnitude else magnitude)
      else None
    else if IsDigits(body) then Some(DigitsValue(body))
    else None
  }

  /** A character `NumberStyles.Integer` never accepts anywhere: not a
      digit, not number white space and not a sign. */
  predicate IsForeign(c: char) {
    !IsDigit(c) && !IsNumberWhite(c) && c != '-' && c != '+'
  }

  /** Skipping leading white space keeps every other character. */
  lemma {:induction false} SkipLeadingKeeps(s: string, c: char)
    requires c in s && !IsNumberWhite(c)
    ensures c in SkipLeadingWhite(s)
  {
    if s != [] && IsNumberWhite(s[0]) {
      assert s == [s[0]] + s[1..];
      SkipLeadingKeeps(s[1..], c);
    }
  }

  /** Skipping trailing white space keeps every other character. */
  lemma {:induction false} SkipTrailingKeeps(s: string, c: char)
    requires c in s && !IsNumberWhite(c)
    ensures c in SkipTrailingWhite(s)
  {
    if s != [] && IsNumberWhite(s[|s| - 1]) {
      assert s == s[..|s| - 1] + [s[|s| - 1]];
      SkipTrailingKeeps(s[..|s| - 1], c);
    }
  }

  /** Text holding a character that is neither a digit, number white space
      nor a sign is no integer. */
  lemma ForeignRejected(s: string, c: char)
    requires c in s && IsForeign(c)
    ensures ParseInteger(s).None?
  {
    SkipLeadingKeeps(s, c);
    SkipTrailingKeeps(SkipLeadingWhite(s), c);
    var body := SkipTrailingWhite(SkipLeadingWhite(s));
    var k :| 0 <= k < |body| && body[k] == c;
    if body[0] == '-' || body[0] == '+' {
      assert body[1..][k - 1] == c;
    }
  }

  /** White space in front of text that starts with something else is skipped. */
  lemma {:induction false} SkipLeadingOver(pre: string, x: string)
    requires AllWhite(pre)
    requires x != [] && !IsNumberWhite(x[0])
    ensures SkipLeadingWhite(pre + x) == x
  {
    if pre != [] {
      assert (pre + x)[1..] == pre[1..] + x;
      SkipLeadingOver(pre[1..], x);
    }
  }

  /** White space behind text that ends with something else is skipped. */
  lemma {:induction false} SkipTrailingOver(x: string, post: string)
    requires AllWhite(post)
    requires x != [] && !IsNumberWhite(x[|x| - 1])
    ensures SkipTrailingWhite(x + post) == x
  {
    if post != [] {
      var n := |post| - 1;
      assert (x + post)[..|x + post| - 1] == x + post[..n];
      SkipTrailingOver(x, post[..n]);
    } else {
      assert x + post == x;
    }
  }

  /** The form `NumberStyles.Integer` accepts: white space, an optional
      sign, a digit run, white space; it reads as the signed digit value. */
  lemma ReadsSignedDigits(pre: string, sign: string, ds: string, post: string)
    requires AllWhite(pre)
    requires AllWhite(post)
    requires sign == "" || sign == "-" || sign == "+"
    requires IsDigits(ds)
    ensures ParseInteger(pre + sign + ds + post)
            == Some(if sign == "-" then -(DigitsValue(ds) as int) else DigitsValue(ds) as int)
  {
    var x := sign + ds;
    assert !IsNumberWhite(x[0]) && !IsNumberWhite(x[|x| - 1]);
    SkipAround(pre, x, post);
    assert pre + sign + ds + post == pre + x + post;
    ReadsSigned(sign, ds);
  }

  /** The white space around `x` is skipped, and nothing of `x`. */
  lemma SkipAround(pre: string, x: string, post: string)
    requires AllWhite(pre)
    requires AllWhite(post)
    requires x != [] && !IsNumberWhite(x[0]) && !IsNumberWhite(x[|x| - 1])
    ensures SkipTrailingWhite(SkipLeadingWhite(pre + x + post)) == x
  {
    assert pre + x + post == pre + (x + post);
    SkipLeadingOver(pre, x + post);
    SkipTrailingOver(x, post);
  }

  /** A sign and a digit run read as the signed digit value. */
  lemma ReadsSigned(sign: string, ds: string)
    requires sign == "" || sign == "-" || sign == "+"
    requires IsDigits(ds)
    ensures ParseSigned(sign + ds) == Some(if sign == "-" then -(DigitsValue(ds) as int) else DigitsValue(ds) as int)
  {
    var x := sign + ds;
    if sign != "" {
      assert x[1..] == ds;
    } else {
      assert x == ds;
    }
  }

  /** The four parts of the text `NumberStyles.Integer` accepts: white
      space, an optional sign, a digit run, white space. */
  predicate IntegerForm(pre: string, sign: string, ds: string, post: string) {
    AllWhite(pre) && AllWhite(post) && (sign == "" || sign == "-" || sign == "+") && IsDigits(ds)
  }

  /** `s` is an integer in the `NumberStyles.Integer` form. */
  ghost predicate IsIntegerText(s: string) {
    exists pre, sign, ds, post :: s == pre + sign + ds + post && IntegerForm(pre, sign, ds, post)
  }

  /** What `SkipLeadingWhite` skips is white space in front of what it keeps. */
  lemma {:induction false} LeadingWhitePrefix(s: string) returns (pre: string)
    ensures s == pre + SkipLeadingWhite(s) && AllWhite(pre)
  {
    if s != [] && IsNumberWhite(s[0]) {
      var rest := LeadingWhitePrefix(s[1..]);
      pre := [s[0]] + rest;
      assert s == [s[0]] + s[1..];
    } else {
      pre := [];
    }
  }

  /** What `SkipTrailingWhite` skips is white space behind what it keeps. */
  lemma {:induction false} TrailingWhiteSuffix(s: string) returns (post: string)
    ensures s == SkipTrailingWhite(s) + post && AllWhite(post)
  {
    if s != [] && IsNumberWhite(s[|s| - 1]) {
      var n := |s| - 1;
      var rest := TrailingWhiteSuffix(s[..n]);
      post := rest + [s[n]];
      assert s == s[..n] + [s[n]];
    } else {
      post := [];
    }
  }

  /** What `ParseSigned` reads is an optional sign and a digit run. */
  lemma SignedParts(body: string) returns (sign: string, ds: string)
    requires ParseSigned(body).Some?
    ensures body == sign + ds && (sign == "" || sign == "-" || sign == "+") && IsDigits(ds)
  {
    if body[0] == '-' || body[0] == '+' {
      sign, ds := body[..1], body[1..];
    } else {
      sign, ds := "", body;
    }
    assert body == sign + ds;
  }

  /** Only text of the accepted form parses: white space, an optional sign,
      a digit run, white space, and nothing else in any order. */
  lemma ParsedIsWellFormed(s: string)
    requires ParseInteger(s).Some?
    ensures IsIntegerText(s)
  {
    var mid := SkipLeadingWhite(s);
    var body := SkipTrailingWhite(mid);
    assert ParseSigned(body).Some?;
    var pre := LeadingWhitePrefix(s);
    var post := TrailingWhiteSuffix(mid);
    var sign, ds := SignedParts(body);
    Regroup(pre, body + post, sign, ds, post);
    assert IntegerForm(pre, sign, ds, post);
  }

  /** Concatenation regrouped: the middle text split into its three parts. */
  lemma Regroup(pre: string, mid: string, sign: string, ds: string, post: string)
    requires mid == sign + ds + post
    ensures pre + mid == pre + sign + ds + post
  {
  }

  /** `NumberStyles.Integer` parsing succeeds exactly on text of its form. */
  lemma ParsesExactlyIntegerText(s: string)
    ensures ParseInteger(s).Some? <==> IsIntegerText(s)
  {
    if ParseInteger(s).Some? {
      ParsedIsWellFormed(s);
    }
    if IsIntegerText(s) {
      var pre, sign, ds, post :| s == pre + sign + ds + post && IntegerForm(pre, sign, ds, post);
      ReadsSignedDigits(pre, sign, ds, post);
    }
  }

  /** `short.TryParse`: `null`, text that is not an integer and integers
      outside [-32768, 32767] all fail. */
  function TryParseInt16(text: Option<string>): (r: Option<int>)
    ensures r.Some? ==> MinInt16 <= r.value <= MaxInt16
    ensures r.Some? ==> text.Some? && ParseInteger(text.value) == r
    ensures r.None? && text.Some? && ParseInteger(text.value).Some? ==>
              !(MinInt16 <= ParseInteger(text.value).value <= MaxInt16)
  {
    match text
    case None => None
    case Some(s) =>
      match ParseInteger(s)
      case None => None
      case Some(v) => if MinInt16 <= v <= MaxInt16 then Some(v) else None
  }

  /** The decimal digits of `n`, most significant first, without leading zeros. */
  function DecimalDigits(n: nat): (ds: string)
    ensures IsDigits(ds)
    ensures DigitsValue(ds) == n
  {
    var last := ['0' + ((n % 10) as char)];
    if n < 10 then last
    else
      var prefix := DecimalDigits(n / 10);
      assert (prefix + last)[..|prefix + last| - 1] == prefix;
      prefix + last
  }

  /** `n.ToString()` in the invariant culture. */
  function Format(n: int): string {
    if n < 0 then "-" + DecimalDigits(-n) else DecimalDigits(n)
  }

  /** Parsing reads back every integer that `Format` writes. */
  lemma ParseFormat(n: int)
    ensures ParseInteger(Format(n)) == Some(n)
  {
    var s := Format(n);
    var ds := DecimalDigits(if n < 0 then -n else n);
    assert !IsNumberWhite(s[0]) && !IsNumberWhite(s[|s| - 1]);
    assert SkipTrailingWhite(SkipLeadingWhite(s)) == s;
    if n < 0 {
      assert s[1..] == ds;
    } else {
      assert s[0] != '-' && s[0] != '+';
    }
  }

  /** `short.TryParse(n.ToString())` succeeds with `n` exactly when `n` is a
      16-bit value, and fails otherwise. */
  lemma TryParseInt16Format(n: int)
    ensures TryParseInt16(Some(Format(n))) == if MinInt16 <= n <= MaxInt16 then Some(n) else None
  {
    ParseFormat(n);
  }
}
