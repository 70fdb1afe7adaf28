/**
 * The few Ruby String and Array operations the core relies on:
 * `String#split` (with its removal of trailing empty fields),
 * `String#[start, length]`, `Array#last`, `String#gsub` with an empty
 * replacement, `String#<=>` and `String#to_i`.
 */
module RubyText {
  import opened Wrappers

  /** `sep` occurs somewhere in `s`. */
  predicate Contains(s: string, sep: string)
    decreases |s|
  {
    |s| >= |sep| && (s[..|sep|] == sep || Contains(s[1..], sep))
  }

  lemma {:induction false} ContainsChar(s: string, c: char)
    ensures Contains(s, [c]) <==> c in s
    decreases |s|
  {
    if |s| >= 1 {
      ContainsChar(s[1..], c);
      assert s == [s[0]] + s[1..];
    }
  }

  /** The fields of `s` between occurrences of `sep`, empty ones included. */
  function SplitFields(s: string, sep: string): (r: seq<string>)
    requires |sep| > 0
    ensures |r| >= 1
    decreases |s|
  {
    if |s| < |sep| then [s]
    else if s[..|sep|] == sep then [""] + SplitFields(s[|sep|..], sep)
    else
      var rest := SplitFields(s[1..], sep);
      [[s[0]] + rest[0]] + rest[1..]
  }

  lemma {:induction false} SplitFieldsAbsent(s: string, sep: string)
    requires |sep| > 0 && !Contains(s, sep)
    ensures SplitFields(s, sep) == [s]
    decreases |s|
  {
    if |s| >= |sep| {
      SplitFieldsAbsent(s[1..], sep);
      assert s == [s[0]] + s[1..];
    }
  }

  lemma SplitFieldsLeading(y: string, sep: string)
    requires |sep| > 0
    ensures SplitFields(sep + y, sep) == [""] + SplitFields(y, sep)
  {
    assert (sep + y)[..|sep|] == sep && (sep + y)[|sep|..] == y;
  }

  /** Splitting at the first occurrence of a one-character separator. */
  lemma {:induction false} SplitFieldsAt(x: string, c: char, y: string)
    requires c !in x
    ensures SplitFields(x + [c] + y, [c]) == [x] + SplitFields(y, [c])
    decreases |x|
  {
    if x == [] {
      SplitFieldsLeading(y, [c]);
      assert x + [c] + y == [c] + y;
    } else {
      SplitFieldsAt(x[1..], c, y);
      var s := x + [c] + y;
      assert s[1..] == x[1..] + [c] + y;
      assert s[..1] != [c];
      assert x == [x[0]] + x[1..];
    }
  }

  /** Splitting at the last occurrence of a one-character separator. */
  lemma {:induction false} SplitFieldsLast(x: string, c: char, y: string)
    requires c !in y
    ensures SplitFields(x + [c] + y, [c]) == SplitFields(x, [c]) + [y]
    decreases |x|
  {
    var s := x + [c] + y;
    if x == [] {
      assert s == [c] + y;
      SplitFieldsLeading(y, [c]);
      ContainsChar(y, c);
      SplitFieldsAbsent(y, [c]);
    } else {
      SplitFieldsLast(x[1..], c, y);
      assert s[1..] == x[1..] + [c] + y;
      assert s[..1] == x[..1];
    }
  }

  /** `fs.join(c)`. */
  function Join(fs: seq<string>, c: char): string
    requires fs != []
  {
    if |fs| == 1 then fs[0] else fs[0] + [c] + Join(fs[1..], c)
  }

  /** Splitting on one character undoes joining on it, when no field holds
      the character and the last field is not empty. */
  lemma {:induction false} SplitJoin(fs: seq<string>, c: char)
    requires fs != [] && fs[|fs| - 1] != ""
    requires forall i :: 0 <= i < |fs| ==> c !in fs[i]
    ensures Split(Join(fs, c), [c]) == fs
  {
    SplitFieldsJoin(fs, c);
  }

  lemma {:induction false} SplitFieldsJoin(fs: seq<string>, c: char)
    requires fs != []
    requires forall i :: 0 <= i < |fs| ==> c !in fs[i]
    ensures SplitFields(Join(fs, c), [c]) == fs
    decreases |fs|
  {
    if |fs| == 1 {
      ContainsChar(fs[0], c);
      SplitFieldsAbsent(fs[0], [c]);
    } else {
      SplitFieldsJoin(fs[1..], c);
      SplitFieldsAt(fs[0], c, Join(fs[1..], c));
      assert fs == [fs[0]] + fs[1..];
    }
  }

  /** Ruby drops the empty fields at the end of a split. */
  function DropTrailingEmpty(fs: seq<string>): (r: seq<string>)
    ensures |r| <= |fs| && r == fs[..|r|]
    ensures r == [] || r[|r| - 1] != ""
    ensures forall i :: |r| <= i < |fs| ==> fs[i] == ""
  {
    if fs == [] then []
    else if fs[|fs| - 1] == "" then DropTrailingEmpty(fs[..|fs| - 1])
    else fs
  }

  /** `s.split(sep)` for a separator that is not a single space. */
  function Split(s: string, sep: string): seq<string>
    requires |sep| > 0
  {
    DropTrailingEmpty(SplitFields(s, sep))
  }

  /** `a.last`, with `nil` for an empty array. */
  function Last(a: seq<string>): (r: Option<string>)
    ensures r.None? <==> a == []
    ensures r.Some? ==> r.value == a[|a| - 1]
  {
    if a == [] then None else Some(a[|a| - 1])
  }

  /** `a[i]`, with `nil` past the end. */
  function At(a: seq<string>, i: nat): (r: Option<string>)
    ensures r.Some? <==> i < |a|
    ensures r.Some? ==> r.value == a[i]
  {
    if i < |a| then Some(a[i]) else None
  }

  /** `s[start, length]`: `nil` when `start` is past the end, else the
      at most `length` characters from `start`. */
  function Slice(s: string, start: nat, length: nat): (r: Option<string>)
    ensures r.None? <==> start > |s|
    ensures r.Some? ==> |r.value| <= length && start + |r.value| <= |s| && s[start..start + |r.value|] == r.value
    ensures r.Some? && start + length <= |s| ==> |r.value| == length
  {
    if start > |s| then None
    else if start + length <= |s| then Some(s[start..start + length])
    else Some(s[start..])
  }

  /** `s.gsub(pat, '')`: every non-overlapping occurrence of `pat`, scanned
      from the left, removed. */
  function RemoveAll(s: string, pat: string): (r: string)
    requires |pat| > 0
    ensures |r| <= |s|
    decreases |s|
  {
    if |s| < |pat| then s
    else if s[..|pat|] == pat then RemoveAll(s[|pat|..], pat)
    else [s[0]] + RemoveAll(s[1..], pat)
  }

  lemma {:induction false} RemoveAllAbsent(s: string, pat: string)
    requires |pat| > 0 && !Contains(s, pat)
    ensures RemoveAll(s, pat) == s
    decreases |s|
  {
    if |s| >= |pat| {
      RemoveAllAbsent(s[1..], pat);
      assert s == [s[0]] + s[1..];
    }
  }

  /** Strict lexicographic order on code points, as `String#<=>` compares. */
  predicate Less(a: string, b: string)
    decreases |a|
  {
    if a == [] then b != []
    else if b == [] then false
    else if a[0] != b[0] then a[0] < b[0]
    else Less(a[1..], b[1..])
  }

  predicate LessEq(a: string, b: string) { a == b || Less(a, b) }

  lemma {:induction false} LessIrreflexive(a: string)
    ensures !Less(a, a)
    decreases |a|
  {
    if a != [] { LessIrreflexive(a[1..]); }
  }

  lemma {:induction false} LessTrichotomy(a: string, b: string)
    ensures a == b || Less(a, b) || Less(b, a)
    ensures !(Less(a, b) && Less(b, a))
    decreases |a|
  {
    if a != [] && b != [] && a[0] == b[0] {
      LessTrichotomy(a[1..], b[1..]);
      assert a == [a[0]] + a[1..] && b == [b[0]] + b[1..];
    }
  }

  lemma {:induction false} LessTransitive(a: string, b: string, c: string)
    requires Less(a, b) && Less(b, c)
    ensures Less(a, c)
    decreases |a|
  {
    if a != [] && a[0] == b[0] && b[0] == c[0] {
      LessTransitive(a[1..], b[1..], c[1..]);
    }
  }

  /** The ASCII white space that `String#split` separates words at. */
  predicate IsSpace(c: char)
  {
    c == ' ' || c == '\t' || c == '\n' || c == '\r' || c == '\U{000B}' || c == '\U{000C}'
  }

  /** The characters of Unicode's White_Space property, which the
      `[[:space:]]` class of Rails' `blank?` matches: the ASCII white space
      and the Unicode spaces beyond it. */
  predicate IsBlankChar(c: char)
  {
    || IsSpace(c)
    || c == '\U{0085}' || c == '\U{00A0}' || c == '\U{1680}'
    || ('\U{2000}' <= c <= '\U{200A}')
    || c == '\U{2028}' || c == '\U{2029}' || c == '\U{202F}' || c == '\U{205F}' || c == '\U{3000}'
  }

  /** `s =~ /\A[[:space:]]*\z/` */
  predicate AllSpace(s: string)
  {
    forall i :: 0 <= i < |s| ==> IsBlankChar(s[i])
  }

  predicate IsDigit(c: char) { '0' <= c <= '9' }

  /** The number of leading decimal digits of `s`. */
  function DigitRun(s: string): (n: nat)
    ensures n <= |s|
    ensures forall i :: 0 <= i < n ==> IsDigit(s[i])
    ensures n < |s| ==> !IsDigit(s[n])
  {
    if s == [] || !IsDigit(s[0]) then 0 else 1 + DigitRun(s[1..])
  }

  /** The value of a string of decimal digits. */
  function DigitsValue(s: string): (n: nat)
    requires forall i :: 0 <= i < |s| ==> IsDigit(s[i])
  {
    if s == [] then 0
    else
      assert IsDigit(s[|s| - 1]);
      DigitsValue(s[..|s| - 1]) * 10 + (s[|s| - 1] as int - '0' as int)
  }

  /** `s.to_i` on a string that begins with its digits: their value, or 0. */
  function ToI(s: string): (n: nat)
    ensures DigitRun(s) == 0 ==> n == 0
  {
    DigitsValue(s[..DigitRun(s)])
  }

  /** `n.to_s` for a natural number. */
  function NatToString(n: nat): (r: string)
    ensures |r| >= 1 && forall i :: 0 <= i < |r| ==> IsDigit(r[i])
  {
    var d := ['0', '1', '2', '3', '4', '5', '6', '7', '8', '9'][n % 10];
    if n < 10 then [d] else NatToString(n / 10) + [d]
  }

  /** `i.to_s` */
  function IntToString(i: int): string
  {
    if i < 0 then "-" + NatToString(-i) else NatToString(i)
  }

  /** `parts.join(sep)`, empty for no parts. */
  function JoinWith(parts: seq<string>, sep: string): string
  {
    if parts == [] then "" else if |parts| == 1 then parts[0] else parts[0] + sep + JoinWith(parts[1..], sep)
  }
}
