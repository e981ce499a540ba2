/**
 * The .NET string operations the converters use, over `seq<char>`:
 * ordinal `StartsWith`/`EndsWith`/`IndexOf`, `Trim` over a fixed whitespace
 * set, left-to-right `Replace`, `Split` with `RemoveEmptyEntries`, and
 * `string.Join`.
 */
module Text {

  /** `Environment.NewLine` on the Windows desktop the tool targets. */
  const NewLine: string := "\r\n"

  /** The characters `Trim` removes (a fixed subset of `Char.IsWhiteSpace`). */
  predicate IsWhiteSpace(c: char) {
    c == ' ' || c == '\t' || c == '\n' || c == '\r' || c == '\U{000B}' || c == '\U{000C}'
  }

  /** `string.IsNullOrWhiteSpace` for a non-null string. */
  predicate IsBlank(s: string) {
    forall i :: 0 <= i < |s| ==> IsWhiteSpace(s[i])
  }

  predicate StartsWith(s: string, prefix: string) {
    |prefix| <= |s| && s[..|prefix|] == prefix
  }

  predicate EndsWith(s: string, suffix: string) {
    |suffix| <= |s| && s[|s| - |suffix|..] == suffix
  }

  /** `s.TrimStart()`: what is left once the leading whitespace is gone. */
  function TrimStart(s: string): (r: string)
    ensures |r| <= |s| && r == s[|s| - |r|..]
    ensures IsBlank(s[..|s| - |r|])
    ensures r == [] || !IsWhiteSpace(r[0])
  {
    if |s| > 0 && IsWhiteSpace(s[0]) then
      var r := TrimStart(s[1..]);
      assert s[1..][..|s| - 1 - |r|] == s[1..|s| - |r|];
      r
    else s
  }

  /** `s.TrimEnd()`: what is left once the trailing whitespace is gone. */
  function TrimEnd(s: string): (r: string)
    ensures |r| <= |s| && r == s[..|r|]
    ensures IsBlank(s[|r|..])
    ensures r == [] || !IsWhiteSpace(r[|r| - 1])
  {
    if |s| > 0 && IsWhiteSpace(s[|s| - 1]) then
      var r := TrimEnd(s[..|s| - 1]);
      assert s[|r|..] == s[..|s| - 1][|r|..] + [s[|s| - 1]];
      r
    else s
  }

  /** `s.Trim()`. */
  function Trim(s: string): (r: string)
  {
    TrimEnd(TrimStart(s))
  }

  /** A trimmed string is empty exactly when the original was blank. */
  lemma TrimEmptyIffBlank(s: string)
    ensures Trim(s) == [] <==> IsBlank(s)
  {
    var t := TrimStart(s);
    if Trim(s) == [] {
      assert t[|Trim(s)|..] == t;
      assert t == [];
      assert s[..|s|] == s;
    } else {
      var k := |s| - |t|;
      assert t[0] == s[k];
    }
  }

  /** `TrimEnd` is determined by the position of the last non-whitespace character. */
  lemma {:induction false} TrimEndAt(s: string, k: nat)
    requires k <= |s| && IsBlank(s[k..])
    requires k == 0 || !IsWhiteSpace(s[k - 1])
    ensures TrimEnd(s) == s[..k]
    decreases |s|
  {
    if |s| > k {
      assert IsWhiteSpace(s[k..][|s| - 1 - k]);
      var p := s[..|s| - 1];
      assert p[k..] == s[k..|s| - 1];
      assert p[..k] == s[..k];
      if k > 0 { assert p[k - 1] == s[k - 1]; }
      TrimEndAt(p, k);
    } else {
      assert s[..k] == s;
    }
  }

  /** Trimming the end keeps a prefix that ends in a non-whitespace character, and adds none. */
  lemma TrimEndKeepsPrefix(t: string, prefix: string)
    requires prefix != [] && !IsWhiteSpace(prefix[|prefix| - 1])
    ensures StartsWith(TrimEnd(t), prefix) <==> StartsWith(t, prefix)
  {
    var r := TrimEnd(t);
    var n := |prefix|;
    if StartsWith(t, prefix) {
      assert t[n - 1] == prefix[n - 1];
      NonWhiteBeforeBlank(t, |r|, n - 1);
      assert r[..n] == t[..n];
    }
    if StartsWith(r, prefix) {
      assert r[..n] == t[..n];
    }
  }

  /** Trimming both ends tests a prefix that ends in a non-whitespace character as `TrimStart` does. */
  lemma TrimKeepsPrefix(s: string, prefix: string)
    requires prefix != [] && !IsWhiteSpace(prefix[|prefix| - 1])
    ensures StartsWith(Trim(s), prefix) <==> StartsWith(TrimStart(s), prefix)
  {
    TrimEndKeepsPrefix(TrimStart(s), prefix);
  }

  /** A non-whitespace character lies past any blank prefix. */
  lemma NonWhiteAfterBlank(s: string, m: nat, i: int)
    requires m <= |s| && IsBlank(s[..m]) && 0 <= i < |s| && !IsWhiteSpace(s[i])
    ensures m <= i
  {
  }

  /** A non-whitespace character lies before any blank suffix. */
  lemma NonWhiteBeforeBlank(s: string, e: nat, i: int)
    requires e <= |s| && IsBlank(s[e..]) && 0 <= i < |s| && !IsWhiteSpace(s[i])
    ensures i < e
  {
  }

  /** Trimming the end of `s[m..]` stops where trimming the end of `s` does, once that is not before `m`. */
  lemma TrimEndOfSuffix(s: string, m: nat, e: nat)
    requires m <= e <= |s| && IsBlank(s[e..])
    requires e == 0 || !IsWhiteSpace(s[e - 1])
    ensures TrimEnd(s[m..]) == s[m..e]
  {
    var t := s[m..];
    assert t[e - m..] == s[e..];
    if e - m > 0 { assert t[e - m - 1] == s[e - 1]; }
    TrimEndAt(t, e - m);
    assert t[..e - m] == s[m..e];
  }

  /** Unless the string is blank, trimming the start stops before trimming the end does. */
  lemma TrimPointsOrdered(s: string)
    ensures TrimStart(s) != [] || TrimEnd(s) != [] ==> |s| - |TrimStart(s)| < |TrimEnd(s)|
  {
    var t := TrimStart(s);
    var m := |s| - |t|;
    var e := |TrimEnd(s)|;
    if t != [] {
      assert t[0] == s[m];
      NonWhiteBeforeBlank(s, e, m);
    }
    if e > 0 {
      assert TrimEnd(s)[e - 1] == s[e - 1];
      NonWhiteAfterBlank(s, m, e - 1);
    }
  }

  /** `Trim` leaves the text between the first and the last non-whitespace character. */
  lemma {:induction false} TrimSpan(s: string)
    ensures |s| - |TrimStart(s)| <= |TrimEnd(s)| ==> Trim(s) == s[|s| - |TrimStart(s)|..|TrimEnd(s)|]
    ensures |s| - |TrimStart(s)| > |TrimEnd(s)| ==> Trim(s) == [] && |TrimEnd(s)| == 0
  {
    var m := |s| - |TrimStart(s)|;
    var e := |TrimEnd(s)|;
    TrimPointsOrdered(s);
    if m <= e {
      TrimEndOfSuffix(s, m, e);
    }
  }

  /**
   * Past a blank prefix `s[..m]`, a suffix that starts with a non-whitespace
   * character ends `s[m..e]` exactly when it ends `s[..e]`.
   */
  lemma SpanKeepsSuffix(s: string, m: nat, e: nat, suffix: string)
    requires m <= e <= |s| && IsBlank(s[..m])
    requires suffix != [] && !IsWhiteSpace(suffix[0])
    ensures EndsWith(s[m..e], suffix) <==> EndsWith(s[..e], suffix)
  {
    var k := e - |suffix|;
    if EndsWith(s[..e], suffix) {
      assert s[k] == s[..e][k..][0];
      NonWhiteAfterBlank(s, m, k);
      assert s[m..e][e - m - |suffix|..] == s[..e][k..];
    }
    if EndsWith(s[m..e], suffix) {
      assert s[..e][k..] == s[m..e][e - m - |suffix|..];
    }
  }

  /** Trimming both ends tests a suffix that starts with a non-whitespace character as `TrimEnd` does. */
  lemma {:induction false} TrimKeepsSuffix(s: string, suffix: string)
    requires suffix != [] && !IsWhiteSpace(suffix[0])
    ensures EndsWith(Trim(s), suffix) <==> EndsWith(TrimEnd(s), suffix)
  {
    var m := |s| - |TrimStart(s)|;
    var e := |TrimEnd(s)|;
    TrimSpan(s);
    if m <= e {
      assert Trim(s) == s[m..e] && TrimEnd(s) == s[..e];
      SpanKeepsSuffix(s, m, e, suffix);
    } else {
      assert Trim(s) == [] && TrimEnd(s) == [];
    }
  }

  /** The number of occurrences of `c` in `s`. */
  function CountChar(s: string, c: char): (n: nat)
    ensures n <= |s|
    ensures n == 0 <==> c !in s
  {
    if s == [] then 0 else (if s[0] == c then 1 else 0) + CountChar(s[1..], c)
  }

  lemma {:induction false} CountCharConcat(a: string, b: string, c: char)
    ensures CountChar(a + b, c) == CountChar(a, c) + CountChar(b, c)
  {
    if a != [] {
      assert (a + b)[1..] == a[1..] + b;
      CountCharConcat(a[1..], b, c);
    } else {
      assert a + b == b;
    }
  }

  /**
   * Replacing the span `s[p..q]`, which ends in a `c` and holds no other one,
   * by a text without `c` removes exactly one `c`.
   */
  lemma CountCharSplice(s: string, p: nat, q: nat, middle: string, c: char)
    requires p <= q < |s| && s[q] == c && c !in s[p..q] && c !in middle
    ensures CountChar(s[..p] + middle + s[q + 1..], c) + 1 == CountChar(s, c)
  {
    assert s == s[..p] + (s[p..q] + ([s[q]] + s[q + 1..]));
    CountCharConcat(s[..p], s[p..q] + ([s[q]] + s[q + 1..]), c);
    CountCharConcat(s[p..q], [s[q]] + s[q + 1..], c);
    CountCharConcat([s[q]], s[q + 1..], c);
    CountCharConcat(s[..p] + middle, s[q + 1..], c);
    CountCharConcat(s[..p], middle, c);
  }

  /** True when `pattern` occurs in `s` starting at position `k`. */
  predicate OccursAt(s: string, pattern: string, k: int) {
    0 <= k && k + |pattern| <= |s| && s[k..k + |pattern|] == pattern
  }

  /**
   * `s.IndexOf(pattern, from)`: the first position at or after `from` where
   * `pattern` occurs, or -1 when it occurs nowhere from there on.
   */
  function IndexOf(s: string, pattern: string, from: nat): (r: int)
    requires |pattern| > 0
    ensures r == -1 || (from <= r && OccursAt(s, pattern, r))
    ensures forall k :: from <= k && (r == -1 || k < r) ==> !OccursAt(s, pattern, k)
    decreases |s| - from
  {
    if from + |pattern| > |s| then -1
    else if s[from..from + |pattern|] == pattern then from
    else IndexOf(s, pattern, from + 1)
  }

  /** The first occurrence of a character `c` in `s` is at an index with no earlier `c`. */
  lemma FirstIndexOfChar(s: string, c: char, k: int)
    requires c in s && k == IndexOf(s, [c], 0)
    ensures 0 <= k < |s| && s[k] == c && c !in s[..k]
  {
    var i :| 0 <= i < |s| && s[i] == c;
    OccursAtChar(s, c, i);
    OccursAtChar(s, c, k);
    forall j | 0 <= j < k
      ensures s[..k][j] != c
    {
      OccursAtChar(s, c, j);
    }
  }

  /** A one-character pattern occurs exactly where that character is. */
  lemma OccursAtChar(s: string, c: char, i: int)
    requires 0 <= i < |s|
    ensures OccursAt(s, [c], i) <==> s[i] == c
  {
    assert s[i..i + 1] == [s[i]];
  }

  /**
   * `s.Replace(pattern, replacement)`: every occurrence found scanning from the
   * left, never overlapping an earlier one, is replaced.
   */
  function Replace(s: string, pattern: string, replacement: string): (r: string)
    requires |pattern| > 0
    decreases |s|
  {
    if |s| < |pattern| then s
    else if s[..|pattern|] == pattern then replacement + Replace(s[|pattern|..], pattern, replacement)
    else [s[0]] + Replace(s[1..], pattern, replacement)
  }

  /** Removing every occurrence of one character leaves none of it. */
  lemma {:induction false} RemoveCharLeavesNone(s: string, c: char)
    ensures c !in Replace(s, [c], "")
    decreases |s|
  {
    if |s| >= 1 {
      RemoveCharLeavesNone(s[1..], c);
    }
  }

  /** Removing a character that does not occur changes nothing. */
  lemma {:induction false} RemoveAbsentChar(s: string, c: char)
    requires c !in s
    ensures Replace(s, [c], "") == s
    decreases |s|
  {
    if |s| >= 1 {
      assert c !in s[1..];
      RemoveAbsentChar(s[1..], c);
      assert s == [s[0]] + s[1..];
    }
  }

  /** Removing one character never adds another one. */
  lemma {:induction false} RemoveCharKeepsOthers(s: string, c: char, d: char)
    requires d !in s
    ensures d !in Replace(s, [c], "")
    decreases |s|
  {
    if |s| >= 1 {
      assert d !in s[1..];
      RemoveCharKeepsOthers(s[1..], c, d);
    }
  }

  /** Replacing never brings in a character that neither the string nor the replacement holds. */
  lemma {:induction false} ReplaceKeepsAbsent(s: string, pattern: string, replacement: string, d: char)
    requires |pattern| > 0 && d !in s && d !in replacement
    ensures d !in Replace(s, pattern, replacement)
    decreases |s|
  {
    if |s| >= |pattern| {
      if s[..|pattern|] == pattern {
        assert d !in s[|pattern|..];
        ReplaceKeepsAbsent(s[|pattern|..], pattern, replacement, d);
      } else {
        assert d !in s[1..];
        ReplaceKeepsAbsent(s[1..], pattern, replacement, d);
      }
    }
  }

  /**
   * `s` with every `c` dropped and the other characters kept in order, built
   * from the right: the reference for `Replace(s, [c], "")`.
   */
  function Without(s: string, c: char): (r: string)
    ensures c !in r
    ensures |r| + CountChar(s, c) == |s|
    ensures forall d :: d in s && d != c ==> d in r
  {
    if s == [] then []
    else
      var n := |s| - 1;
      assert s == s[..n] + [s[n]];
      CountCharConcat(s[..n], [s[n]], c);
      Without(s[..n], c) + (if s[n] == c then [] else [s[n]])
  }

  /** Removing one character distributes over concatenation. */
  lemma {:induction false} RemoveCharAppend(a: string, b: string, c: char)
    ensures Replace(a + b, [c], "") == Replace(a, [c], "") + Replace(b, [c], "")
    decreases |a|
  {
    if a == [] {
      assert a + b == b;
    } else {
      assert (a + b)[..1] == a[..1] && (a + b)[1..] == a[1..] + b;
      RemoveCharAppend(a[1..], b, c);
    }
  }

  /** Removing a character from a one-character string. */
  lemma RemoveCharOne(x: char, c: char)
    ensures Replace([x], [c], "") == if x == c then [] else [x]
  {
    assert [x][..1] == [x] && [x][1..] == [];
  }

  /** `Replace(s, [c], "")` is `Without(s, c)`: the other characters survive, in order. */
  lemma {:induction false} RemoveCharIsWithout(s: string, c: char)
    ensures Replace(s, [c], "") == Without(s, c)
    decreases |s|
  {
    if s != [] {
      var n := |s| - 1;
      assert s == s[..n] + [s[n]];
      RemoveCharAppend(s[..n], [s[n]], c);
      RemoveCharOne(s[n], c);
      RemoveCharIsWithout(s[..n], c);
    }
  }

  /** Where no occurrence starts inside `x`, replacing leaves `x` as it is. */
  lemma {:induction false} ReplaceSkips(x: string, y: string, pattern: string, replacement: string)
    requires |pattern| > 0
    requires forall k :: 0 <= k < |x| ==> !OccursAt(x + y, pattern, k)
    ensures Replace(x + y, pattern, replacement) == x + Replace(y, pattern, replacement)
    decreases |x|
  {
    if x == [] {
      assert x + y == y;
    } else if |x + y| < |pattern| {
    } else {
      assert !OccursAt(x + y, pattern, 0);
      assert (x + y)[1..] == x[1..] + y;
      forall k | 0 <= k < |x[1..]| ensures !OccursAt(x[1..] + y, pattern, k) {
        assert !OccursAt(x + y, pattern, k + 1);
        if k + |pattern| <= |x[1..] + y| {
          assert (x[1..] + y)[k..k + |pattern|] == (x + y)[k + 1..k + 1 + |pattern|];
        }
      }
      ReplaceSkips(x[1..], y, pattern, replacement);
      assert [x[0]] + x[1..] == x;
    }
  }

  /** Concatenation regroups freely; stated once so that proofs need not rediscover it. */
  lemma ConcatAssoc(a: string, b: string, c: string)
    ensures (a + b) + c == a + (b + c)
  {
  }

  /** A text starting with `prefix` still does once anything is appended to it. */
  lemma StartsWithAppend(s: string, t: string, prefix: string)
    requires StartsWith(s, prefix)
    ensures StartsWith(s + t, prefix)
  {
    assert (s + t)[..|prefix|] == s[..|prefix|];
  }

  /** `s.Split(new[] {separator}, StringSplitOptions.None)`. */
  function Split(s: string, separator: string): (parts: seq<string>)
    requires |separator| > 0
    ensures |parts| > 0
    ensures forall part, k :: part in parts ==> !OccursAt(part, separator, k)
    decreases |s|
  {
    var k := IndexOf(s, separator, 0);
    if k == -1 then [s]
    else
      BeforeFirstOccurrence(s, separator, k);
      [s[..k]] + Split(s[k + |separator|..], separator)
  }

  /** The text before the first occurrence of a pattern holds no occurrence of it. */
  lemma BeforeFirstOccurrence(s: string, pattern: string, k: nat)
    requires |pattern| > 0 && k <= |s|
    requires forall j :: 0 <= j < k ==> !OccursAt(s, pattern, j)
    ensures forall j :: !OccursAt(s[..k], pattern, j)
  {
    forall j | OccursAt(s[..k], pattern, j) ensures false {
      assert s[..k][j..j + |pattern|] == s[j..j + |pattern|];
      assert OccursAt(s, pattern, j);
    }
  }

  /** Joining the parts of a split with the separator gives back the text. */
  lemma {:induction false} SplitJoin(s: string, separator: string)
    requires |separator| > 0
    ensures Join(separator, Split(s, separator)) == s
    decreases |s|
  {
    var k := IndexOf(s, separator, 0);
    if k == -1 {
      assert Split(s, separator) == [s];
    } else {
      var rest := s[k + |separator|..];
      var tail := Split(rest, separator);
      assert Split(s, separator) == [s[..k]] + tail;
      SplitJoin(rest, separator);
      JoinPrepend(separator, s[..k], tail);
      AroundOccurrence(s, separator, k);
    }
  }

  /** A text is what comes before an occurrence, the occurrence, and what follows. */
  lemma AroundOccurrence(s: string, pattern: string, k: int)
    requires OccursAt(s, pattern, k)
    ensures s == s[..k] + pattern + s[k + |pattern|..]
  {
    assert s == s[..k] + s[k..k + |pattern|] + s[k + |pattern|..];
  }

  /** The `RemoveEmptyEntries` filter: the non-empty parts, in order. */
  function NonEmptyEntries(parts: seq<string>): (r: seq<string>)
    ensures |r| <= |parts|
    ensures forall i :: 0 <= i < |r| ==> r[i] != ""
    ensures forall x :: x in parts && x != "" ==> x in r
    ensures forall x :: x in r ==> x in parts
    ensures |parts| == 1 ==> r == if parts[0] == "" then [] else parts
  {
    if parts == [] then []
    else
      var rest := NonEmptyEntries(parts[..|parts| - 1]);
      var last := parts[|parts| - 1];
      assert forall x :: x in parts ==> x in parts[..|parts| - 1] || x == last;
      if last == "" then rest else rest + [last]
  }

  /** `string.Join(separator, parts)`. */
  function Join(separator: string, parts: seq<string>): (r: string)
  {
    if parts == [] then ""
    else if |parts| == 1 then parts[0]
    else Join(separator, parts[..|parts| - 1]) + separator + parts[|parts| - 1]
  }

  /** The `RemoveEmptyEntries` filter works part by part, keeping the order. */
  lemma {:induction false} NonEmptyEntriesAppend(a: seq<string>, b: seq<string>)
    ensures NonEmptyEntries(a + b) == NonEmptyEntries(a) + NonEmptyEntries(b)
    decreases |b|
  {
    if b == [] {
      assert a + b == a;
    } else {
      var n := |b| - 1;
      assert (a + b)[..|a + b| - 1] == a + b[..n];
      NonEmptyEntriesAppend(a, b[..n]);
    }
  }

  /** Without empty parts the `RemoveEmptyEntries` filter keeps every part. */
  lemma {:induction false} NonEmptyEntriesKeepsAll(parts: seq<string>)
    requires forall i :: 0 <= i < |parts| ==> parts[i] != ""
    ensures NonEmptyEntries(parts) == parts
  {
    if parts != [] {
      NonEmptyEntriesKeepsAll(parts[..|parts| - 1]);
      assert parts[..|parts| - 1] + [parts[|parts| - 1]] == parts;
    }
  }

  /** A part appended to a non-empty list is the last one joined, after a separator. */
  lemma {:induction false} JoinAppend(separator: string, parts: seq<string>, last: string)
    requires parts != []
    ensures Join(separator, parts + [last]) == Join(separator, parts) + separator + last
  {
    assert (parts + [last])[..|parts|] == parts;
  }

  /** A part put in front of a non-empty list is joined to it by one separator. */
  lemma {:induction false} JoinPrepend(separator: string, first: string, rest: seq<string>)
    requires rest != []
    ensures Join(separator, [first] + rest) == first + separator + Join(separator, rest)
    decreases |rest|
  {
    if |rest| == 1 {
      JoinAppend(separator, [first], rest[0]);
      assert [first] + rest == [first] + [rest[0]];
    } else {
      var n := |rest| - 1;
      assert [first] + rest == ([first] + rest[..n]) + [rest[n]];
      assert rest == rest[..n] + [rest[n]];
      JoinAppend(separator, [first] + rest[..n], rest[n]);
      JoinPrepend(separator, first, rest[..n]);
      JoinAppend(separator, rest[..n], rest[n]);
    }
  }

  /** Joined after at least one other part, the last part ends the result behind a separator. */
  lemma {:induction false} JoinEndsWithLast(separator: string, parts: seq<string>, last: string)
    requires parts != []
    ensures EndsWith(Join(separator, parts + [last]), separator + last)
  {
    JoinAppend(separator, parts, last);
    var joined := Join(separator, parts);
    assert (joined + separator + last)[|joined|..] == separator + last;
  }
}
