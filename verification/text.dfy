/** String operations of the .NET base library that the modelled code relies
    on: ordinal search and `Split`, `string.Join`, `Trim`, the null/blank
    tests, and the case-insensitive comparisons, `Replace` and
    `ToUpperInvariant` (the last three on ASCII letters only). */
module Text {
  import opened Wrappers

  predicate IsPrefix(p: string, s: string) {
    |p| <= |s| && s[..|p|] == p
  }

  predicate IsSuffix(t: string, s: string) {
    |t| <= |s| && s[|s| - |t|..] == t
  }

  // ---------------------------------------------------------------------
  // Ordinal (case-sensitive) search

  /** `pat` occurs in `s` at index `i`, compared ordinally. */
  predicate OccursAt(s: string, pat: string, i: nat) {
    i + |pat| <= |s| && s[i..i + |pat|] == pat
  }

  predicate Contains(s: string, pat: string) {
    exists i: nat :: i <= |s| && OccursAt(s, pat, i)
  }

  /** Index of the first occurrence of `pat` in `s` at or after `from`. */
  function IndexOf(s: string, pat: string, from: nat): (r: Option<nat>)
    ensures r.Some? ==> from <= r.value && OccursAt(s, pat, r.value)
    ensures r.Some? ==> forall j: nat :: from <= j < r.value ==> !OccursAt(s, pat, j)
    ensures r.None? ==> forall j: nat :: from <= j ==> !OccursAt(s, pat, j)
    decreases |s| - from
  {
    if from + |pat| > |s| then None
    else if OccursAt(s, pat, from) then Some(from)
    else IndexOf(s, pat, from + 1)
  }

  lemma OccursInPrefix(s: string, pat: string, n: nat, j: nat)
    requires n <= |s| && OccursAt(s[..n], pat, j)
    ensures OccursAt(s, pat, j)
  {
    assert s[..n][j..j + |pat|] == s[j..j + |pat|];
  }

  lemma OccursInSuffix(s: string, pat: string, n: nat, j: nat)
    requires n <= |s| && OccursAt(s[n..], pat, j)
    ensures OccursAt(s, pat, n + j)
  {
    assert s[n..][j..j + |pat|] == s[n + j..n + j + |pat|];
  }

  /** `string.Join(sep, parts)`: the parts with `sep` between neighbours. */
  function Join(parts: seq<string>, sep: string): string {
    if |parts| == 0 then ""
    else if |parts| == 1 then parts[0]
    else parts[0] + sep + Join(parts[1..], sep)
  }

  /** No occurrence lies wholly inside the text before the first one. */
  lemma NothingBeforeFirst(s: string, sep: string, i: nat)
    requires |sep| > 0 && i <= |s|
    requires forall j: nat :: j < i ==> !OccursAt(s, sep, j)
    ensures !Contains(s[..i], sep)
  {
    forall j: nat | j <= i && OccursAt(s[..i], sep, j)
      ensures false
    {
      OccursInPrefix(s, sep, i, j);
    }
  }

  lemma SuffixOfSuffix(t: string, u: string, s: string)
    requires IsSuffix(t, u) && IsSuffix(u, s)
    ensures IsSuffix(t, s)
  {
    assert s[|s| - |t|..] == s[|s| - |u|..][|u| - |t|..];
  }

  /** The first occurrence at `i` cuts `s` into head, separator and tail. */
  lemma CutAtOccurrence(s: string, sep: string, i: nat)
    requires OccursAt(s, sep, i)
    ensures s == s[..i] + sep + s[i + |sep|..]
    ensures IsSuffix(s[i + |sep|..], s)
    ensures IsPrefix(s[..i], s)
  {
    assert s == s[..i] + s[i..i + |sep|] + s[i + |sep|..];
  }

  /** The split of `s` is its head followed by the split of its tail. */
  lemma SplitCons(s: string, sep: string, head: string, tail: string, rest: seq<string>)
    requires s == head + sep + tail && IsPrefix(head, s) && IsSuffix(tail, s)
    requires !Contains(head, sep)
    requires |rest| >= 1 && Join(rest, sep) == tail
    requires forall k :: 0 <= k < |rest| ==> !Contains(rest[k], sep)
    requires IsSuffix(rest[|rest| - 1], tail)
    ensures var parts := [head] + rest;
      && Join(parts, sep) == s
      && (forall k :: 0 <= k < |parts| ==> !Contains(parts[k], sep))
      && IsPrefix(parts[0], s)
      && IsSuffix(parts[|parts| - 1], s)
  {
    var parts := [head] + rest;
    assert parts[1..] == rest;
    SuffixOfSuffix(rest[|rest| - 1], tail, s);
  }

  /** `s.Split(sep, StringSplitOptions.None)`: the pieces between the
      occurrences of `sep` found by a left-to-right scan. */
  function Split(s: string, sep: string): (parts: seq<string>)
    requires |sep| > 0
    ensures |parts| >= 1
    decreases |s|
  {
    match IndexOf(s, sep, 0)
    case None => [s]
    case Some(i) => [s[..i]] + Split(s[i + |sep|..], sep)
  }

  /** The pieces join back to the text, none holds the separator, the
      first is a prefix of the text and the last a suffix. */
  lemma {:induction false} SplitProperties(s: string, sep: string)
    requires |sep| > 0
    ensures var parts := Split(s, sep);
      && Join(parts, sep) == s
      && (forall k :: 0 <= k < |parts| ==> !Contains(parts[k], sep))
      && IsPrefix(parts[0], s)
      && IsSuffix(parts[|parts| - 1], s)
    decreases |s|
  {
    match IndexOf(s, sep, 0)
    case None =>
      assert s[..|s|] == s;
    case Some(i) =>
      var rest := Split(s[i + |sep|..], sep);
      SplitProperties(s[i + |sep|..], sep);
      NothingBeforeFirst(s, sep, i);
      CutAtOccurrence(s, sep, i);
      SplitCons(s, sep, s[..i], s[i + |sep|..], rest);
  }

  /** The last piece ends the text and holds no separator. */
  lemma SplitLastPiece(s: string, sep: string)
    requires |sep| > 0
    ensures var parts := Split(s, sep);
      IsSuffix(parts[|parts| - 1], s) && !Contains(parts[|parts| - 1], sep)
  {
    SplitProperties(s, sep);
  }

  /** After the first occurrence, the last piece is the last piece of the
      rest of the text. */
  lemma SplitLastAfterFirst(s: string, sep: string, i: nat)
    requires |sep| > 0 && IndexOf(s, sep, 0) == Some(i)
    ensures var parts := Split(s, sep);
            var rest := Split(s[i + |sep|..], sep);
            parts[|parts| - 1] == rest[|rest| - 1]
  {
    var rest := Split(s[i + |sep|..], sep);
    var parts := [s[..i]] + rest;
    assert Split(s, sep) == parts;
    assert |parts| == |rest| + 1;
    assert parts[|rest|] == rest[|rest| - 1];
  }

  lemma SplitWithoutSeparator(s: string, sep: string)
    requires |sep| > 0 && !Contains(s, sep)
    ensures Split(s, sep) == [s]
  {
    match IndexOf(s, sep, 0)
    case None =>
    case Some(i) =>
  }

  /** A one-character pattern occurs exactly where its character does. */
  lemma ContainsChar(s: string, c: char)
    ensures Contains(s, [c]) <==> c in s
  {
    if c in s {
      var k :| 0 <= k < |s| && s[k] == c;
      assert s[k..k + 1] == [c];
      assert OccursAt(s, [c], k);
    }
    if Contains(s, [c]) {
      var i: nat :| i <= |s| && OccursAt(s, [c], i);
      assert s[i..i + 1][0] == s[i];
    }
  }

  /** A character found in no part and not in the separator is not in the
      joined text. */
  lemma {:induction false} JoinLacksChar(parts: seq<string>, sep: string, c: char)
    requires c !in sep
    requires forall k :: 0 <= k < |parts| ==> c !in parts[k]
    ensures c !in Join(parts, sep)
    decreases |parts|
  {
    if |parts| > 1 {
      JoinLacksChar(parts[1..], sep, c);
      assert Join(parts, sep) == parts[0] + sep + Join(parts[1..], sep);
    }
  }

  /** A list whose first part is not empty joins to a text that is not empty. */
  lemma JoinNotEmpty(parts: seq<string>, sep: string)
    requires |parts| >= 1 && parts[0] != ""
    ensures Join(parts, sep) != ""
  {
    if |parts| > 1 {
      assert |Join(parts, sep)| >= |parts[0]|;
    }
  }

  /** Splitting a joined list at a one-character separator that no part
      contains gives the list back. */
  lemma {:induction false} SplitJoin(parts: seq<string>, sep: string)
    requires |sep| == 1 && |parts| >= 1
    requires forall k :: 0 <= k < |parts| ==> !Contains(parts[k], sep)
    ensures Split(Join(parts, sep), sep) == parts
    decreases |parts|
  {
    if |parts| == 1 {
      SplitWithoutSeparator(parts[0], sep);
    } else {
      var head := parts[0];
      var tail := Join(parts[1..], sep);
      var s := head + sep + tail;
      assert Join(parts, sep) == s;
      assert OccursAt(s, sep, |head|) by {
        assert s[|head|..|head| + 1] == sep;
      }
      forall j: nat | j < |head|
        ensures !OccursAt(s, sep, j)
      {
        assert s[j..j + 1] == head[j..j + 1];
        assert !OccursAt(head, sep, j);
      }
      var r := IndexOf(s, sep, 0);
      assert r == Some(|head|);
      assert s[|head| + 1..] == tail;
      assert s[..|head|] == head;
      assert Split(s, sep) == [s[..|head|]] + Split(s[|head| + 1..], sep);
      SplitJoin(parts[1..], sep);
      assert Split(s, sep) == [head] + parts[1..];
    }
  }

  // ---------------------------------------------------------------------
  // White space, Trim and the null/blank tests

  /** `char.IsWhiteSpace`: the Unicode space, line and paragraph separators
      plus the control characters U+0009..U+000D and U+0085. */
  predicate IsWhiteSpace(c: char) {
    var n := c as int;
    (0x09 <= n <= 0x0D) || n == 0x20 || n == 0x85 || n == 0xA0 || n == 0x1680
    || (0x2000 <= n <= 0x200A) || n == 0x2028 || n == 0x2029 || n == 0x202F
    || n == 0x205F || n == 0x3000
  }

  predicate AllWhiteSpace(s: string) {
    forall k :: 0 <= k < |s| ==> IsWhiteSpace(s[k])
  }

  /** `string.IsNullOrEmpty`. */
  predicate IsNullOrEmpty(s: Option<string>) {
    s.None? || |s.value| == 0
  }

  /** `string.IsNullOrWhiteSpace`. */
  predicate IsNullOrWhiteSpace(s: Option<string>) {
    s.None? || AllWhiteSpace(s.value)
  }

  function TrimStart(s: string): (r: string)
    ensures IsSuffix(r, s)
    ensures AllWhiteSpace(s[..|s| - |r|])
    ensures |r| > 0 ==> !IsWhiteSpace(r[0])
    decreases |s|
  {
    if |s| > 0 && IsWhiteSpace(s[0]) then
      var r := TrimStart(s[1..]);
      assert s[..|s| - |r|] == [s[0]] + s[1..][..|s| - 1 - |r|];
      r
    else s
  }

  /** `s.TrimEnd(c)` for a single character, and the white-space variant. */
  function TrimEndChar(s: string, c: char): (r: string)
    ensures IsPrefix(r, s)
    ensures forall k :: |r| <= k < |s| ==> s[k] == c
    ensures |r| > 0 ==> r[|r| - 1] != c
    decreases |s|
  {
    if |s| > 0 && s[|s| - 1] == c then TrimEndChar(s[..|s| - 1], c) else s
  }

  function TrimEnd(s: string): (r: string)
    ensures IsPrefix(r, s)
    ensures AllWhiteSpace(s[|r|..])
    ensures |r| > 0 ==> !IsWhiteSpace(r[|r| - 1])
    decreases |s|
  {
    if |s| > 0 && IsWhiteSpace(s[|s| - 1]) then
      var r := TrimEnd(s[..|s| - 1]);
      assert s[|r|..] == s[..|s| - 1][|r|..] + [s[|s| - 1]];
      r
    else s
  }

  /** `s.Trim()`: `s` without its leading and trailing white space. */
  function Trim(s: string): (r: string)
    ensures |r| == 0 || (!IsWhiteSpace(r[0]) && !IsWhiteSpace(r[|r| - 1]))
    ensures var k := |s| - |TrimStart(s)|;
      && k + |r| <= |s|
      && s[k..k + |r|] == r
      && AllWhiteSpace(s[..k])
      && AllWhiteSpace(s[k + |r|..])
  {
    var t := TrimStart(s);
    var r := TrimEnd(t);
    TrimParts(s, t, r);
    r
  }

  lemma TrimParts(s: string, t: string, r: string)
    requires IsSuffix(t, s) && IsPrefix(r, t)
    ensures |s| - |t| + |r| <= |s|
    ensures s[|s| - |t|..|s| - |t| + |r|] == r
    ensures s[|s| - |t| + |r|..] == t[|r|..]
  {
    var k := |s| - |t|;
    assert t == s[k..];
    assert s[k..k + |r|] == t[..|r|];
  }

  lemma TrimOfTrimmed(s: string)
    requires |s| == 0 || (!IsWhiteSpace(s[0]) && !IsWhiteSpace(s[|s| - 1]))
    ensures Trim(s) == s
  {
  }

  // ---------------------------------------------------------------------
  // Case-insensitive comparison (ASCII letters)

  function ToUpperAscii(c: char): char {
    if 'a' <= c <= 'z' then (c as int - 32) as char else c
  }

  /** `ToUpperInvariant`, restricted to the ASCII letters. */
  function ToUpperInvariant(s: string): (r: string)
    ensures |r| == |s|
    ensures forall k :: 0 <= k < |s| ==> r[k] == ToUpperAscii(s[k])
  {
    seq(|s|, k requires 0 <= k < |s| => ToUpperAscii(s[k]))
  }

  predicate EqualsIgnoreCase(a: string, b: string) {
    |a| == |b| && forall k :: 0 <= k < |a| ==> ToUpperAscii(a[k]) == ToUpperAscii(b[k])
  }

  predicate OccursAtIgnoreCase(s: string, pat: string, i: nat) {
    i + |pat| <= |s| && EqualsIgnoreCase(s[i..i + |pat|], pat)
  }

  predicate ContainsIgnoreCase(s: string, pat: string) {
    exists i: nat :: i <= |s| && OccursAtIgnoreCase(s, pat, i)
  }

  /** `s.Replace(pat, rep, ...IgnoreCase)`: every occurrence found by a
      left-to-right scan is replaced; the replacement text is not scanned
      again. */
  function ReplaceIgnoreCase(s: string, pat: string, rep: string): (r: string)
    requires |pat| > 0
    ensures |rep| <= |pat| ==> |r| <= |s|
    decreases |s|
  {
    if |s| < |pat| then s
    else if EqualsIgnoreCase(s[..|pat|], pat) then rep + ReplaceIgnoreCase(s[|pat|..], pat, rep)
    else [s[0]] + ReplaceIgnoreCase(s[1..], pat, rep)
  }

  /** A text with no case-insensitive occurrence is left unchanged. */
  lemma ReplaceWithoutMatch(s: string, pat: string, rep: string)
    requires |pat| > 0 && !ContainsIgnoreCase(s, pat)
    ensures ReplaceIgnoreCase(s, pat, rep) == s
  {
    assert NoMatchStartsBefore(s + "", pat, |s|) by {
      assert s + "" == s;
    }
    ReplaceSkipsUnmatched(s, "", pat, rep);
    assert s + "" == s;
  }

  /** No case-insensitive match of `pat` starts among the first `n`
      characters of `s`. */
  predicate NoMatchStartsBefore(s: string, pat: string, n: nat) {
    forall k: nat :: k < n ==> !OccursAtIgnoreCase(s, pat, k)
  }

  lemma NoMatchInTail(a: string, b: string, pat: string)
    requires |a| > 0 && NoMatchStartsBefore(a + b, pat, |a|)
    ensures (a + b)[1..] == a[1..] + b
    ensures NoMatchStartsBefore(a[1..] + b, pat, |a| - 1)
  {
    var s := a + b;
    assert s[1..] == a[1..] + b;
    forall k: nat | k < |a| - 1
      ensures !OccursAtIgnoreCase(s[1..], pat, k)
    {
      assert !OccursAtIgnoreCase(s, pat, k + 1);
      if k + |pat| <= |s[1..]| {
        assert s[1..][k..k + |pat|] == s[k + 1..k + 1 + |pat|];
      }
    }
  }

  /** One step of the scan at a position where no match starts. */
  lemma ReplaceStepUnmatched(s: string, pat: string, rep: string)
    requires |pat| > 0 && |s| > 0 && !OccursAtIgnoreCase(s, pat, 0)
    ensures ReplaceIgnoreCase(s, pat, rep) == [s[0]] + ReplaceIgnoreCase(s[1..], pat, rep)
  {
    if |s| >= |pat| {
      assert s[0..|pat|] == s[..|pat|];
    }
  }

  /** A prefix in which no match starts is copied unchanged by the scan. */
  lemma {:induction false} ReplaceSkipsUnmatched(a: string, b: string, pat: string, rep: string)
    requires |pat| > 0 && NoMatchStartsBefore(a + b, pat, |a|)
    ensures ReplaceIgnoreCase(a + b, pat, rep) == a + ReplaceIgnoreCase(b, pat, rep)
    decreases |a|
  {
    if |a| == 0 {
      assert a + b == b;
    } else {
      NoMatchInTail(a, b, pat);
      ReplaceSkipsUnmatched(a[1..], b, pat, rep);
      ReplaceStepUnmatched(a + b, pat, rep);
      assert [a[0]] + (a[1..] + ReplaceIgnoreCase(b, pat, rep)) == a + ReplaceIgnoreCase(b, pat, rep);
    }
  }

  /** A text whose leading characters never match the pattern's first
      character cannot start a match. */
  lemma NoMatchWithoutFirstChar(s: string, pat: string, n: nat)
    requires |pat| > 0 && n <= |s|
    requires forall k :: 0 <= k < n ==> ToUpperAscii(s[k]) != ToUpperAscii(pat[0])
    ensures NoMatchStartsBefore(s, pat, n)
  {
    forall k: nat | k < n
      ensures !OccursAtIgnoreCase(s, pat, k)
    {
      if k + |pat| <= |s| {
        assert s[k..k + |pat|][0] == s[k];
      }
    }
  }
}
