/**
 * The few Python `str` operations the unpacker and the scraper rely on:
 * substring search, `str.replace`, `str.split`, `str.join`, `%d` formatting and
 * `int()` on a decimal digit string. Characters are those of a Python 2 byte
 * string; the character classes are the ASCII classes of Python 2's `re`.
 */
module Text {
  import opened Common

  /** `\s` of a Python 2 `str` pattern: space, tab, newline, vertical tab, form feed, carriage return. */
  predicate IsSpace(c: char) {
    c == ' ' || ('\t' <= c <= '\r')
  }

  /** `\d` of a Python 2 `str` pattern, and the characters `str.isdigit` accepts. */
  predicate IsDigitChar(c: char) {
    '0' <= c <= '9'
  }

  /** `\w` of a Python 2 `str` pattern: `[A-Za-z0-9_]`. */
  predicate IsWordChar(c: char) {
    'a' <= c <= 'z' || 'A' <= c <= 'Z' || IsDigitChar(c) || c == '_'
  }

  /** A non-empty run of word characters, what `\w+` matches. */
  predicate IsWordRun(w: string)
  {
    |w| > 0 && forall k :: 0 <= k < |w| ==> IsWordChar(w[k])
  }

  /** Python `s.isdigit()`: non-empty and made of digits only. */
  predicate IsDigitString(s: string) {
    |s| > 0 && forall k :: 0 <= k < |s| ==> IsDigitChar(s[k])
  }

  /** `pat` occurs in `s` at index `i`. */
  predicate OccursAt(s: string, i: int, pat: string) {
    0 <= i && i + |pat| <= |s| && s[i..i + |pat|] == pat
  }

  /** The character `c` at index `i`. */
  predicate CharAt(s: string, i: int, c: char)
  {
    0 <= i < |s| && s[i] == c
  }

  /** The `k`-th character of `pat` is at index `i + k` of `s`. */
  predicate SameChar(s: string, i: nat, pat: string, k: nat)
  {
    i + k < |s| && k < |pat| && s[i + k] == pat[k]
  }

  /** `pat` occurs in `s` at index `i`, stated one character at a time. */
  predicate CharsAt(s: string, i: nat, pat: string)
  {
    i + |pat| <= |s| && forall k: nat :: k < |pat| ==> SameChar(s, i, pat, k)
  }

  /** The character-wise statement agrees with `OccursAt`. */
  lemma CharsAtOccurs(s: string, i: nat, pat: string)
    ensures CharsAt(s, i, pat) <==> OccursAt(s, i, pat)
  {
    if i + |pat| <= |s| {
      if OccursAt(s, i, pat) {
        forall k: nat | k < |pat|
          ensures SameChar(s, i, pat, k)
        {
          assert s[i..i + |pat|][k] == s[i + k];
        }
      }
      if CharsAt(s, i, pat) {
        forall k | 0 <= k < |pat|
          ensures s[i..i + |pat|][k] == pat[k]
        {
          assert SameChar(s, i, pat, k);
        }
        assert s[i..i + |pat|] == pat;
      }
    }
  }

  /** Index `k` holds a word character. */
  predicate WordAt(s: string, k: nat)
  {
    k < |s| && IsWordChar(s[k])
  }

  /** `s[i..j]` is all word characters. */
  predicate AllWord(s: string, i: nat, j: nat)
  {
    i <= j <= |s| && forall k: nat :: i <= k < j ==> WordAt(s, k)
  }

  /** A non-empty prefix is a word run exactly when all its indices hold word characters. */
  lemma AllWordPrefix(s: string, n: nat)
    requires 0 < n <= |s|
    ensures AllWord(s, 0, n) <==> IsWordRun(s[..n])
  {
    if AllWord(s, 0, n) {
      forall k | 0 <= k < n
        ensures IsWordChar(s[..n][k])
      {
        assert WordAt(s, k);
      }
    }
    if IsWordRun(s[..n]) {
      forall k: nat | k < n
        ensures WordAt(s, k)
      {
        assert s[..n][k] == s[k];
      }
    }
  }

  /** `s.startswith(pat)`. */
  predicate StartsWith(s: string, pat: string) {
    OccursAt(s, 0, pat)
  }

  /** The end of the run of word characters starting at `i`. */
  function WordRunEnd(s: string, i: nat): (j: nat)
    requires i <= |s|
    ensures i <= j <= |s| && AllWord(s, i, j)
    ensures j < |s| ==> !IsWordChar(s[j])
    decreases |s| - i
  {
    if i < |s| && IsWordChar(s[i]) then WordRunEnd(s, i + 1) else i
  }

  /** `WordRunEnd` stops at the first character that is not a word character. */
  lemma {:induction false} WordRunEndAt(s: string, i: nat, j: nat)
    requires AllWord(s, i, j)
    requires j == |s| || !IsWordChar(s[j])
    ensures WordRunEnd(s, i) == j
    decreases j - i
  {
    if i < j {
      assert WordAt(s, i);
      WordRunEndAt(s, i + 1, j);
    }
  }

  /** The first index at or after `from` where `pat` occurs (`s.find(pat, from)`, with -1 as None). */
  function Find(s: string, pat: string, from: nat): Option<nat>
    decreases |s| - from
  {
    if from + |pat| > |s| then None
    else if CharsAt(s, from, pat) then Some(from)
    else Find(s, pat, from + 1)
  }

  /** What `Find` returns is an occurrence, at or after `from`. */
  lemma {:induction false} FindFound(s: string, pat: string, from: nat)
    ensures Find(s, pat, from).Some? ==> from <= Find(s, pat, from).value && CharsAt(s, Find(s, pat, from).value, pat)
    decreases |s| - from
  {
    if from + |pat| <= |s| && !CharsAt(s, from, pat) {
      FindFound(s, pat, from + 1);
    }
  }

  /** `Find` finds something, and no later than any occurrence at or after `from`. */
  lemma {:induction false} FindNoLater(s: string, pat: string, from: nat, k: nat)
    requires from <= k && CharsAt(s, k, pat)
    ensures Find(s, pat, from).Some? && Find(s, pat, from).value <= k
    decreases k - from
  {
    if from < k && !CharsAt(s, from, pat) {
      FindNoLater(s, pat, from + 1, k);
    }
  }

  /** An occurrence with none before it, from `from` on, is the one `Find` returns. */
  lemma {:induction false} FindAt(s: string, pat: string, from: nat, k: nat)
    requires from <= k && CharsAt(s, k, pat)
    requires forall j: nat :: from <= j < k ==> !CharsAt(s, j, pat)
    ensures Find(s, pat, from) == Some(k)
    decreases k - from
  {
    if from < k {
      assert !CharsAt(s, from, pat);
      FindAt(s, pat, from + 1, k);
    }
  }

  /** Python's `pat in s` for strings. */
  predicate Contains(s: string, pat: string)
  {
    Find(s, pat, 0).Some?
  }

  /** `pat in s` holds exactly when `pat` occurs in `s` at some index. */
  lemma ContainsMeaning(s: string, pat: string)
    ensures Contains(s, pat) <==> exists j :: OccursAt(s, j, pat)
  {
    FindFound(s, pat, 0);
    if Contains(s, pat) {
      CharsAtOccurs(s, Find(s, pat, 0).value, pat);
    }
    if exists j :: OccursAt(s, j, pat) {
      var j :| OccursAt(s, j, pat);
      CharsAtOccurs(s, j, pat);
      FindNoLater(s, pat, 0, j);
    }
  }

  /** `s.replace(target, repl)`: left-to-right, non-overlapping replacement of every occurrence. */
  function ReplaceAll(s: string, target: string, repl: string): string
    requires |target| > 0
    decreases |s|
  {
    if OccursAt(s, 0, target) then repl + ReplaceAll(s[|target|..], target, repl)
    else if s == [] then []
    else [s[0]] + ReplaceAll(s[1..], target, repl)
  }

  /** `s.split(sep)` for a non-empty separator. */
  function SplitOn(s: string, sep: string): (r: seq<string>)
    requires |sep| > 0
    ensures |r| >= 1
    decreases |s|
  {
    if OccursAt(s, 0, sep) then [""] + SplitOn(s[|sep|..], sep)
    else if s == [] then [""]
    else
      var rest := SplitOn(s[1..], sep);
      [[s[0]] + rest[0]] + rest[1..]
  }

  /** `sep.join(parts)`. */
  function Join(parts: seq<string>, sep: string): string
    decreases |parts|
  {
    if |parts| == 0 then ""
    else if |parts| == 1 then parts[0]
    else parts[0] + sep + Join(parts[1..], sep)
  }

  /** `s.count(c)` for a one-character string. */
  function CountChar(s: string, c: char): nat
    decreases |s|
  {
    if s == [] then 0 else (if s[0] == c then 1 else 0) + CountChar(s[1..], c)
  }

  /** Value of a decimal digit character. */
  function DigitValue(c: char): nat
    requires IsDigitChar(c)
  {
    (c as int - '0' as int) as nat
  }

  /** `int(s)` on a string of decimal digits. */
  function ParseDecimal(s: string): nat
    requires forall k :: 0 <= k < |s| ==> IsDigitChar(s[k])
    decreases |s|
  {
    if s == [] then 0 else ParseDecimal(s[..|s| - 1]) * 10 + DigitValue(s[|s| - 1])
  }

  /** `'%d' % n` for a non-negative integer. */
  function NatToString(n: nat): (r: string)
    ensures IsDigitString(r)
    decreases n
  {
    var last := [('0' as int + n % 10) as char];
    if n < 10 then last else NatToString(n / 10) + last
  }

  // ---------------------------------------------------------------------------
  // Lemmas

  /** Reading back what `%d` wrote gives the number again. */
  lemma {:induction false} ParseDecimalOfNatToString(n: nat)
    ensures ParseDecimal(NatToString(n)) == n
    decreases n
  {
    var s := NatToString(n);
    assert s[..|s| - 1] == (if n < 10 then "" else NatToString(n / 10));
    if n >= 10 {
      ParseDecimalOfNatToString(n / 10);
    }
  }

  lemma JoinCons(x: string, rest: seq<string>, sep: string)
    requires |rest| >= 1
    ensures Join([x] + rest, sep) == x + sep + Join(rest, sep)
  {
    assert ([x] + rest)[1..] == rest;
  }

  /** A character in neither the separator nor any part is not in the joined text. */
  lemma {:induction false} JoinAvoids(parts: seq<string>, sep: string, c: char)
    requires c !in sep && forall i :: 0 <= i < |parts| ==> c !in parts[i]
    ensures c !in Join(parts, sep)
    decreases |parts|
  {
    if |parts| > 1 {
      assert forall i :: 0 <= i < |parts| - 1 ==> parts[1..][i] == parts[i + 1];
      JoinAvoids(parts[1..], sep, c);
    }
  }

  /** Joining the pieces of a split with the same separator gives back the string. */
  lemma {:induction false} JoinSplitOn(s: string, sep: string)
    requires |sep| > 0
    ensures Join(SplitOn(s, sep), sep) == s
    decreases |s|
  {
    if OccursAt(s, 0, sep) {
      var tail := s[|sep|..];
      var rest := SplitOn(tail, sep);
      assert SplitOn(s, sep) == [""] + rest;
      JoinSplitOn(tail, sep);
      JoinCons("", rest, sep);
      assert s == sep + tail;
    } else if s != [] {
      var rest := SplitOn(s[1..], sep);
      JoinSplitOn(s[1..], sep);
      assert SplitOn(s, sep) == [[s[0]] + rest[0]] + rest[1..];
      JoinPrependChar(s[0], rest, sep);
      assert s == [s[0]] + s[1..];
    }
  }

  /** A character put before the first piece comes out before the joined text. */
  lemma JoinPrependChar(c: char, rest: seq<string>, sep: string)
    requires |rest| >= 1
    ensures Join([[c] + rest[0]] + rest[1..], sep) == [c] + Join(rest, sep)
  {
    if |rest| > 1 {
      var more := Join(rest[1..], sep);
      JoinCons([c] + rest[0], rest[1..], sep);
      assert [rest[0]] + rest[1..] == rest;
      JoinCons(rest[0], rest[1..], sep);
      AppendAssociative([c], rest[0], sep);
      AppendAssociative([c], rest[0] + sep, more);
    }
  }

  /** A string without the separator's first character is a single piece. */
  lemma {:induction false} SplitOnNoSep(x: string, sep: string)
    requires |sep| > 0 && sep[0] !in x
    ensures SplitOn(x, sep) == [x]
    decreases |x|
  {
    if x != [] {
      if |sep| <= |x| {
        assert x[..|sep|][0] == x[0];
      }
      assert sep[0] !in x[1..];
      SplitOnNoSep(x[1..], sep);
      assert [x[0]] + x[1..] == x;
    }
  }

  /** A first piece without the separator's first character is split off at the separator after it. */
  lemma {:induction false} SplitOnSepAfter(x: string, sep: string, y: string)
    requires |sep| > 0 && sep[0] !in x
    ensures SplitOn(x + sep + y, sep) == [x] + SplitOn(y, sep)
    decreases |x|
  {
    var s := x + sep + y;
    if x == [] {
      assert s == sep + y && s[..|sep|] == sep && s[|sep|..] == y;
    } else {
      assert s[..|sep|][0] == x[0] && x[0] != sep[0];
      assert s[1..] == x[1..] + sep + y;
      assert sep[0] !in x[1..];
      SplitOnSepAfter(x[1..], sep, y);
      assert [x[0]] + x[1..] == x;
    }
  }

  /** Splitting undoes joining with the same separator, when no part holds the separator's first character. */
  lemma {:induction false} SplitOnJoin(parts: seq<string>, sep: string)
    requires |parts| >= 1 && |sep| > 0
    requires forall i :: 0 <= i < |parts| ==> sep[0] !in parts[i]
    ensures SplitOn(Join(parts, sep), sep) == parts
    decreases |parts|
  {
    if |parts| == 1 {
      SplitOnNoSep(parts[0], sep);
    } else {
      SplitOnJoin(parts[1..], sep);
      SplitOnSepAfter(parts[0], sep, Join(parts[1..], sep));
      assert [parts[0]] + parts[1..] == parts;
    }
  }

  /** A one-character separator splits a string into one more piece than it occurs. */
  lemma {:induction false} SplitOnCharLength(s: string, c: char)
    ensures |SplitOn(s, [c])| == CountChar(s, c) + 1
    decreases |s|
  {
    if s != [] {
      SplitOnCharLength(s[1..], c);
      if OccursAt(s, 0, [c]) {
        assert s[0] == c;
      } else {
        assert s[..1] == [s[0]];
      }
    }
  }

  /** `s.replace(target, repl)` is `repl.join(s.split(target))`. */
  lemma {:induction false} ReplaceAllIsJoinOfSplit(s: string, target: string, repl: string)
    requires |target| > 0
    ensures ReplaceAll(s, target, repl) == Join(SplitOn(s, target), repl)
    decreases |s|
  {
    if OccursAt(s, 0, target) {
      var rest := SplitOn(s[|target|..], target);
      ReplaceAllIsJoinOfSplit(s[|target|..], target, repl);
      assert SplitOn(s, target) == [""] + rest;
      JoinCons("", rest, repl);
    } else if s != [] {
      var rest := SplitOn(s[1..], target);
      var tail := ReplaceAll(s[1..], target, repl);
      ReplaceAllIsJoinOfSplit(s[1..], target, repl);
      assert tail == Join(rest, repl);
      assert ReplaceAll(s, target, repl) == [s[0]] + tail;
      assert SplitOn(s, target) == [[s[0]] + rest[0]] + rest[1..];
      JoinPrependChar(s[0], rest, repl);
    }
  }

  /** A string in which `target` does not occur is left as it is. */
  lemma {:induction false} ReplaceAllAbsent(s: string, target: string, repl: string)
    requires |target| > 0 && !Contains(s, target)
    ensures ReplaceAll(s, target, repl) == s
    decreases |s|
  {
    if s != [] {
      assert !OccursAt(s, 0, target);
      NotContainsSuffix(s, target, 1);
      ReplaceAllAbsent(s[1..], target, repl);
    }
  }

  lemma NotContainsSuffix(s: string, pat: string, k: nat)
    requires k <= |s| && !Contains(s, pat)
    ensures !Contains(s[k..], pat)
  {
    ContainsMeaning(s, pat);
    ContainsMeaning(s[k..], pat);
    forall j | OccursAt(s[k..], j, pat) ensures OccursAt(s, j + k, pat) {
      assert s[k..][j..j + |pat|] == s[j + k..j + k + |pat|];
    }
  }

  lemma NotContainsSlice(s: string, pat: string, a: nat, b: nat)
    requires a <= b <= |s| && !Contains(s, pat)
    ensures !Contains(s[a..b], pat)
  {
    ContainsMeaning(s, pat);
    ContainsMeaning(s[a..b], pat);
    forall j | OccursAt(s[a..b], j, pat) ensures OccursAt(s, j + a, pat) {
      forall i | 0 <= i < |pat| ensures s[j + a..j + a + |pat|][i] == pat[i] {
        assert s[a..b][j..j + |pat|][i] == pat[i];
      }
    }
  }

  /**
   * A prefix without `target` that ends in a character `target` lacks fences
   * the replacement off: it is copied and only the rest is rewritten.
   */
  lemma {:induction false} ReplaceAllFenced(x: string, y: string, target: string, repl: string)
    requires |target| > 0 && |x| > 0 && x[|x| - 1] !in target && !Contains(x, target)
    ensures ReplaceAll(x + y, target, repl) == x + ReplaceAll(y, target, repl)
    decreases |x|
  {
    var s := x + y;
    if |target| <= |x| {
      assert s[..|target|] == x[..|target|];
      assert !OccursAt(x, 0, target);
    } else if |target| <= |s| {
      assert s[..|target|][|x| - 1] == x[|x| - 1];
    }
    assert !OccursAt(s, 0, target);
    assert s[1..] == x[1..] + y;
    if |x| == 1 {
      assert x[1..] + y == y && x == [x[0]];
    } else {
      NotContainsSuffix(x, target, 1);
      ReplaceAllFenced(x[1..], y, target, repl);
      assert [x[0]] + x[1..] == x;
    }
  }

  /** Replacing a one-character pattern distributes over concatenation. */
  lemma {:induction false} ReplaceCharAppend(a: string, b: string, c: char, repl: string)
    ensures ReplaceAll(a + b, [c], repl) == ReplaceAll(a, [c], repl) + ReplaceAll(b, [c], repl)
    decreases |a|
  {
    if a == [] {
      assert a + b == b;
    } else {
      var ab := a + b;
      assert ab[1..] == a[1..] + b;
      assert ab[..1] == a[..1];
      ReplaceCharAppend(a[1..], b, c, repl);
      var head := if a[0] == c then repl else [a[0]];
      assert ReplaceAll(ab, [c], repl) == head + ReplaceAll(a[1..] + b, [c], repl);
      assert ReplaceAll(a, [c], repl) == head + ReplaceAll(a[1..], [c], repl);
    }
  }

  /**
   * Until the first `q` it produces, a replacement copies its input: every prefix of the
   * result either holds a `q` or equals the input's prefix of the same length.
   */
  lemma {:induction false} ReplacePrefixKept(t: string, target: string, repl: string, q: char, m: nat)
    requires |target| > 0 && |repl| > 0 && repl[0] == q
    requires m <= |ReplaceAll(t, target, repl)|
    ensures q in ReplaceAll(t, target, repl)[..m] || (m <= |t| && ReplaceAll(t, target, repl)[..m] == t[..m])
    decreases |t|
  {
    var r := ReplaceAll(t, target, repl);
    if m == 0 {
      assert r[..0] == t[..0];
    } else if OccursAt(t, 0, target) {
      assert r[0] == q;
    } else if t != [] {
      var r1 := ReplaceAll(t[1..], target, repl);
      assert r == [t[0]] + r1;
      ReplacePrefixKept(t[1..], target, repl, q, m - 1);
      assert r[..m] == [t[0]] + r1[..m - 1];
      if q !in r1[..m - 1] {
        assert t[..m] == [t[0]] + t[1..][..m - 1];
      }
    }
  }

  /** Two texts without `p`, the first ending in a character `p` lacks, give a text without `p`. */
  lemma FencedConcat(x: string, y: string, p: string, q: char)
    requires |x| > 0 && x[|x| - 1] == q && q !in p
    requires !Contains(x, p) && !Contains(y, p)
    ensures !Contains(x + y, p)
  {
    ContainsMeaning(x, p);
    ContainsMeaning(y, p);
    ContainsMeaning(x + y, p);
    forall j | 0 <= j ensures !OccursAt(x + y, j, p) {
      if j + |p| <= |x + y| {
        var w := (x + y)[j..j + |p|];
        if j + |p| <= |x| {
          assert w == x[j..j + |p|];
          assert !OccursAt(x, j, p);
        } else if j >= |x| {
          assert w == y[j - |x|..j - |x| + |p|];
          assert !OccursAt(y, j - |x|, p);
        } else {
          assert w[|x| - 1 - j] == q;
        }
      }
    }
  }

  /**
   * A character put in front of a text `r1` without `p` creates no occurrence of `p`,
   * when `r1` starts like `t` up to a fence character `q` and `[c] + t` does not start with `p`.
   */
  lemma ConsNoOccurrence(c: char, t: string, r1: string, p: string, q: char)
    requires |p| > 0 && q !in p
    requires !OccursAt([c] + t, 0, p)
    requires !Contains(r1, p)
    requires |p| - 1 <= |r1| ==> q in r1[..|p| - 1] || (|p| - 1 <= |t| && r1[..|p| - 1] == t[..|p| - 1])
    ensures !Contains([c] + r1, p)
  {
    var r := [c] + r1;
    ContainsMeaning(r1, p);
    ContainsMeaning(r, p);
    forall j | 0 <= j ensures !OccursAt(r, j, p) {
      if j + |p| <= |r| {
        if j >= 1 {
          assert r[j..j + |p|] == r1[j - 1..j - 1 + |p|];
          assert !OccursAt(r1, j - 1, p);
        } else {
          assert r[..|p|] == [c] + r1[..|p| - 1];
          if q in r1[..|p| - 1] {
            assert q in r[..|p|];
          } else {
            assert ([c] + t)[..|p|] == [c] + t[..|p| - 1];
          }
        }
      }
    }
  }

  /**
   * Replacing `target` by a text fenced by a character `q` that `p` lacks creates no new
   * occurrence of `p`; and when `p` is `target` itself, none is left.
   */
  lemma {:induction false} NoOccurrenceAfterReplace(s: string, target: string, repl: string, p: string, q: char)
    requires |target| > 0 && |p| > 0 && |repl| > 0 && repl[0] == q && repl[|repl| - 1] == q && q !in p
    requires !Contains(repl, p)
    requires p == target || !Contains(s, p)
    ensures !Contains(ReplaceAll(s, target, repl), p)
    decreases |s|
  {
    if OccursAt(s, 0, target) {
      if p != target { NotContainsSuffix(s, p, |target|); }
      NoOccurrenceAfterReplace(s[|target|..], target, repl, p, q);
      FencedConcat(repl, ReplaceAll(s[|target|..], target, repl), p, q);
    } else if s != [] {
      if p != target { NotContainsSuffix(s, p, 1); }
      NoOccurrenceAfterReplace(s[1..], target, repl, p, q);
      assert s == [s[0]] + s[1..];
      if |p| - 1 <= |ReplaceAll(s[1..], target, repl)| {
        ReplacePrefixKept(s[1..], target, repl, q, |p| - 1);
      }
      ConsNoOccurrence(s[0], s[1..], ReplaceAll(s[1..], target, repl), p, q);
    }
  }
}
