/**
 * The handful of Python `str` operations the scripts rely on, written as
 * total functions on `seq<char>`: `strip`, `split(sep)`, `sep.join(parts)`,
 * `replace`, `startswith` and the substring test `p in s`.
 */
module Text {

  /** Python's `str.isspace` for one character: the characters `str.strip()` removes. */
  predicate IsSpace(c: char) {
    || c == ' '
    || '\t' <= c <= '\r'                 // \t \n \x0b \x0c \r
    || '\U{1C}' <= c <= '\U{1F}'         // file, group, record and unit separators
    || c == '\U{85}' || c == '\U{A0}' || c == '\U{1680}'
    || '\U{2000}' <= c <= '\U{200A}'
    || c == '\U{2028}' || c == '\U{2029}' || c == '\U{202F}' || c == '\U{205F}' || c == '\U{3000}'
  }

  predicate StartsWith(s: string, prefix: string) {
    |prefix| <= |s| && s[..|prefix|] == prefix
  }

  /** Python's substring test `needle in s`. */
  predicate Contains(s: string, needle: string) {
    exists i :: 0 <= i <= |s| && StartsWith(s[i..], needle)
  }

  // ---------------------------------------------------------------------------
  // strip

  /** Number of leading characters that `drop` removes. */
  function LeadingCount(s: string, drop: char -> bool): (n: nat)
    ensures n <= |s|
    ensures forall k :: 0 <= k < n ==> drop(s[k])
    ensures n < |s| ==> !drop(s[n])
  {
    if |s| > 0 && drop(s[0]) then 1 + LeadingCount(s[1..], drop) else 0
  }

  /** A run of `n` dropped characters followed by a kept one (or the end) is the leading count. */
  lemma {:induction false} LeadingCountExact(s: string, drop: char -> bool, n: nat)
    requires n <= |s|
    requires forall k :: 0 <= k < n ==> drop(s[k])
    requires n < |s| ==> !drop(s[n])
    ensures LeadingCount(s, drop) == n
    decreases n
  {
    if n > 0 {
      LeadingCountExact(s[1..], drop, n - 1);
    }
  }

  /** A run of `n` dropped characters at the front bounds the leading count from below. */
  lemma {:induction false} LeadingCountAtLeast(s: string, drop: char -> bool, n: nat)
    requires n <= |s|
    requires forall k :: 0 <= k < n ==> drop(s[k])
    ensures LeadingCount(s, drop) >= n
    decreases n
  {
    if n > 0 {
      LeadingCountAtLeast(s[1..], drop, n - 1);
    }
  }

  /** Number of trailing characters that `drop` removes. */
  function TrailingCount(s: string, drop: char -> bool): (n: nat)
    ensures n <= |s|
    ensures forall k :: |s| - n <= k < |s| ==> drop(s[k])
    ensures n < |s| ==> !drop(s[|s| - n - 1])
  {
    if |s| > 0 && drop(s[|s| - 1]) then 1 + TrailingCount(s[..|s| - 1], drop) else 0
  }

  /**
   * Python's `s.strip(chars)` with the set of removed characters given as
   * `drop`: the longest run of `drop` characters is removed from each end.
   */
  function Trim(s: string, drop: char -> bool): (r: string)
    ensures |r| <= |s|
  {
    var t := s[LeadingCount(s, drop)..];
    t[..|t| - TrailingCount(t, drop)]
  }

  /**
   * What `Trim` keeps: a contiguous piece of `s`, everything before and after
   * it is dropped, its own ends are not, and it is empty exactly when every
   * character of `s` is dropped.
   */
  lemma TrimIsMaximal(s: string, drop: char -> bool)
    ensures var i, r := LeadingCount(s, drop), Trim(s, drop);
            && i + |r| <= |s|
            && r == s[i..i + |r|]
            && (forall k :: 0 <= k < i ==> drop(s[k]))
            && (forall k :: i + |r| <= k < |s| ==> drop(s[k]))
            && (r != [] ==> !drop(r[0]) && !drop(r[|r| - 1]))
            && (r == [] <==> forall k :: 0 <= k < |s| ==> drop(s[k]))
  {
    var i := LeadingCount(s, drop);
    var t := s[i..];
    var r := Trim(s, drop);
    assert r != [] ==> t[0] == r[0];
  }

  /** A kept character at index `j` lies inside the trimmed slice. */
  lemma TrimCovers(s: string, drop: char -> bool, j: nat)
    requires j < |s| && !drop(s[j])
    ensures var i, r := LeadingCount(s, drop), Trim(s, drop);
            i <= j < i + |r| <= |s| && r == s[i..i + |r|]
  {
    TrimIsMaximal(s, drop);
  }

  /** Python's `s.strip()`. */
  function Strip(s: string): string {
    Trim(s, IsSpace)
  }

  /** Stripping twice removes nothing more than stripping once. */
  lemma {:induction false} TrimIdempotent(s: string, drop: char -> bool)
    ensures Trim(Trim(s, drop), drop) == Trim(s, drop)
  {
    TrimIsMaximal(s, drop);
    var r := Trim(s, drop);
    assert LeadingCount(r, drop) == 0;
    var t := r[LeadingCount(r, drop)..];
    assert t == r;
    assert TrailingCount(r, drop) == 0;
  }

  /** A string whose ends are kept by `drop` is its own trim. */
  lemma {:induction false} TrimKeepsClean(s: string, drop: char -> bool)
    requires s != [] ==> !drop(s[0]) && !drop(s[|s| - 1])
    ensures Trim(s, drop) == s
  {
    assert LeadingCount(s, drop) == 0;
    assert s[0..] == s;
    assert TrailingCount(s, drop) == 0;
  }

  // ---------------------------------------------------------------------------
  // split and join

  /** Position of the first `c` in `s`. */
  function IndexOf(s: string, c: char): (i: nat)
    requires c in s
    ensures i < |s| && s[i] == c && c !in s[..i]
  {
    if s[0] == c then 0 else 1 + IndexOf(s[1..], c)
  }

  /** Python's `s.split(sep)` for a one-character separator. */
  function Split(s: string, sep: char): (parts: seq<string>)
    ensures |parts| >= 1
    ensures forall p :: p in parts ==> sep !in p
    decreases |s|
  {
    if sep !in s then [s]
    else
      var i := IndexOf(s, sep);
      [s[..i]] + Split(s[i + 1..], sep)
  }

  /** Python's `sep.join(parts)`. */
  function Join(sep: string, parts: seq<string>): (r: string)
    decreases |parts|
  {
    if |parts| == 0 then ""
    else if |parts| == 1 then parts[0]
    else parts[0] + sep + Join(sep, parts[1..])
  }

  /** Python's `s.split(sep)[0]`: the text before the first `sep`, or all of `s`. */
  function FirstField(s: string, sep: char): (r: string)
    ensures StartsWith(s, r) && sep !in r
    ensures |r| < |s| ==> s[|r|] == sep
    ensures sep !in s ==> r == s
  {
    if sep !in s then s else s[..IndexOf(s, sep)]
  }

  /** The first piece of a split is the text before the first separator. */
  lemma SplitHead(s: string, sep: char)
    ensures Split(s, sep)[0] == FirstField(s, sep)
  {
  }

  /** `s.split(sep, 1)`: the text before the first separator and the text after it, or `[s]`. */
  function SplitOnce(s: string, sep: char): (parts: seq<string>)
    ensures 1 <= |parts| <= 2
    ensures |parts| == 2 <==> sep in s
    ensures |parts| == 1 ==> parts[0] == s
    ensures |parts| == 2 ==> s == parts[0] + [sep] + parts[1] && sep !in parts[0]
  {
    if sep !in s then [s]
    else
      var at := IndexOf(s, sep);
      assert s == s[..at] + [sep] + s[at + 1..];
      [s[..at], s[at + 1..]]
  }

  /** Joining the pieces of a single split with the separator gives the text back. */
  lemma SplitOnceJoins(s: string, sep: char)
    ensures Join([sep], SplitOnce(s, sep)) == s
  {
    var parts := SplitOnce(s, sep);
    if |parts| == 2 {
      assert Join([sep], parts) == parts[0] + [sep] + Join([sep], parts[1..]);
      assert Join([sep], parts[1..]) == parts[1];
    }
  }

  /** The first field of `a + b` is `a` when `a` holds no separator and `b` is empty or starts with one. */
  lemma FirstFieldOf(a: string, sep: char, b: string)
    requires sep !in a
    requires b == [] || b[0] == sep
    ensures FirstField(a + b, sep) == a
  {
    var s := a + b;
    assert s[..|a|] == a;
    if b != [] {
      assert s[|a|] == sep;
    }
  }

  lemma SplitAt(a: string, sep: char, b: string)
    requires sep !in a
    ensures Split(a + [sep] + b, sep) == [a] + Split(b, sep)
  {
    var s := a + [sep] + b;
    assert s[|a|] == sep;
    assert s[..|a|] == a;
    assert s[|a| + 1..] == b;
  }

  /** Joining the pieces of a split with the same separator gives the string back. */
  lemma {:induction false} JoinSplit(s: string, sep: char)
    ensures Join([sep], Split(s, sep)) == s
    decreases |s|
  {
    if sep in s {
      var i := IndexOf(s, sep);
      var rest := s[i + 1..];
      JoinSplit(rest, sep);
      assert s == s[..i] + [sep] + rest;
    }
  }

  /** Splitting a join of separator-free pieces gives the pieces back. */
  lemma {:induction false} SplitJoin(parts: seq<string>, sep: char)
    requires |parts| >= 1
    requires forall k :: 0 <= k < |parts| ==> sep !in parts[k]
    ensures Split(Join([sep], parts), sep) == parts
    decreases |parts|
  {
    if |parts| > 1 {
      SplitJoin(parts[1..], sep);
      SplitAt(parts[0], sep, Join([sep], parts[1..]));
      assert parts == [parts[0]] + parts[1..];
    }
  }

  /** The length of a join: the pieces plus one separator between each pair. */
  lemma {:induction false} JoinLength(sep: string, parts: seq<string>, total: nat)
    requires |parts| >= 1
    requires total == SumLengths(parts)
    ensures |Join(sep, parts)| == total + (|parts| - 1) * |sep|
    decreases |parts|
  {
    if |parts| > 1 {
      JoinLength(sep, parts[1..], SumLengths(parts[1..]));
    }
  }

  function SumLengths(parts: seq<string>): nat {
    if parts == [] then 0 else |parts[0]| + SumLengths(parts[1..])
  }

  // ---------------------------------------------------------------------------
  // replace

  /** Python's `s.replace(a, b)` for single characters. */
  function ReplaceChar(s: string, a: char, b: char): (r: string)
    ensures |r| == |s|
    ensures forall k :: 0 <= k < |s| ==> r[k] == (if s[k] == a then b else s[k])
    ensures a != b ==> a !in r
  {
    if s == [] then []
    else [if s[0] == a then b else s[0]] + ReplaceChar(s[1..], a, b)
  }

  /**
   * Python's `s.replace(pattern, "")`: occurrences are found from left to
   * right and do not overlap; the text between them is kept.
   */
  function RemoveAll(s: string, pattern: string): (r: string)
    requires pattern != []
    ensures |r| <= |s|
    decreases |s|
  {
    if |s| < |pattern| then s
    else if s[..|pattern|] == pattern then RemoveAll(s[|pattern|..], pattern)
    else [s[0]] + RemoveAll(s[1..], pattern)
  }

  /** When no occurrence of `pattern` begins inside `a`, the removal passes `a` through. */
  lemma {:induction false} RemoveAllKeepsPrefix(a: string, b: string, pattern: string)
    requires pattern != []
    requires forall i :: 0 <= i < |a| ==> !StartsWith(a[i..] + b, pattern)
    ensures RemoveAll(a + b, pattern) == a + RemoveAll(b, pattern)
    decreases |a|
  {
    if a != [] {
      var s := a + b;
      assert a[0..] + b == s;
      assert !StartsWith(s, pattern);
      assert s[1..] == a[1..] + b;
      forall i | 0 <= i < |a[1..]|
        ensures !StartsWith(a[1..][i..] + b, pattern)
      {
        assert a[1..][i..] == a[i + 1..];
      }
      RemoveAllKeepsPrefix(a[1..], b, pattern);
    } else {
      assert a + b == b;
    }
  }
}
