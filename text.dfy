/** The JavaScript string operations the core relies on, on `string` (a
    sequence of UTF-16 code units in JavaScript, of chars here). */
module Text {
  import opened Wrappers

  /** `String.prototype.toLowerCase` on ASCII letters; every other char is kept. */
  function LowerChar(c: char): char {
    if 'A' <= c <= 'Z' then (c as int + 32) as char else c
  }

  function Lower(s: string): string {
    seq(|s|, i requires 0 <= i < |s| => LowerChar(s[i]))
  }

  /** A string without upper-case ASCII letters is its own lower case. */
  lemma LowerOfLowerCase(s: string)
    requires forall i :: 0 <= i < |s| ==> !('A' <= s[i] <= 'Z')
    ensures Lower(s) == s
  {
  }

  lemma LowerIdempotent(s: string)
    ensures Lower(Lower(s)) == Lower(s)
  {
  }

  /** `Lower` keeps the length, leaves no upper-case ASCII letter, shifts each
      upper-case letter by 32 and keeps every other char. */
  lemma LowerLowers(s: string)
    ensures |Lower(s)| == |s|
    ensures forall i :: 0 <= i < |s| ==> !('A' <= Lower(s)[i] <= 'Z')
    ensures forall i :: 0 <= i < |s| && 'A' <= s[i] <= 'Z' ==> Lower(s)[i] as int == s[i] as int + 32
    ensures forall i :: 0 <= i < |s| && !('A' <= s[i] <= 'Z') ==> Lower(s)[i] == s[i]
  {
  }

  /** Lower-casing works char by char, so it distributes over concatenation. */
  lemma LowerAppend(a: string, b: string)
    ensures Lower(a + b) == Lower(a) + Lower(b)
  {
  }

  /** `s.startsWith(prefix)` */
  predicate StartsWith(s: string, prefix: string) {
    |prefix| <= |s| && s[..|prefix|] == prefix
  }

  /** `s.endsWith(suffix)` */
  predicate EndsWith(s: string, suffix: string) {
    |suffix| <= |s| && s[|s| - |suffix|..] == suffix
  }

  /** `sep` occurs in `s` starting at index `k`. */
  predicate OccursAt(s: string, sep: string, k: nat) {
    k + |sep| <= |s| && s[k..k + |sep|] == sep
  }

  /** `s.indexOf(sep, from)`: the first occurrence of `sep` at or after `from`. */
  function IndexOf(s: string, sep: string, from: nat): (r: Option<nat>)
    decreases |s| - from
    ensures r.Some? ==> from <= r.value && OccursAt(s, sep, r.value)
    ensures r.Some? ==> forall k :: from <= k < r.value ==> !OccursAt(s, sep, k)
    ensures r.None? ==> forall k :: from <= k ==> !OccursAt(s, sep, k)
  {
    if |s| < from + |sep| then None
    else if OccursAt(s, sep, from) then Some(from)
    else IndexOf(s, sep, from + 1)
  }

  /** `s.split(sep)` for a non-empty separator: the pieces between the
      non-overlapping occurrences of `sep`, found left to right. */
  function Split(s: string, sep: string): (parts: seq<string>)
    requires sep != []
    decreases |s|
    ensures parts != []
  {
    match IndexOf(s, sep, 0)
    case None => [s]
    case Some(i) => [s[..i]] + Split(s[i + |sep|..], sep)
  }

  /** `parts.join(sep)` */
  function Join(parts: seq<string>, sep: string): string
    decreases |parts|
  {
    if parts == [] then ""
    else if |parts| == 1 then parts[0]
    else parts[0] + sep + Join(parts[1..], sep)
  }

  /** Joining the pieces of a split with the same separator gives the string back. */
  lemma {:induction false} JoinSplit(s: string, sep: string)
    requires sep != []
    decreases |s|
    ensures Join(Split(s, sep), sep) == s
  {
    match IndexOf(s, sep, 0)
    case None =>
    case Some(i) =>
      var rest := s[i + |sep|..];
      JoinSplit(rest, sep);
      assert Split(s, sep) == [s[..i]] + Split(rest, sep);
      assert s == s[..i] + sep + rest by {
        assert s[i..i + |sep|] == sep;
      }
  }

  /** The first cut is at the leftmost occurrence, and the pieces after it
      are the split of what follows that occurrence; no occurrence means one piece. */
  lemma SplitCutsAtFirst(s: string, sep: string)
    requires sep != []
    ensures IndexOf(s, sep, 0).None? <==> Split(s, sep) == [s]
    ensures IndexOf(s, sep, 0).Some? ==>
              var first := Split(s, sep)[0];
              && |Split(s, sep)| > 1
              && IndexOf(s, sep, 0) == Some(|first|)
              && Split(s, sep)[1..] == Split(s[|first| + |sep|..], sep)
  {
    match IndexOf(s, sep, 0)
    case None =>
    case Some(i) =>
      var rest := s[i + |sep|..];
      assert Split(s, sep) == [s[..i]] + Split(rest, sep);
      assert Split(rest, sep) != [];
  }

  /** No piece of a split holds the separator: every occurrence was cut out. */
  lemma {:induction false} SplitPiecesHoldNoSeparator(s: string, sep: string)
    requires sep != []
    decreases |s|
    ensures forall k :: 0 <= k < |Split(s, sep)| ==> IndexOf(Split(s, sep)[k], sep, 0).None?
  {
    match IndexOf(s, sep, 0)
    case None =>
    case Some(i) =>
      var rest := s[i + |sep|..];
      SplitPiecesHoldNoSeparator(rest, sep);
      NoneBeforeFirst(s, sep, i);
      assert Split(s, sep) == [s[..i]] + Split(rest, sep);
  }

  /** The part of `s` before its first occurrence of `sep` holds no `sep`. */
  lemma NoneBeforeFirst(s: string, sep: string, i: nat)
    requires sep != [] && i <= |s|
    requires forall k :: 0 <= k < i ==> !OccursAt(s, sep, k)
    ensures IndexOf(s[..i], sep, 0).None?
  {
    var r := IndexOf(s[..i], sep, 0);
    if r.Some? {
      OccursInPrefix(s, sep, i, r.value);
      assert false;
    }
  }

  /** An occurrence in a prefix of `s` is an occurrence in `s`, inside the prefix. */
  lemma OccursInPrefix(s: string, sep: string, i: nat, k: nat)
    requires i <= |s| && OccursAt(s[..i], sep, k)
    ensures OccursAt(s, sep, k) && k + |sep| <= i
  {
    assert s[..i][k..k + |sep|] == s[k..k + |sep|];
  }

  /** `c` does not occur in `s`. */
  predicate Excludes(s: string, c: char) {
    forall i :: 0 <= i < |s| ==> s[i] != c
  }

  /** A string that does not contain the first char of the separator is one piece. */
  lemma SplitWithoutSeparator(s: string, sep: string)
    requires sep != [] && Excludes(s, sep[0])
    ensures Split(s, sep) == [s]
  {
  }

  /** When `a` does not hold the first char of the separator, the first
      occurrence in `a + sep + b` is the one right after `a`. */
  lemma SplitAfterFirst(a: string, b: string, sep: string)
    requires sep != [] && Excludes(a, sep[0])
    ensures Split(a + sep + b, sep) == [a] + Split(b, sep)
  {
    var s := a + sep + b;
    assert OccursAt(s, sep, |a|) by {
      assert s[|a|..|a| + |sep|] == sep;
    }
    assert IndexOf(s, sep, 0) == Some(|a|);
    assert s[..|a|] == a;
    assert s[|a| + |sep|..] == b;
  }

  /** Splitting `a + sep + b` gives back `a` and `b` when neither holds the
      first char of the separator. */
  lemma SplitJoined(a: string, b: string, sep: string)
    requires sep != [] && Excludes(a, sep[0]) && Excludes(b, sep[0])
    ensures Split(a + sep + b, sep) == [a, b]
  {
    SplitAfterFirst(a, b, sep);
    SplitWithoutSeparator(b, sep);
  }

  /** `s.lastIndexOf(c)`: the index of the last `c` in `s`, or -1. */
  function LastIndexOf(s: string, c: char): (r: int)
    decreases |s|
    ensures -1 <= r < |s|
    ensures r >= 0 ==> s[r] == c
    ensures forall k :: r < k < |s| ==> s[k] != c
    ensures r == -1 <==> Excludes(s, c)
  {
    if s == [] then -1
    else if s[|s| - 1] == c then |s| - 1
    else LastIndexOf(s[..|s| - 1], c)
  }
}
