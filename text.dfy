/**
 * The few JavaScript string operations the export pipeline relies on, over `seq<char>`:
 * `indexOf`, `startsWith`-by-`indexOf`, `split` and `join` with a string separator,
 * and `replace` with a string pattern (first occurrence only, replacement taken literally).
 */
module Text {
  import opened Wrappers

  /** `p` occurs in `s` starting at index `i`. */
  predicate OccursAt(s: string, p: string, i: nat) {
    i + |p| <= |s| && s[i..i + |p|] == p
  }

  /** A one-character pattern occurs where that character stands. */
  lemma OccursAtChar(s: string, c: char, i: nat)
    ensures OccursAt(s, [c], i) <==> i < |s| && s[i] == c
  {
    if i < |s| {
      assert s[i..i + 1] == [s[i]];
    }
  }

  /** Adjacent occurrences of `a` and `b` make an occurrence of `a + b`. */
  lemma OccursConcat(s: string, a: string, b: string, i: nat)
    requires OccursAt(s, a, i) && OccursAt(s, b, i + |a|)
    ensures OccursAt(s, a + b, i)
  {
    assert s[i..i + |a| + |b|] == s[i..i + |a|] + s[i + |a|..i + |a| + |b|];
  }

  /** An occurrence of `a + b` is an occurrence of `a` followed by one of `b`. */
  lemma OccursSplit(s: string, a: string, b: string, i: nat)
    requires OccursAt(s, a + b, i)
    ensures OccursAt(s, a, i) && OccursAt(s, b, i + |a|)
  {
    assert s[i..i + |a|] == (a + b)[..|a|];
    assert s[i + |a|..i + |a| + |b|] == (a + b)[|a|..];
  }

  /** A text is what stands before an occurrence, the occurrence, and what follows it. */
  lemma OccursCut(s: string, p: string, i: nat)
    requires OccursAt(s, p, i)
    ensures s == s[..i] + p + s[i + |p|..]
  {
    assert s == s[..i] + s[i..i + |p|] + s[i + |p|..];
  }

  /** `p` occurs somewhere in `s`. */
  ghost predicate Contains(s: string, p: string) {
    exists i: nat :: OccursAt(s, p, i)
  }

  /** The first index at or after `from` where `p` occurs (String.prototype.indexOf). */
  function IndexFrom(s: string, p: string, from: nat): (r: Option<nat>)
    decreases |s| - from
    ensures r.Some? ==> from <= r.value && OccursAt(s, p, r.value)
    ensures r.Some? ==> forall j :: from <= j < r.value ==> !OccursAt(s, p, j)
    ensures r.None? ==> forall j :: from <= j ==> !OccursAt(s, p, j)
  {
    if from + |p| > |s| then None
    else if s[from..from + |p|] == p then Some(from)
    else IndexFrom(s, p, from + 1)
  }

  function IndexOf(s: string, p: string): (r: Option<nat>)
    ensures r.Some? ==> OccursAt(s, p, r.value) && forall j :: 0 <= j < r.value ==> !OccursAt(s, p, j)
    ensures r.None? ==> forall j :: 0 <= j ==> !OccursAt(s, p, j)
  {
    IndexFrom(s, p, 0)
  }

  /** `indexOf` reports no index exactly when the pattern occurs nowhere. */
  lemma IndexOfNone(s: string, p: string)
    ensures IndexOf(s, p).None? <==> !Contains(s, p)
  {
    if IndexOf(s, p).Some? {
      assert OccursAt(s, p, IndexOf(s, p).value);
    }
  }

  /** `s.indexOf(p) == 0` holds exactly when `s` starts with `p`. */
  lemma IndexOfZero(s: string, p: string)
    ensures IndexOf(s, p) == Some(0) <==> p <= s
  {
    if p <= s {
      assert OccursAt(s, p, 0);
    }
  }

  /** A character that is absent leaves a one-character pattern without occurrence. */
  lemma AbsentChar(s: string, c: char)
    requires forall k :: 0 <= k < |s| ==> s[k] != c
    ensures IndexOf(s, [c]) == None
  {
    forall i: nat ensures !OccursAt(s, [c], i) {
      OccursAtChar(s, c, i);
    }
  }

  /** `s.split(sep)`: the pieces between the non-overlapping occurrences of `sep`, left to right. */
  function Split(s: string, sep: string): (parts: seq<string>)
    requires |sep| > 0
    decreases |s|
    ensures |parts| >= 1
  {
    match IndexOf(s, sep)
    case None => [s]
    case Some(i) => [s[..i]] + Split(s[i + |sep|..], sep)
  }

  /** `parts.join(sep)`. */
  function Join(parts: seq<string>, sep: string): string
    decreases |parts|
  {
    if |parts| == 0 then ""
    else if |parts| == 1 then parts[0]
    else parts[0] + sep + Join(parts[1..], sep)
  }

  /**
   * One step of `split` at the first occurrence of the separator: the piece before it,
   * then the split of the rest; the text is that piece, the separator and the rest.
   */
  lemma SplitAt(s: string, sep: string, i: nat)
    requires |sep| > 0 && IndexOf(s, sep) == Some(i)
    ensures i + |sep| <= |s|
    ensures Split(s, sep) == [s[..i]] + Split(s[i + |sep|..], sep)
    ensures s == s[..i] + sep + s[i + |sep|..]
  {
    OccursCut(s, sep, i);
  }

  /**
   * `split` cuts at the leftmost occurrence: the first piece is a prefix of the text with no
   * occurrence of the separator starting inside it; either it is the whole text and the
   * separator occurs nowhere, or the separator stands right after it and the remaining
   * pieces are the split of what follows.
   */
  lemma SplitFirstPiece(s: string, sep: string)
    requires |sep| > 0
    ensures var parts := Split(s, sep);
      var p := parts[0];
      && |p| <= |s| && s[..|p|] == p
      && (forall j :: 0 <= j < |p| ==> !OccursAt(s, sep, j))
      && (|parts| == 1 ==> p == s && !Contains(s, sep))
      && (|parts| > 1 ==> OccursAt(s, sep, |p|) && parts[1..] == Split(s[|p| + |sep|..], sep))
  {
    match IndexOf(s, sep)
    case None =>
      IndexOfNone(s, sep);
    case Some(i) =>
      SplitAt(s, sep, i);
      var parts := Split(s, sep);
      assert parts[0] == s[..i] && parts[1..] == Split(s[i + |sep|..], sep);
  }

  lemma JoinCons(a: string, parts: seq<string>, sep: string)
    requires |parts| >= 1
    ensures Join([a] + parts, sep) == a + sep + Join(parts, sep)
  {
    assert ([a] + parts)[1..] == parts;
  }

  /** Joining the pieces of a split with the same separator gives back the original text. */
  lemma {:induction false} JoinSplit(s: string, sep: string)
    requires |sep| > 0
    ensures Join(Split(s, sep), sep) == s
    decreases |s|
  {
    match IndexOf(s, sep)
    case None =>
    case Some(i) =>
      var rest := s[i + |sep|..];
      SplitAt(s, sep, i);
      JoinSplit(rest, sep);
      JoinCons(s[..i], Split(rest, sep), sep);
  }

  lemma OccursInPrefix(s: string, p: string, n: nat, j: nat)
    requires n <= |s| && OccursAt(s[..n], p, j)
    ensures OccursAt(s, p, j)
  {
    assert s[..n][j..j + |p|] == s[j..j + |p|];
  }

  lemma OccursInSuffix(s: string, p: string, n: nat, j: nat)
    requires n <= |s| && OccursAt(s[n..], p, j)
    ensures OccursAt(s, p, n + j)
  {
    assert s[n..][j..j + |p|] == s[n + j..n + j + |p|];
  }

  /** No piece of a split contains the separator. */
  lemma {:induction false} SplitPiecesAvoidSep(s: string, sep: string)
    requires |sep| > 0
    ensures forall k :: 0 <= k < |Split(s, sep)| ==> !Contains(Split(s, sep)[k], sep)
    decreases |s|
  {
    match IndexOf(s, sep)
    case None =>
    case Some(i) =>
      var rest := s[i + |sep|..];
      SplitPiecesAvoidSep(rest, sep);
      if Contains(s[..i], sep) {
        var j: nat :| OccursAt(s[..i], sep, j);
        OccursInPrefix(s, sep, i, j);
        assert false;
      }
      assert Split(s, sep) == [s[..i]] + Split(rest, sep);
  }

  /**
   * `s.replace(pat, rep)` with a string pattern: the first occurrence of `pat` is replaced by `rep`;
   * without an occurrence the text is returned unchanged.
   */
  function ReplaceFirst(s: string, pat: string, rep: string): string {
    match IndexOf(s, pat)
    case None => s
    case Some(i) => s[..i] + rep + s[i + |pat|..]
  }

  /** A character of `s` satisfies `stop` nowhere in `s[i..j]`. */
  predicate NoneIn(s: string, i: nat, j: nat, stop: char -> bool)
    requires i <= j <= |s|
  {
    forall k :: i <= k < j ==> !stop(s[k])
  }

  /** The length of the longest run from `i` of characters that do not satisfy `stop`. */
  function Span(s: string, i: nat, stop: char -> bool): (n: nat)
    requires i <= |s|
    decreases |s| - i
    ensures i + n <= |s| && NoneIn(s, i, i + n, stop)
    ensures i + n == |s| || stop(s[i + n])
  {
    if i == |s| || stop(s[i]) then 0 else 1 + Span(s, i + 1, stop)
  }

  /** A maximal run is determined by the characters it covers and the one that ends it. */
  lemma {:induction false} SpanExact(s: string, i: nat, n: nat, stop: char -> bool)
    requires i + n <= |s| && NoneIn(s, i, i + n, stop)
    requires i + n == |s| || stop(s[i + n])
    ensures Span(s, i, stop) == n
    decreases n
  {
    if n > 0 {
      SpanExact(s, i + 1, n - 1, stop);
    }
  }
}
