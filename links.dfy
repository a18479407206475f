/**
 * `handleLinks`: wiki references `[[target#anchor|alias]]` and embeds `![[...]]` in an article
 * are found, parsed, resolved against the note index and replaced by Markdown.
 *
 * The two regular expressions of the source are hand-written scanners here:
 * the reference scanner `(!?)\[\[([^\]]+)\]\]` (global, leftmost, non-overlapping) and the
 * payload grammar `^([^#|]*)(?:#([^|]*))?(?:\|(.+))?$`.
 */
module Links {
  import opened Wrappers
  import opened Text
  import opened NoteIndex
  import opened Images

  // ---------------------------------------------------------------------------------------
  // The leading title heading: `article.replace(/^\n*# .*\n*/, '')`

  /** The characters a regular-expression `.` does not match. */
  predicate IsLineTerminator(c: char) {
    c == '\n' || c == '\r' || c == '\U{2028}' || c == '\U{2029}'
  }

  predicate NotNewline(c: char) {
    c != '\n'
  }

  /** Leading newlines, then `# `, the rest of that line, and the newlines after it are removed. */
  function StripHeading(s: string): string {
    var a := Span(s, 0, NotNewline);
    if !OccursAt(s, "# ", a) then s
    else
      var b := a + 2 + Span(s, a + 2, IsLineTerminator);
      var c := b + Span(s, b, NotNewline);
      s[c..]
  }

  /** The leading newlines of `s` end at `a`. */
  lemma LeadingNewlines(s: string) returns (a: nat)
    ensures a == Span(s, 0, NotNewline)
    ensures a <= |s| && (forall k :: 0 <= k < a ==> s[k] == '\n') && (a == |s| || s[a] != '\n')
  {
    a := Span(s, 0, NotNewline);
    assert NoneIn(s, 0, a, NotNewline);
  }

  /** The rest of the heading line after `a + 2` ends at `b`, the newlines after it at `c`. */
  lemma HeadingSpans(s: string, a: nat) returns (b: nat, c: nat)
    requires a + 2 <= |s|
    ensures b == a + 2 + Span(s, a + 2, IsLineTerminator) && c == b + Span(s, b, NotNewline)
    ensures a + 2 <= b <= c <= |s|
    ensures forall k :: a + 2 <= k < b ==> !IsLineTerminator(s[k])
    ensures forall k :: b <= k < c ==> s[k] == '\n'
    ensures c == |s| || (s[c] != '\n' && (b < c || IsLineTerminator(s[c])))
  {
    b := a + 2 + Span(s, a + 2, IsLineTerminator);
    c := b + Span(s, b, NotNewline);
    assert NoneIn(s, a + 2, b, IsLineTerminator);
    assert NoneIn(s, b, c, NotNewline);
  }

  /** When `# ` follows the leading newlines, the heading line and the newlines after it go. */
  lemma HeadingRemoved(s: string, a: nat) returns (b: nat, c: nat)
    requires a == Span(s, 0, NotNewline) && OccursAt(s, "# ", a)
    ensures a + 2 <= b <= c <= |s| && StripHeading(s) == s[c..] && StripHeading(s) != s
    ensures s[a..a + 2] == "# "
    ensures forall k :: a + 2 <= k < b ==> !IsLineTerminator(s[k])
    ensures forall k :: b <= k < c ==> s[k] == '\n'
    ensures c == |s| || (s[c] != '\n' && (b < c || IsLineTerminator(s[c])))
  {
    b, c := HeadingSpans(s, a);
    StrippedAt(s, a, b, c);
    assert |s[c..]| < |s|;
  }

  /** The stripped text once the three spans are known. */
  lemma StrippedAt(s: string, a: nat, b: nat, c: nat)
    requires a == Span(s, 0, NotNewline) && OccursAt(s, "# ", a)
    requires b == a + 2 + Span(s, a + 2, IsLineTerminator) && c == b + Span(s, b, NotNewline)
    requires c <= |s|
    ensures StripHeading(s) == s[c..]
  {
  }

  /**
   * The stripped text is a suffix `s[c..]` of the article. When something is stripped, the
   * removed prefix `s[..c]` is newlines `s[..a]`, `# `, a line `s[a+2..b]` without line
   * terminators and newlines `s[b..c]`, and the match is as long as the pattern allows.
   * When nothing is stripped, the article does not start with `# ` after its leading newlines.
   */
  lemma StripHeadingShape(s: string) returns (a: nat, b: nat, c: nat)
    ensures a <= |s| && (forall k :: 0 <= k < a ==> s[k] == '\n') && (a == |s| || s[a] != '\n')
    ensures StripHeading(s) == s ==> !OccursAt(s, "# ", a)
    ensures StripHeading(s) != s ==>
      && a + 2 <= b <= c <= |s| && StripHeading(s) == s[c..]
      && s[a..a + 2] == "# "
      && (forall k :: a + 2 <= k < b ==> !IsLineTerminator(s[k]))
      && (forall k :: b <= k < c ==> s[k] == '\n')
      && (c == |s| || (s[c] != '\n' && (b < c || IsLineTerminator(s[c]))))
  {
    a := LeadingNewlines(s);
    if OccursAt(s, "# ", a) {
      b, c := HeadingRemoved(s, a);
    } else {
      b, c := a, a;
      assert StripHeading(s) == s;
    }
  }

  // ---------------------------------------------------------------------------------------
  // The reference scanner: `(!?)\[\[([^\]]+)\]\]`

  /** A matched reference: `link[1] == "!"` and `link[2]`. */
  datatype RawLink = RawLink(embed: bool, payload: string)

  /** The matched text `link[0]`. */
  function Full(l: RawLink): string {
    (if l.embed then "!" else "") + "[[" + l.payload + "]]"
  }

  predicate IsCloseBracket(c: char) {
    c == ']'
  }

  /** What `[^\]]+` allows between the brackets: a non-empty text without `]`. */
  predicate WellFormedLink(l: RawLink) {
    |l.payload| > 0 && forall k :: 0 <= k < |l.payload| ==> l.payload[k] != ']'
  }

  /** `\[\[([^\]]+)\]\]` tried at index `i`: the payload when it matches there. */
  function BracketAt(s: string, i: nat): Option<string> {
    if !OccursAt(s, "[[", i) then None
    else
      var n := Span(s, i + 2, IsCloseBracket);
      if n > 0 && OccursAt(s, "]]", i + 2 + n) then Some(s[i + 2..i + 2 + n]) else None
  }

  lemma BracketAtSound(s: string, i: nat)
    requires BracketAt(s, i).Some?
    ensures WellFormedLink(RawLink(false, BracketAt(s, i).value))
    ensures OccursAt(s, Full(RawLink(false, BracketAt(s, i).value)), i)
  {
    var n := Span(s, i + 2, IsCloseBracket);
    var p := s[i + 2..i + 2 + n];
    assert BracketAt(s, i) == Some(p);
    forall k | 0 <= k < |p| ensures p[k] != ']' {
      assert p[k] == s[i + 2 + k];
    }
    OccursConcat(s, "[[", p, i);
    OccursConcat(s, "[[" + p, "]]", i);
  }

  /** The whole pattern tried at index `i`; a leading `!` is taken when the rest matches after it. */
  function MatchAt(s: string, i: nat): Option<RawLink> {
    if i < |s| && s[i] == '!' && BracketAt(s, i + 1).Some? then Some(RawLink(true, BracketAt(s, i + 1).value))
    else if BracketAt(s, i).Some? then Some(RawLink(false, BracketAt(s, i).value))
    else None
  }

  lemma MatchAtSound(s: string, i: nat)
    requires MatchAt(s, i).Some?
    ensures WellFormedLink(MatchAt(s, i).value) && OccursAt(s, Full(MatchAt(s, i).value), i)
  {
    if i < |s| && s[i] == '!' && BracketAt(s, i + 1).Some? {
      var l := RawLink(true, BracketAt(s, i + 1).value);
      assert MatchAt(s, i) == Some(l);
      BracketAtSound(s, i + 1);
      OccursAtChar(s, '!', i);
      OccursConcat(s, "!", Full(RawLink(false, l.payload)), i);
      assert Full(l) == "!" + Full(RawLink(false, l.payload));
    } else {
      BracketAtSound(s, i);
    }
  }

  /** The text `[[p]]` standing at `i` is `[[`, then `p`, then `]]`. */
  lemma BracketParts(s: string, i: nat, p: string)
    requires OccursAt(s, Full(RawLink(false, p)), i)
    ensures OccursAt(s, "[[", i) && OccursAt(s, p, i + 2) && OccursAt(s, "]]", i + 2 + |p|)
  {
    assert Full(RawLink(false, p)) == "[[" + p + "]]";
    OccursSplit(s, "[[" + p, "]]", i);
    OccursSplit(s, "[[", p, i);
  }

  lemma BracketAtComplete(s: string, i: nat, p: string)
    requires WellFormedLink(RawLink(false, p)) && OccursAt(s, Full(RawLink(false, p)), i)
    ensures BracketAt(s, i) == Some(p)
  {
    BracketParts(s, i, p);
    assert s[i + 2 + |p|] == ']' by {
      assert s[i + 2 + |p|..i + 4 + |p|][0] == s[i + 2 + |p|];
    }
    SpanOfPrefix(s, i + 2, p, IsCloseBracket);
  }

  /** The pattern matches at `i` with exactly the references whose text stands at `i`. */
  lemma MatchAtIff(s: string, i: nat, l: RawLink)
    ensures MatchAt(s, i) == Some(l) <==> WellFormedLink(l) && OccursAt(s, Full(l), i)
  {
    if MatchAt(s, i) == Some(l) {
      MatchAtSound(s, i);
    }
    if WellFormedLink(l) && OccursAt(s, Full(l), i) {
      var bare := RawLink(false, l.payload);
      if l.embed {
        assert Full(l) == "!" + Full(bare);
        OccursSplit(s, "!", Full(bare), i);
        OccursAtChar(s, '!', i);
        BracketAtComplete(s, i + 1, l.payload);
      } else {
        assert s[i] == Full(l)[0] == '[';
        BracketAtComplete(s, i, l.payload);
      }
    }
  }

  /** A reference found by the scan: where it starts and what it is. */
  datatype Occurrence = Occurrence(start: nat, link: RawLink)

  function End(o: Occurrence): nat {
    o.start + |Full(o.link)|
  }

  /** Occurrences in order, each standing at its place, none overlapping the next. */
  predicate Tiled(s: string, occs: seq<Occurrence>, from: nat)
    decreases |occs|
  {
    from <= |s| &&
    (occs != [] ==>
      from <= occs[0].start && OccursAt(s, Full(occs[0].link), occs[0].start)
      && Tiled(s, occs[1..], End(occs[0])))
  }

  /** A pattern tried at an index of a text. */
  type Matcher = (string, nat) -> Option<RawLink>

  /** `[...text.matchAll(regex)]` from index `i` on, for the pattern `m`: leftmost, global. */
  function ScanWith(m: Matcher, s: string, i: nat): seq<Occurrence>
    decreases |s| - i
  {
    if i >= |s| then []
    else
      match m(s, i)
      case Some(l) => [Occurrence(i, l)] + ScanWith(m, s, i + |Full(l)|)
      case None => ScanWith(m, s, i + 1)
  }

  /** One step of the scan at a match ... */
  lemma ScanHit(m: Matcher, s: string, i: nat, l: RawLink)
    requires i < |s| && m(s, i) == Some(l)
    ensures ScanWith(m, s, i) == [Occurrence(i, l)] + ScanWith(m, s, i + |Full(l)|)
  {
  }

  /** ... and at an index where nothing matches. */
  lemma ScanMiss(m: Matcher, s: string, i: nat)
    requires i < |s| && m(s, i).None?
    ensures ScanWith(m, s, i) == ScanWith(m, s, i + 1)
  {
  }

  /** `[...article.matchAll(regex)]` from index `i` on. */
  function Scan(s: string, i: nat): seq<Occurrence> {
    ScanWith(MatchAt, s, i)
  }

  /** Every match `m` reports on `s` stands where it says. */
  ghost predicate MatchesStand(m: Matcher, s: string) {
    forall j: nat :: m(s, j).Some? ==> OccursAt(s, Full(m(s, j).value), j)
  }

  lemma MatchAtStands(s: string)
    ensures MatchesStand(MatchAt, s)
  {
    forall j: nat | MatchAt(s, j).Some? ensures OccursAt(s, Full(MatchAt(s, j).value), j) {
      MatchAtSound(s, j);
    }
  }

  lemma {:induction false} ScanWithTiled(m: Matcher, s: string, i: nat)
    requires i <= |s| && MatchesStand(m, s)
    ensures Tiled(s, ScanWith(m, s, i), i)
    decreases |s| - i
  {
    if i < |s| {
      match m(s, i)
      case Some(l) =>
        ScanWithTiled(m, s, i + |Full(l)|);
        var occs := [Occurrence(i, l)] + ScanWith(m, s, i + |Full(l)|);
        assert occs[1..] == ScanWith(m, s, i + |Full(l)|);
      case None =>
        ScanWithTiled(m, s, i + 1);
    }
  }

  /** The occurrences the scan finds stand where it says, in order and without overlap. */
  lemma ScanTiled(s: string, i: nat)
    requires i <= |s|
    ensures Tiled(s, Scan(s, i), i)
  {
    MatchAtStands(s);
    ScanWithTiled(MatchAt, s, i);
  }

  /** `m` reports no match at an index in `[from, to)`. */
  ghost predicate NoMatchIn(m: Matcher, s: string, from: nat, to: nat)
    decreases to - from
  {
    from >= to || (m(s, from).None? && NoMatchIn(m, s, from + 1, to))
  }

  lemma {:induction false} NoMatchInIff(m: Matcher, s: string, from: nat, to: nat)
    ensures NoMatchIn(m, s, from, to) <==> (forall j :: from <= j < to ==> m(s, j).None?)
    decreases if from < to then to - from else 0
  {
    if from < to {
      NoMatchInIff(m, s, from + 1, to);
    }
  }

  /**
   * The declarative reading of a global leftmost scan from `from`: no match starts before
   * the first occurrence, the first occurrence is the match at its start, and the scan goes
   * on right after it.
   */
  ghost predicate IsScan(m: Matcher, s: string, occs: seq<Occurrence>, from: nat)
    decreases |occs|
  {
    if occs == [] then
      NoMatchIn(m, s, from, |s|)
    else
      && from <= occs[0].start < |s|
      && NoMatchIn(m, s, from, occs[0].start)
      && m(s, occs[0].start) == Some(occs[0].link)
      && IsScan(m, s, occs[1..], End(occs[0]))
  }

  /** The scanner meets the declarative reading ... */
  lemma {:induction false} ScanIsScan(m: Matcher, s: string, i: nat)
    ensures IsScan(m, s, ScanWith(m, s, i), i)
    decreases |s| - i
  {
    if i < |s| {
      match m(s, i)
      case Some(l) =>
        var rest := ScanWith(m, s, i + |Full(l)|);
        ScanIsScan(m, s, i + |Full(l)|);
        assert ([Occurrence(i, l)] + rest)[1..] == rest;
      case None =>
        ScanIsScan(m, s, i + 1);
    }
  }

  /** ... and nothing else does: a list of occurrences read that way is the scan. */
  lemma {:induction false} ScanUnique(m: Matcher, s: string, occs: seq<Occurrence>, i: nat)
    requires IsScan(m, s, occs, i)
    ensures occs == ScanWith(m, s, i)
    decreases |s| - i
  {
    if i < |s| {
      if occs != [] && occs[0].start == i {
        ScanUnique(m, s, occs[1..], End(occs[0]));
      } else {
        ScanUnique(m, s, occs, i + 1);
      }
    }
  }

  // ---------------------------------------------------------------------------------------
  // The payload grammar: `^([^#|]*)(?:#([^|]*))?(?:\|(.+))?$`

  /** `matches[1]`, `matches[2]` and `matches[3]` of a payload that fits the grammar. */
  datatype Payload = Payload(target: string, anchor: Option<string>, alias: Option<string>)

  predicate IsHashOrBar(c: char) {
    c == '#' || c == '|'
  }

  predicate IsBar(c: char) {
    c == '|'
  }

  /** The payload split into target, optional anchor and optional alias; `None` where `match` gives `null`. */
  function ParsePayload(p: string): Option<Payload> {
    var n := Span(p, 0, IsHashOrBar);
    if n < |p| && p[n] == '#' then
      var m := Span(p, n + 1, IsBar);
      ParseAlias(p, n + 1 + m, p[..n], Some(p[n + 1..n + 1 + m]))
    else
      ParseAlias(p, n, p[..n], None)
  }

  /** The optional `|alias` part at index `j`, which must run to the end of the payload. */
  function ParseAlias(p: string, j: nat, target: string, anchor: Option<string>): Option<Payload>
    requires j <= |p|
  {
    if j == |p| then Some(Payload(target, anchor, None))
    else if p[j] == '|' && j + 1 < |p| && NoneIn(p, j + 1, |p|, IsLineTerminator) then
      Some(Payload(target, anchor, Some(p[j + 1..])))
    else None
  }

  function AnchorText(anchor: Option<string>): string {
    match anchor
    case Some(a) => "#" + a
    case None => ""
  }

  function AliasText(alias: Option<string>): string {
    match alias
    case Some(b) => "|" + b
    case None => ""
  }

  /** The text a payload is made of. */
  function Unparse(pl: Payload): string {
    pl.target + AnchorText(pl.anchor) + AliasText(pl.alias)
  }

  /** What the grammar admits: a target without `#` or `|`, an anchor without `|`, a non-empty one-line alias. */
  predicate WellFormedPayload(pl: Payload) {
    && (forall k :: 0 <= k < |pl.target| ==> !IsHashOrBar(pl.target[k]))
    && (pl.anchor.Some? ==> forall k :: 0 <= k < |pl.anchor.value| ==> !IsBar(pl.anchor.value[k]))
    && (pl.alias.Some? ==>
          |pl.alias.value| > 0 && forall k :: 0 <= k < |pl.alias.value| ==> !IsLineTerminator(pl.alias.value[k]))
  }

  lemma ParseAliasSound(p: string, j: nat, target: string, anchor: Option<string>)
    requires j <= |p| && ParseAlias(p, j, target, anchor).Some?
    ensures var pl := ParseAlias(p, j, target, anchor).value;
      pl.target == target && pl.anchor == anchor
      && (pl.alias.Some? ==>
            |pl.alias.value| > 0 && forall k :: 0 <= k < |pl.alias.value| ==> !IsLineTerminator(pl.alias.value[k]))
      && p[j..] == AliasText(pl.alias)
  {
    if j < |p| {
      var b := p[j + 1..];
      assert p[j..] == [p[j]] + b;
      forall k | 0 <= k < |b| ensures !IsLineTerminator(b[k]) {
        assert b[k] == p[j + 1 + k];
      }
    }
  }

  /** The characters of a maximal run are free of the stop character. */
  lemma SpanIsClean(p: string, i: nat, stop: char -> bool)
    requires i <= |p|
    ensures var u := p[i..i + Span(p, i, stop)]; forall k :: 0 <= k < |u| ==> !stop(u[k])
  {
    var u := p[i..i + Span(p, i, stop)];
    forall k | 0 <= k < |u| ensures !stop(u[k]) {
      assert u[k] == p[i + k];
    }
  }

  /** A payload whose parts are consecutive slices of `p` is written back as `p`. */
  lemma UnparseFromSlices(p: string, n: nat, j: nat, pl: Payload)
    requires n <= j <= |p| && p[..n] == pl.target && p[n..j] == AnchorText(pl.anchor) && p[j..] == AliasText(pl.alias)
    ensures Unparse(pl) == p
  {
    assert p == p[..n] + p[n..j] + p[j..];
  }

  /** The well-formedness of a payload, from its three parts. */
  lemma WellFormedFromParts(t: string, anchor: Option<string>, alias: Option<string>)
    requires forall k :: 0 <= k < |t| ==> !IsHashOrBar(t[k])
    requires anchor.Some? ==> forall k :: 0 <= k < |anchor.value| ==> !IsBar(anchor.value[k])
    requires alias.Some? ==> |alias.value| > 0 && forall k :: 0 <= k < |alias.value| ==> !IsLineTerminator(alias.value[k])
    ensures WellFormedPayload(Payload(t, anchor, alias))
  {
  }

  /** A payload read from `p` whose target ends at `n` and whose anchor, if any, ends at `j`. */
  lemma SoundFromBounds(p: string, n: nat, j: nat, anchor: Option<string>)
    requires n <= j <= |p| && NoneIn(p, 0, n, IsHashOrBar)
    requires anchor.None? ==> j == n
    requires anchor.Some? ==> n < j && p[n] == '#' && NoneIn(p, n + 1, j, IsBar) && anchor.value == p[n + 1..j]
    requires ParseAlias(p, j, p[..n], anchor).Some?
    ensures var pl := ParseAlias(p, j, p[..n], anchor).value; WellFormedPayload(pl) && Unparse(pl) == p
  {
    var t := p[..n];
    forall k | 0 <= k < |t| ensures !IsHashOrBar(t[k]) {
      assert t[k] == p[k];
    }
    ParseAliasSound(p, j, t, anchor);
    var pl := ParseAlias(p, j, t, anchor).value;
    if anchor.Some? {
      var a := anchor.value;
      forall k | 0 <= k < |a| ensures !IsBar(a[k]) {
        assert a[k] == p[n + 1 + k];
      }
      assert p[n..j] == [p[n]] + p[n + 1..j];
    }
    UnparseFromSlices(p, n, j, pl);
    WellFormedFromParts(t, anchor, pl.alias);
  }

  lemma ParsePayloadSound(p: string)
    requires ParsePayload(p).Some?
    ensures WellFormedPayload(ParsePayload(p).value) && Unparse(ParsePayload(p).value) == p
  {
    var n := Span(p, 0, IsHashOrBar);
    if n < |p| && p[n] == '#' {
      var j := n + 1 + Span(p, n + 1, IsBar);
      assert ParsePayload(p) == ParseAlias(p, j, p[..n], Some(p[n + 1..j]));
      SoundFromBounds(p, n, j, Some(p[n + 1..j]));
    } else {
      assert ParsePayload(p) == ParseAlias(p, n, p[..n], None);
      SoundFromBounds(p, n, n, None);
    }
  }

  /** The alias part is read back from the text it was written as. */
  lemma ParseAliasComplete(p: string, j: nat, target: string, anchor: Option<string>, alias: Option<string>)
    requires j <= |p| && p[j..] == AliasText(alias)
    requires alias.Some? ==> |alias.value| > 0 && forall k :: 0 <= k < |alias.value| ==> !IsLineTerminator(alias.value[k])
    ensures ParseAlias(p, j, target, anchor) == Some(Payload(target, anchor, alias))
  {
    if alias.Some? {
      var b := alias.value;
      assert p[j..] == "|" + b;
      assert p[j] == '|' && p[j + 1..] == b;
      forall k | j + 1 <= k < |p| ensures !IsLineTerminator(p[k]) {
        assert p[k] == b[k - j - 1];
      }
    }
  }

  /** A run of characters that ends at a stop character or at the end is the span there. */
  lemma SpanOfPrefix(p: string, i: nat, u: string, stop: char -> bool)
    requires i + |u| <= |p| && p[i..i + |u|] == u
    requires forall k :: 0 <= k < |u| ==> !stop(u[k])
    requires i + |u| == |p| || stop(p[i + |u|])
    ensures Span(p, i, stop) == |u|
  {
    forall k | i <= k < i + |u| ensures !stop(p[k]) {
      assert p[k] == u[k - i];
    }
    SpanExact(p, i, |u|, stop);
  }

  /** Where the three parts of a payload sit in the text it is written as. */
  lemma UnparseSlices(pl: Payload)
    ensures var p, n := Unparse(pl), |pl.target|;
      var j := n + |AnchorText(pl.anchor)|;
      && j <= |p| && p[..n] == pl.target && p[n..j] == AnchorText(pl.anchor) && p[j..] == AliasText(pl.alias)
  {
  }

  lemma CompleteWithoutAnchor(p: string, t: string, alias: Option<string>)
    requires WellFormedPayload(Payload(t, None, alias))
    requires |t| <= |p| && p[..|t|] == t && p[|t|..] == AliasText(alias)
    ensures ParsePayload(p) == Some(Payload(t, None, alias))
  {
    assert |t| == |p| || p[|t|] == '|' by {
      if alias.Some? {
        assert p[|t|] == AliasText(alias)[0];
      }
    }
    SpanOfPrefix(p, 0, t, IsHashOrBar);
    ParseAliasComplete(p, |t|, t, None, alias);
  }

  lemma CompleteWithAnchor(p: string, t: string, a: string, alias: Option<string>, j: nat)
    requires WellFormedPayload(Payload(t, Some(a), alias))
    requires j == |t| + 1 + |a| <= |p| && p[..|t|] == t && p[|t|..j] == "#" + a && p[j..] == AliasText(alias)
    ensures ParsePayload(p) == Some(Payload(t, Some(a), alias))
  {
    var n := |t|;
    assert p[n] == '#' by {
      assert p[n..j][0] == '#';
    }
    assert p[n + 1..j] == a by {
      assert p[n + 1..j] == p[n..j][1..];
    }
    SpanOfPrefix(p, 0, t, IsHashOrBar);
    assert j == |p| || p[j] == '|' by {
      if alias.Some? {
        assert p[j] == AliasText(alias)[0];
      }
    }
    SpanOfPrefix(p, n + 1, a, IsBar);
    ParseAliasComplete(p, j, t, Some(a), alias);
  }

  lemma ParsePayloadComplete(pl: Payload)
    requires WellFormedPayload(pl)
    ensures ParsePayload(Unparse(pl)) == Some(pl)
  {
    UnparseSlices(pl);
    match pl.anchor
    case None =>
      CompleteWithoutAnchor(Unparse(pl), pl.target, pl.alias);
    case Some(a) =>
      CompleteWithAnchor(Unparse(pl), pl.target, a, pl.alias, |pl.target| + 1 + |a|);
  }

  /** The grammar accepts exactly the payloads that are the text of a well-formed target/anchor/alias triple. */
  lemma ParsePayloadIff(p: string, pl: Payload)
    ensures ParsePayload(p) == Some(pl) <==> WellFormedPayload(pl) && Unparse(pl) == p
  {
    if ParsePayload(p) == Some(pl) {
      ParsePayloadSound(p);
    }
    if WellFormedPayload(pl) && Unparse(pl) == p {
      ParsePayloadComplete(pl);
    }
  }

  /** A payload whose only `|` is its last character, such as `a|`, has an empty alias and is invalid. */
  lemma EmptyAliasIsInvalid(x: string)
    requires forall k :: 0 <= k < |x| ==> x[k] != '|'
    ensures ParsePayload(x + "|") == None
  {
    var p := x + "|";
    assert p[|x|] == '|';
    var n := Span(p, 0, IsHashOrBar);
    assert n <= |x|;
    if n < |p| && p[n] == '#' {
      forall k | n + 1 <= k < |x| ensures !IsBar(p[k]) {
        assert p[k] == x[k];
      }
      SpanExact(p, n + 1, |x| - n - 1, IsBar);
    } else {
      assert n == |x|;
    }
  }

  // ---------------------------------------------------------------------------------------
  // Replacement text for one reference

  /** The target note's `plink` and `title`, as the template literal shows them. */
  datatype LinkMeta = LinkMeta(plink: string, title: string)

  /**
   * What the rewrite consults outside the article: the frontmatter of a linked note, the
   * content hash of an attachment and the URL the image host answers for it.
   */
  datatype Env = Env(meta: TFile -> LinkMeta, hashOf: TFile -> string, upload: TFile -> string)

  /** JavaScript truthiness of an optional regex group: present and not empty. */
  predicate Truthy(o: Option<string>) {
    o.Some? && o.value != ""
  }

  /** The Markdown link to a published note. */
  function PublishedLink(pl: Payload, meta: LinkMeta): string {
    var plink := meta.plink + (if Truthy(pl.anchor) then "#" + pl.anchor.value else "");
    var linkTitle :=
      if Truthy(pl.alias) then pl.alias.value
      else if Truthy(pl.anchor) then meta.title + "#" + pl.anchor.value
      else meta.title;
    "[" + linkTitle + "](/post/" + plink + ")"
  }

  /** The Markdown image for an uploaded attachment. */
  function ImageLink(url: string): string {
    "![image](" + url + ")"
  }

  /** The replacement of one reference and the image registry after it. */
  function RewriteOne(l: RawLink, pl: Payload, res: Resolution, env: Env, images: seq<Entry>)
    : (seq<Entry>, string)
  {
    match res
    case Published(f) => (images, PublishedLink(pl, env.meta(f)))
    case Unpublished(_) => (images, l.payload)
    case NotFound => (images, l.payload)
    case Attachment(f) =>
      var (reg, url) := ResolveImage(images, env.hashOf(f), env.upload(f));
      (reg, ImageLink(url))
  }

  // ---------------------------------------------------------------------------------------
  // All references of an article

  /** The payloads of all references, or the error for the first one outside the grammar. */
  function ParseAll(occs: seq<Occurrence>): (r: Result<seq<Payload>, string>)
    decreases |occs|
    ensures r.Ok? ==> |r.value| == |occs|
  {
    if occs == [] then Ok([])
    else
      match ParsePayload(occs[0].link.payload)
      case None => Err("Invalid link " + Full(occs[0].link))
      case Some(pl) =>
        match ParseAll(occs[1..])
        case Err(e) => Err(e)
        case Ok(pls) => Ok([pl] + pls)
  }

  /** One step of `ParseAll`: the first payload, then the rest. */
  lemma ParseAllStep(occs: seq<Occurrence>)
    requires occs != []
    ensures ParsePayload(occs[0].link.payload).None? ==> ParseAll(occs) == Err("Invalid link " + Full(occs[0].link))
    ensures ParsePayload(occs[0].link.payload).Some? ==>
      ParseAll(occs) == match ParseAll(occs[1..])
        case Err(e) => Err(e)
        case Ok(pls) => Ok([ParsePayload(occs[0].link.payload).value] + pls)
  {
  }

  /** Reference `k` is the first whose payload is outside the grammar. */
  predicate FirstInvalid(occs: seq<Occurrence>, k: nat) {
    && k < |occs| && ParsePayload(occs[k].link.payload).None?
    && forall j :: 0 <= j < k ==> ParsePayload(occs[j].link.payload).Some?
  }

  /** The payloads parse exactly when every reference's payload fits the grammar, and then they are those parses. */
  lemma {:induction false} ParseAllOk(occs: seq<Occurrence>)
    ensures ParseAll(occs).Ok? <==> forall k :: 0 <= k < |occs| ==> ParsePayload(occs[k].link.payload).Some?
    ensures ParseAll(occs).Ok? ==>
      forall k :: 0 <= k < |occs| ==> Some(ParseAll(occs).value[k]) == ParsePayload(occs[k].link.payload)
    decreases |occs|
  {
    if occs != [] {
      ParseAllOk(occs[1..]);
      ParseAllStep(occs);
      assert forall k :: 1 <= k < |occs| ==> occs[1..][k - 1] == occs[k];
    }
  }

  /** Otherwise the error names the first reference that does not fit. */
  lemma {:induction false} ParseAllFirstInvalid(occs: seq<Occurrence>, k: nat)
    requires FirstInvalid(occs, k)
    ensures ParseAll(occs).Err? && ParseAll(occs).error == "Invalid link " + Full(occs[k].link)
    decreases k
  {
    ParseAllStep(occs);
    if k > 0 {
      assert FirstInvalid(occs[1..], k - 1) by {
        assert forall j :: 0 <= j < k - 1 ==> occs[1..][j] == occs[j + 1];
        assert occs[1..][k - 1] == occs[k];
      }
      ParseAllFirstInvalid(occs[1..], k - 1);
    }
  }

  /** The replacement of every reference, in order, threading the image registry. */
  function ResolveAll(occs: seq<Occurrence>, pls: seq<Payload>, posts: seq<TFile>, all: seq<TFile>,
                      env: Env, images: seq<Entry>): (r: (seq<Entry>, seq<string>))
    requires |pls| == |occs|
    decreases |occs|
    ensures |r.1| == |occs|
  {
    if occs == [] then (images, [])
    else
      var res := Resolve(posts, all, pls[0].target);
      var (reg, rep) := RewriteOne(occs[0].link, pls[0], res, env, images);
      var (reg', reps) := ResolveAll(occs[1..], pls[1..], posts, all, env, reg);
      (reg', [rep] + reps)
  }

  /** One step of `ResolveAll`: the first reference is replaced, then the rest with the registry it leaves. */
  lemma ResolveAllCons(occs: seq<Occurrence>, pls: seq<Payload>, posts: seq<TFile>, all: seq<TFile>,
                       env: Env, images: seq<Entry>)
    requires |pls| == |occs| && occs != []
    ensures var one := RewriteOne(occs[0].link, pls[0], Resolve(posts, all, pls[0].target), env, images);
      var rest := ResolveAll(occs[1..], pls[1..], posts, all, env, one.0);
      var whole := ResolveAll(occs, pls, posts, all, env, images);
      whole.0 == rest.0 && whole.1 == [one.1] + rest.1
  {
  }

  /**
   * After the first `i` references: `done` are their replacements and `registry` the registry
   * they leave, so that resolving the rest from there completes `ResolveAll`.
   */
  ghost predicate ResolvedUpTo(occs: seq<Occurrence>, pls: seq<Payload>, posts: seq<TFile>, all: seq<TFile>,
                               env: Env, images: seq<Entry>, i: nat, registry: seq<Entry>, done: seq<string>)
    requires |pls| == |occs| && i <= |occs|
  {
    var rest := ResolveAll(occs[i..], pls[i..], posts, all, env, registry);
    var whole := ResolveAll(occs, pls, posts, all, env, images);
    whole.0 == rest.0 && whole.1 == done + rest.1
  }

  /** Replacing reference `i` extends the replacements done so far by one. */
  lemma ResolvedStep(occs: seq<Occurrence>, pls: seq<Payload>, posts: seq<TFile>, all: seq<TFile>,
                     env: Env, images: seq<Entry>, i: nat, registry: seq<Entry>, done: seq<string>)
    requires |pls| == |occs| && i < |occs|
    requires ResolvedUpTo(occs, pls, posts, all, env, images, i, registry, done)
    ensures var one := RewriteOne(occs[i].link, pls[i], Resolve(posts, all, pls[i].target), env, registry);
      ResolvedUpTo(occs, pls, posts, all, env, images, i + 1, one.0, done + [one.1])
  {
    assert occs[i..][1..] == occs[i + 1..] && pls[i..][1..] == pls[i + 1..];
    assert occs[i..][0] == occs[i] && pls[i..][0] == pls[i];
    ResolveAllCons(occs[i..], pls[i..], posts, all, env, registry);
    var one := RewriteOne(occs[i].link, pls[i], Resolve(posts, all, pls[i].target), env, registry);
    var rest := ResolveAll(occs[i + 1..], pls[i + 1..], posts, all, env, one.0);
    assert done + ([one.1] + rest.1) == (done + [one.1]) + rest.1;
  }

  /** After the last reference the replacements are `ResolveAll`'s. */
  lemma ResolvedAll(occs: seq<Occurrence>, pls: seq<Payload>, posts: seq<TFile>, all: seq<TFile>,
                    env: Env, images: seq<Entry>, registry: seq<Entry>, done: seq<string>)
    requires |pls| == |occs| && ResolvedUpTo(occs, pls, posts, all, env, images, |occs|, registry, done)
    ensures ResolveAll(occs, pls, posts, all, env, images) == (registry, done)
  {
    assert occs[|occs|..] == [] && pls[|occs|..] == [];
    assert done + [] == done;
  }

  /** The registry `ResolveAll` holds when it reaches reference `k`: the one the first `k` references leave. */
  function RegistryBefore(occs: seq<Occurrence>, pls: seq<Payload>, posts: seq<TFile>, all: seq<TFile>,
                          env: Env, images: seq<Entry>, k: nat): seq<Entry>
    requires |pls| == |occs| && k <= |occs|
  {
    ResolveAll(occs[..k], pls[..k], posts, all, env, images).0
  }

  /** The registry before reference `k` is the one the references after the first leave, started from its registry. */
  lemma RegistryBeforeCons(occs: seq<Occurrence>, pls: seq<Payload>, posts: seq<TFile>, all: seq<TFile>,
                           env: Env, images: seq<Entry>, k: nat)
    requires |pls| == |occs| && 0 < k <= |occs|
    ensures var one := RewriteOne(occs[0].link, pls[0], Resolve(posts, all, pls[0].target), env, images);
      RegistryBefore(occs, pls, posts, all, env, images, k) ==
        RegistryBefore(occs[1..], pls[1..], posts, all, env, one.0, k - 1)
  {
    assert occs[..k][0] == occs[0] && pls[..k][0] == pls[0];
    assert occs[..k][1..] == occs[1..][..k - 1] && pls[..k][1..] == pls[1..][..k - 1];
    ResolveAllCons(occs[..k], pls[..k], posts, all, env, images);
  }

  /**
   * Replacement `k` of any list of references is `RewriteOne` of reference `k`, resolved by its
   * target, under the registry the earlier references left; the registry it leaves is the one
   * reference `k + 1` sees.
   */
  lemma {:induction false} ResolveAllAt(occs: seq<Occurrence>, pls: seq<Payload>, posts: seq<TFile>, all: seq<TFile>,
                                        env: Env, images: seq<Entry>, k: nat)
    requires |pls| == |occs| && k < |occs|
    ensures var one := RewriteOne(occs[k].link, pls[k], Resolve(posts, all, pls[k].target), env,
                                  RegistryBefore(occs, pls, posts, all, env, images, k));
      && ResolveAll(occs, pls, posts, all, env, images).1[k] == one.1
      && RegistryBefore(occs, pls, posts, all, env, images, k + 1) == one.0
    decreases k
  {
    var first := RewriteOne(occs[0].link, pls[0], Resolve(posts, all, pls[0].target), env, images);
    ResolveAllCons(occs, pls, posts, all, env, images);
    RegistryBeforeCons(occs, pls, posts, all, env, images, k + 1);
    if k == 0 {
      assert occs[..0] == [] && pls[..0] == [];
      assert occs[1..][..0] == [] && pls[1..][..0] == [];
    } else {
      RegistryBeforeCons(occs, pls, posts, all, env, images, k);
      ResolveAllAt(occs[1..], pls[1..], posts, all, env, first.0, k - 1);
      assert occs[1..][k - 1] == occs[k] && pls[1..][k - 1] == pls[k];
    }
  }

  /** Reference `k` to a published note, the first named exactly by its target, becomes the link to that post. */
  lemma PublishedReferenceAt(occs: seq<Occurrence>, pls: seq<Payload>, posts: seq<TFile>, all: seq<TFile>,
                             env: Env, images: seq<Entry>, k: nat, i: nat)
    requires |pls| == |occs| && k < |occs|
    requires i < |posts| && posts[i].basename == pls[k].target
    requires forall j :: 0 <= j < i ==> posts[j].basename != pls[k].target
    ensures ResolveAll(occs, pls, posts, all, env, images).1[k] == PublishedLink(pls[k], env.meta(posts[i]))
    ensures RegistryBefore(occs, pls, posts, all, env, images, k + 1) == RegistryBefore(occs, pls, posts, all, env, images, k)
  {
    PublishedWins(posts, all, pls[k].target, i);
    ResolveAllAt(occs, pls, posts, all, env, images, k);
  }

  /** Reference `k` to an unpublished note or to nothing becomes its bare payload, whatever the registry. */
  lemma UnresolvedReferenceAt(occs: seq<Occurrence>, pls: seq<Payload>, posts: seq<TFile>, all: seq<TFile>,
                              env: Env, images: seq<Entry>, k: nat)
    requires |pls| == |occs| && k < |occs|
    requires var res := Resolve(posts, all, pls[k].target); res.Unpublished? || res.NotFound?
    ensures ResolveAll(occs, pls, posts, all, env, images).1[k] == occs[k].link.payload
    ensures RegistryBefore(occs, pls, posts, all, env, images, k + 1) == RegistryBefore(occs, pls, posts, all, env, images, k)
  {
    ResolveAllAt(occs, pls, posts, all, env, images, k);
  }

  /**
   * Reference `k` to an attachment becomes an image: the URL registered for its content hash
   * by the earlier references or the registry given, else the uploaded URL, appended.
   */
  lemma AttachmentReferenceAt(occs: seq<Occurrence>, pls: seq<Payload>, posts: seq<TFile>, all: seq<TFile>,
                              env: Env, images: seq<Entry>, k: nat, f: TFile)
    requires |pls| == |occs| && k < |occs|
    requires Resolve(posts, all, pls[k].target) == Attachment(f)
    ensures var reg := RegistryBefore(occs, pls, posts, all, env, images, k);
      var hash := env.hashOf(f);
      var rep := ResolveAll(occs, pls, posts, all, env, images).1[k];
      var reg' := RegistryBefore(occs, pls, posts, all, env, images, k + 1);
      && (LookupUrl(reg, hash).Some? ==> rep == ImageLink(LookupUrl(reg, hash).value) && reg' == reg)
      && (LookupUrl(reg, hash).None? ==> rep == ImageLink(env.upload(f)) && reg' == reg + [Entry(hash, env.upload(f))])
  {
    var reg := RegistryBefore(occs, pls, posts, all, env, images, k);
    ResolveAllAt(occs, pls, posts, all, env, images, k);
    ResolveImageSound(reg, env.hashOf(f), env.upload(f));
  }

  /** The payloads `links[i][2]`. */
  function Payloads(occs: seq<Occurrence>): (ps: seq<string>)
    ensures |ps| == |occs|
  {
    seq(|occs|, k requires 0 <= k < |occs| => occs[k].link.payload)
  }

  /** With no file in the vault, every reference is replaced by its own payload and no image is registered. */
  lemma {:induction false} ResolveAllInEmptyVault(occs: seq<Occurrence>, pls: seq<Payload>, env: Env, images: seq<Entry>)
    requires |pls| == |occs|
    ensures ResolveAll(occs, pls, [], [], env, images) == (images, Payloads(occs))
    decreases |occs|
  {
    if occs != [] {
      assert Resolve([], [], pls[0].target) == NotFound;
      ResolveAllInEmptyVault(occs[1..], pls[1..], env, images);
      assert Payloads(occs) == [occs[0].link.payload] + Payloads(occs[1..]);
    }
  }

  /** The registry only grows along the references, and distinct hashes stay distinct. */
  lemma {:induction false} ResolveAllGrowsRegistry(occs: seq<Occurrence>, pls: seq<Payload>, posts: seq<TFile>,
                                                   all: seq<TFile>, env: Env, images: seq<Entry>)
    requires |pls| == |occs|
    ensures var reg := ResolveAll(occs, pls, posts, all, env, images).0;
      images <= reg && (DistinctHashes(images) ==> DistinctHashes(reg))
    decreases |occs|
  {
    if occs != [] {
      var res := Resolve(posts, all, pls[0].target);
      var one := RewriteOne(occs[0].link, pls[0], res, env, images);
      if res.Attachment? {
        ResolveImageSound(images, env.hashOf(res.file), env.upload(res.file));
      }
      ResolveAllGrowsRegistry(occs[1..], pls[1..], posts, all, env, one.0);
    }
  }

  /** Each occurrence replaced in place by its replacement, the text between them kept. */
  function Splice(s: string, occs: seq<Occurrence>, reps: seq<string>, from: nat): string
    requires Tiled(s, occs, from) && |reps| == |occs|
    decreases |occs|
  {
    if occs == [] then s[from..]
    else s[from..occs[0].start] + reps[0] + Splice(s, occs[1..], reps[1..], End(occs[0]))
  }

  /** One step of the splice: the text before the first occurrence, its replacement, then the rest. */
  lemma SpliceCons(s: string, occs: seq<Occurrence>, reps: seq<string>, from: nat)
    requires Tiled(s, occs, from) && |reps| == |occs| && occs != []
    ensures Tiled(s, occs[1..], End(occs[0]))
    ensures Splice(s, occs, reps, from) == s[from..occs[0].start] + reps[0] + Splice(s, occs[1..], reps[1..], End(occs[0]))
  {
  }

  /** The matched texts `links[i][0]`. */
  function Texts(occs: seq<Occurrence>): (ts: seq<string>)
    ensures |ts| == |occs|
  {
    seq(|occs|, k requires 0 <= k < |occs| => Full(occs[k].link))
  }

  /** Replacing every occurrence by its own text gives back the article. */
  lemma {:induction false} SpliceIdentity(s: string, occs: seq<Occurrence>, from: nat)
    requires Tiled(s, occs, from)
    ensures Splice(s, occs, Texts(occs), from) == s[from..]
    decreases |occs|
  {
    if occs != [] {
      var o := occs[0];
      SpliceIdentity(s, occs[1..], End(o));
      assert Texts(occs)[1..] == Texts(occs[1..]);
      assert s[o.start..End(o)] == Full(o.link);
      assert s[from..] == s[from..o.start] + s[o.start..End(o)] + s[End(o)..];
    }
  }

  /** The outcome of `handleLinks`: the rewritten article and the image registry after it. */
  datatype Rewritten = Rewritten(article: string, registry: seq<Entry>)

  /**
   * `handleLinks`, with every reference replaced at its own position: the heading is
   * stripped, the references are scanned, a payload outside the grammar aborts with
   * "Invalid link ...", and otherwise each reference is resolved and replaced.
   */
  function RewriteLinks(article: string, posts: seq<TFile>, all: seq<TFile>, env: Env, images: seq<Entry>)
    : Result<Rewritten, string>
  {
    var body := StripHeading(article);
    var occs := Scan(body, 0);
    match ParseAll(occs)
    case Err(e) => Err(e)
    case Ok(pls) =>
      var (reg, reps) := ResolveAll(occs, pls, posts, all, env, images);
      ScanTiled(body, 0);
      Ok(Rewritten(Splice(body, occs, reps, 0), reg))
  }

  /**
   * `handleLinks` fails exactly when some reference's payload is outside the grammar, with
   * the error of the first such reference; when it succeeds the registry it leaves extends
   * the one it was given and keeps hashes distinct.
   */
  lemma RewriteLinksOutcome(article: string, posts: seq<TFile>, all: seq<TFile>, env: Env, images: seq<Entry>)
    ensures var occs := Scan(StripHeading(article), 0);
      RewriteLinks(article, posts, all, env, images).Ok? <==>
        forall k :: 0 <= k < |occs| ==> ParsePayload(occs[k].link.payload).Some?
    ensures var occs := Scan(StripHeading(article), 0);
      var r := RewriteLinks(article, posts, all, env, images);
      forall k: nat :: FirstInvalid(occs, k) ==> r.Err? && r.error == "Invalid link " + Full(occs[k].link)
    ensures var r := RewriteLinks(article, posts, all, env, images);
      r.Ok? ==> images <= r.value.registry && (DistinctHashes(images) ==> DistinctHashes(r.value.registry))
  {
    var body := StripHeading(article);
    var occs := Scan(body, 0);
    ParseAllOk(occs);
    forall k: nat | FirstInvalid(occs, k)
      ensures ParseAll(occs).Err? && ParseAll(occs).error == "Invalid link " + Full(occs[k].link)
    {
      ParseAllFirstInvalid(occs, k);
    }
    if ParseAll(occs).Ok? {
      ResolveAllGrowsRegistry(occs, ParseAll(occs).value, posts, all, env, images);
      RewriteLinksOf(article, body, occs, ParseAll(occs).value, posts, all, env, images);
    } else {
      RewriteLinksErr(article, body, occs, posts, all, env, images);
    }
  }

  /** `RewriteLinks` once its stripped body and its scan are known and a payload is invalid. */
  lemma RewriteLinksErr(article: string, body: string, occs: seq<Occurrence>,
                        posts: seq<TFile>, all: seq<TFile>, env: Env, images: seq<Entry>)
    requires StripHeading(article) == body && Scan(body, 0) == occs && ParseAll(occs).Err?
    ensures RewriteLinks(article, posts, all, env, images) == Err(ParseAll(occs).error)
  {
  }

  /**
   * A successful rewrite of any article: the references the scan finds stand in order in the
   * stripped body, every payload parsed, and the article is that body with reference `k`
   * replaced in place by `RewriteOne` of its resolution, under the registry the earlier
   * references left.
   */
  lemma RewriteLinksEach(article: string, posts: seq<TFile>, all: seq<TFile>, env: Env, images: seq<Entry>)
    requires RewriteLinks(article, posts, all, env, images).Ok?
    ensures var body := StripHeading(article);
      var occs := Scan(body, 0);
      && ParseAll(occs).Ok? && Tiled(body, occs, 0)
      && var pls := ParseAll(occs).value;
         var res := ResolveAll(occs, pls, posts, all, env, images);
         && RewriteLinks(article, posts, all, env, images).value == Rewritten(Splice(body, occs, res.1, 0), res.0)
         && forall k :: 0 <= k < |occs| ==>
              && Some(pls[k]) == ParsePayload(occs[k].link.payload)
              && res.1[k] == RewriteOne(occs[k].link, pls[k], Resolve(posts, all, pls[k].target), env,
                                        RegistryBefore(occs, pls, posts, all, env, images, k)).1
  {
    var body := StripHeading(article);
    var occs := Scan(body, 0);
    if ParseAll(occs).Err? {
      RewriteLinksErr(article, body, occs, posts, all, env, images);
    } else {
      var pls := ParseAll(occs).value;
      RewriteLinksOf(article, body, occs, pls, posts, all, env, images);
      ParseAllOk(occs);
      forall k | 0 <= k < |occs|
        ensures ResolveAll(occs, pls, posts, all, env, images).1[k] ==
          RewriteOne(occs[k].link, pls[k], Resolve(posts, all, pls[k].target), env,
                     RegistryBefore(occs, pls, posts, all, env, images, k)).1
      {
        ResolveAllAt(occs, pls, posts, all, env, images, k);
      }
    }
  }

  // ---------------------------------------------------------------------------------------
  // An article with a single reference

  /** Text before the reference that neither starts a heading nor a reference of its own. */
  predicate PlainBefore(x: string) {
    && (forall k :: 0 <= k < |x| ==> x[k] != '[' && x[k] != '!')
    && (|x| > 0 ==> x[0] != '\n' && x[0] != '#')
  }

  /** Text after the reference that starts no reference. */
  predicate PlainAfter(y: string) {
    forall k :: 0 <= k < |y| ==> y[k] != '['
  }

  /** The pattern cannot match where neither `[` nor `![` starts. */
  lemma NoMatchAt(s: string, i: nat)
    requires i < |s| ==> s[i] != '['
    requires i + 1 < |s| && s[i] == '!' ==> s[i + 1] != '['
    ensures MatchAt(s, i) == None
  {
    if i + 2 <= |s| {
      assert s[i..i + 2][0] == s[i];
    }
    if i + 3 <= |s| {
      assert s[i + 1..i + 3][0] == s[i + 1];
    }
  }

  /** A text with one reference at `n`, no `[` or `!` before it and no `[` after it. */
  lemma ScanOne(s: string, n: nat, l: RawLink)
    requires WellFormedLink(l) && OccursAt(s, Full(l), n)
    requires forall k :: 0 <= k < n ==> s[k] != '[' && s[k] != '!'
    requires forall k :: n + |Full(l)| <= k < |s| ==> s[k] != '['
    ensures Scan(s, 0) == [Occurrence(n, l)]
  {
    var o := Occurrence(n, l);
    forall j | 0 <= j < n ensures MatchAt(s, j).None? {
      NoMatchAt(s, j);
    }
    NoMatchInIff(MatchAt, s, 0, n);
    MatchAtIff(s, n, l);
    forall j | End(o) <= j < |s| ensures MatchAt(s, j).None? {
      NoMatchAt(s, j);
    }
    NoMatchInIff(MatchAt, s, End(o), |s|);
    assert [o][1..] == [];
    assert IsScan(MatchAt, s, [o], 0);
    ScanUnique(MatchAt, s, [o], 0);
  }

  /** The scan of such an article finds exactly the one reference. */
  lemma ScanSingle(x: string, l: RawLink, y: string)
    requires PlainBefore(x) && PlainAfter(y) && WellFormedLink(l)
    ensures Scan(x + Full(l) + y, 0) == [Occurrence(|x|, l)]
  {
    var s := x + Full(l) + y;
    var e := |x| + |Full(l)|;
    assert s[|x|..e] == Full(l);
    forall k | 0 <= k < |x| ensures s[k] != '[' && s[k] != '!' {
      assert s[k] == x[k];
    }
    forall k | e <= k < |s| ensures s[k] != '[' {
      assert s[k] == y[k - e];
    }
    ScanOne(s, |x|, l);
  }

  /** Such an article has no heading to strip. */
  lemma NoHeadingBeforeSingle(x: string, l: RawLink, y: string)
    requires PlainBefore(x)
    ensures StripHeading(x + Full(l) + y) == x + Full(l) + y
  {
    var s := x + Full(l) + y;
    assert s[0] != '\n' && s[0] != '#' by {
      if x == [] {
        assert s[0] == Full(l)[0];
      } else {
        assert s[0] == x[0];
      }
    }
    assert Span(s, 0, NotNewline) == 0;
    assert !OccursAt(s, "# ", 0) by {
      if 2 <= |s| {
        assert s[0..2][0] == s[0];
      }
    }
  }

  /** Splicing one occurrence keeps the text on both sides of it. */
  lemma SpliceSingle(x: string, l: RawLink, y: string, rep: string)
    ensures Tiled(x + Full(l) + y, [Occurrence(|x|, l)], 0)
    ensures Splice(x + Full(l) + y, [Occurrence(|x|, l)], [rep], 0) == x + rep + y
  {
    var s := x + Full(l) + y;
    var o := Occurrence(|x|, l);
    assert s[|x|..End(o)] == Full(l);
    assert [o][1..] == [] && [rep][1..] == [];
    assert Tiled(s, [], End(o));
    assert Splice(s, [], [], End(o)) == y;
    assert s[0..|x|] == x;
  }

  /** The rewrite of an article holding one reference outside the payload grammar aborts. */
  lemma RewriteSingleInvalid(x: string, l: RawLink, y: string, posts: seq<TFile>, all: seq<TFile>, env: Env, images: seq<Entry>)
    requires PlainBefore(x) && PlainAfter(y) && WellFormedLink(l) && ParsePayload(l.payload) == None
    ensures RewriteLinks(x + Full(l) + y, posts, all, env, images).Err?
    ensures RewriteLinks(x + Full(l) + y, posts, all, env, images).error == "Invalid link " + Full(l)
  {
    NoHeadingBeforeSingle(x, l, y);
    ScanSingle(x, l, y);
  }

  /** `RewriteLinks` once its stripped body, its scan and its payloads are known. */
  lemma RewriteLinksOf(article: string, body: string, occs: seq<Occurrence>, pls: seq<Payload>,
                       posts: seq<TFile>, all: seq<TFile>, env: Env, images: seq<Entry>)
    requires StripHeading(article) == body && Scan(body, 0) == occs
    requires ParseAll(occs).Ok? && ParseAll(occs).value == pls
    ensures Tiled(body, occs, 0)
    ensures var res := ResolveAll(occs, pls, posts, all, env, images);
      var r := RewriteLinks(article, posts, all, env, images);
      r.Ok? && r.value == Rewritten(Splice(body, occs, res.1, 0), res.0)
  {
    ScanTiled(body, 0);
  }

  /**
   * The rewrite of an article holding one well-formed reference `l` with payload `pl`: the
   * reference is replaced in place by `RewriteOne` of its resolution, the text around it
   * is kept, and the registry is the one `RewriteOne` leaves.
   */
  lemma RewriteSingle(x: string, l: RawLink, y: string, pl: Payload,
                      posts: seq<TFile>, all: seq<TFile>, env: Env, images: seq<Entry>)
    requires PlainBefore(x) && PlainAfter(y) && WellFormedLink(l) && ParsePayload(l.payload) == Some(pl)
    ensures var one := RewriteOne(l, pl, Resolve(posts, all, pl.target), env, images);
      var r := RewriteLinks(x + Full(l) + y, posts, all, env, images);
      r.Ok? && r.value == Rewritten(x + one.1 + y, one.0)
  {
    var s := x + Full(l) + y;
    var o := Occurrence(|x|, l);
    NoHeadingBeforeSingle(x, l, y);
    ScanSingle(x, l, y);
    assert [o][1..] == [] && [pl][1..] == [];
    assert ParseAll([o]).Ok? && ParseAll([o]).value == [pl];
    RewriteLinksOf(s, s, [o], [pl], posts, all, env, images);
    var one := RewriteOne(l, pl, Resolve(posts, all, pl.target), env, images);
    var res := ResolveAll([o], [pl], posts, all, env, images);
    assert res.0 == one.0 && res.1 == [one.1];
    SpliceSingle(x, l, y, one.1);
  }

  /** A reference to a published note becomes the Markdown link to its post. */
  lemma PublishedReference(x: string, y: string, embed: bool, pl: Payload, i: nat,
                           posts: seq<TFile>, all: seq<TFile>, env: Env, images: seq<Entry>)
    requires PlainBefore(x) && PlainAfter(y) && WellFormedPayload(pl)
    requires WellFormedLink(RawLink(embed, Unparse(pl)))
    requires i < |posts| && posts[i].basename == pl.target
    requires forall j :: 0 <= j < i ==> posts[j].basename != pl.target
    ensures var r := RewriteLinks(x + Full(RawLink(embed, Unparse(pl))) + y, posts, all, env, images);
      r.Ok? && r.value == Rewritten(x + PublishedLink(pl, env.meta(posts[i])) + y, images)
  {
    ParsePayloadComplete(pl);
    PublishedWins(posts, all, pl.target, i);
    RewriteSingle(x, RawLink(embed, Unparse(pl)), y, pl, posts, all, env, images);
  }

  /**
   * A reference that no published note answers and that names an unpublished note or no
   * file at all loses its brackets (and its `!`): the payload is left as plain text.
   */
  lemma UnresolvedReference(x: string, y: string, l: RawLink, posts: seq<TFile>, all: seq<TFile>, env: Env, images: seq<Entry>)
    requires PlainBefore(x) && PlainAfter(y) && WellFormedLink(l) && ParsePayload(l.payload).Some?
    requires var res := Resolve(posts, all, ParsePayload(l.payload).value.target);
      res.Unpublished? || res.NotFound?
    ensures var r := RewriteLinks(x + Full(l) + y, posts, all, env, images);
      r.Ok? && r.value == Rewritten(x + l.payload + y, images)
  {
    RewriteSingle(x, l, y, ParsePayload(l.payload).value, posts, all, env, images);
  }

  /**
   * A reference to an attachment, embedded or not, becomes an image: a registered content
   * hash reuses its URL and leaves the registry alone, a new one is uploaded and appended.
   */
  lemma AttachmentReference(x: string, y: string, l: RawLink, f: TFile,
                            posts: seq<TFile>, all: seq<TFile>, env: Env, images: seq<Entry>)
    requires PlainBefore(x) && PlainAfter(y) && WellFormedLink(l) && ParsePayload(l.payload).Some?
    requires Resolve(posts, all, ParsePayload(l.payload).value.target) == Attachment(f)
    ensures var r := RewriteLinks(x + Full(l) + y, posts, all, env, images);
      var hash := env.hashOf(f);
      && r.Ok?
      && (LookupUrl(images, hash).Some? ==>
            r.value == Rewritten(x + ImageLink(LookupUrl(images, hash).value) + y, images))
      && (LookupUrl(images, hash).None? ==>
            r.value == Rewritten(x + ImageLink(env.upload(f)) + y, images + [Entry(hash, env.upload(f))]))
  {
    var pl := ParsePayload(l.payload).value;
    RewriteSingle(x, l, y, pl, posts, all, env, images);
    var hash := env.hashOf(f);
    var ri := ResolveImage(images, hash, env.upload(f));
    assert RewriteOne(l, pl, Attachment(f), env, images) == (ri.0, ImageLink(ri.1));
    match Lookup(images, hash)
    case Some(i) =>
      assert ri == (images, images[i].url) && LookupUrl(images, hash) == Some(images[i].url);
    case None =>
      assert ri == (images + [Entry(hash, env.upload(f))], env.upload(f));
  }

  // ---------------------------------------------------------------------------------------
  // The substitution loop as written: `article = article.replace(links[i][0], stdLinks[i])`

  function ReplaceInOrder(s: string, pats: seq<string>, reps: seq<string>): string
    requires |pats| == |reps|
    decreases |pats|
  {
    if pats == [] then s else ReplaceInOrder(ReplaceFirst(s, pats[0], reps[0]), pats[1..], reps[1..])
  }

  /** The source's loop: each matched text, in order, has its first occurrence replaced. */
  method ReplaceEach(article: string, pats: seq<string>, stdLinks: seq<string>) returns (r: string)
    requires |pats| == |stdLinks|
    ensures r == ReplaceInOrder(article, pats, stdLinks)
  {
    r := article;
    for i := 0 to |pats|
      invariant ReplaceInOrder(article, pats, stdLinks) == ReplaceInOrder(r, pats[i..], stdLinks[i..])
    {
      assert pats[i..][1..] == pats[i + 1..] && stdLinks[i..][1..] == stdLinks[i + 1..];
      r := ReplaceFirst(r, pats[i], stdLinks[i]);
    }
  }

  /** `handleLinks` as written: the same replacements, but substituted by `ReplaceInOrder`. */
  function RewriteLinksAsWritten(article: string, posts: seq<TFile>, all: seq<TFile>, env: Env, images: seq<Entry>)
    : Result<Rewritten, string>
  {
    var body := StripHeading(article);
    var occs := Scan(body, 0);
    match ParseAll(occs)
    case Err(e) => Err(e)
    case Ok(pls) =>
      var (reg, reps) := ResolveAll(occs, pls, posts, all, env, images);
      Ok(Rewritten(ReplaceInOrder(body, Texts(occs), reps), reg))
  }

  /** The example article of `ReplaceInOrderMisplaces`, its two references and their payloads. */
  const Example := "[[x[[B]]]] [[B]]"
  const ExampleFirst := Occurrence(0, RawLink(false, "x[[B"))
  const ExampleSecond := Occurrence(11, RawLink(false, "B"))

  lemma ExampleHasNoHeading()
    ensures StripHeading(Example) == Example
  {
    var s := Example;
    assert s[0] != '\n';
    SpanExact(s, 0, 0, NotNewline);
    assert s[0..2] != "# ";
  }

  lemma ExampleScanTail()
    ensures Scan(Example, 8) == [ExampleSecond]
  {
    var s := Example;
    var l2 := ExampleSecond.link;
    assert Full(l2) == "[[B]]";
    assert s[11..16] == Full(l2);
    BracketAtComplete(s, 11, l2.payload);
    assert s[11] != '!';
    NoMatchAt(s, 8);
    NoMatchAt(s, 9);
    NoMatchAt(s, 10);
    ScanMiss(MatchAt, s, 8);
    ScanMiss(MatchAt, s, 9);
    ScanMiss(MatchAt, s, 10);
    ScanHit(MatchAt, s, 11, l2);
    assert ScanWith(MatchAt, s, 16) == [];
  }

  lemma ExampleFirstMatch()
    ensures MatchAt(Example, 0) == Some(ExampleFirst.link) && |Full(ExampleFirst.link)| == 8
  {
    var l1 := ExampleFirst.link;
    assert Full(l1) == "[[x[[B]]";
    assert Example[0..8] == Full(l1);
    BracketAtComplete(Example, 0, l1.payload);
    assert Example[0] != '!';
  }

  lemma ExampleScan()
    ensures Scan(Example, 0) == [ExampleFirst, ExampleSecond]
  {
    ExampleFirstMatch();
    ScanHit(MatchAt, Example, 0, ExampleFirst.link);
    ExampleScanTail();
  }

  lemma ExampleParses()
    ensures ParseAll([ExampleSecond]).Ok? && ParseAll([ExampleSecond]).value == [Payload("B", None, None)]
    ensures var r := ParseAll([ExampleFirst, ExampleSecond]);
      r.Ok? && r.value == [Payload("x[[B", None, None), Payload("B", None, None)]
  {
    var p1 := Payload("x[[B", None, None);
    var p2 := Payload("B", None, None);
    assert Unparse(p1) == "x[[B" && Unparse(p2) == "B";
    ParsePayloadComplete(p1);
    ParsePayloadComplete(p2);
    ParseAllStep([ExampleSecond]);
    assert [ExampleSecond][1..] == [];
    ParseAllStep([ExampleFirst, ExampleSecond]);
    assert [ExampleFirst, ExampleSecond][1..] == [ExampleSecond];
  }

  lemma ExampleReplacements(env: Env, images: seq<Entry>)
    ensures ParseAll([ExampleFirst, ExampleSecond]).Ok?
    ensures var pls := ParseAll([ExampleFirst, ExampleSecond]).value;
      ResolveAll([ExampleFirst, ExampleSecond], pls, [], [], env, images) == (images, ["x[[B", "B"])
  {
    ExampleParses();
    var occs := [ExampleFirst, ExampleSecond];
    ResolveAllInEmptyVault(occs, ParseAll(occs).value, env, images);
    assert Payloads(occs) == ["x[[B", "B"];
  }

  lemma ExampleReplacedInOrder()
    ensures ReplaceInOrder(Example, Texts([ExampleFirst, ExampleSecond]), ["x[[B", "B"]) == "xB [[B]]"
  {
    var s := Example;
    var f1 := Full(ExampleFirst.link);
    var f2 := Full(ExampleSecond.link);
    assert f1 == "[[x[[B]]" && f2 == "[[B]]";
    assert Texts([ExampleFirst, ExampleSecond]) == [f1, f2];
    IndexOfZero(s, f1);
    var t := ReplaceFirst(s, f1, "x[[B");
    assert t == "x[[B]] [[B]]";
    assert t[1..6] == f2;
    assert IndexFrom(t, f2, 1) == Some(1);
    assert t[0..5] != f2 by { assert t[0..5][0] != f2[0]; }
    assert IndexFrom(t, f2, 0) == Some(1);
    assert ReplaceFirst(t, f2, "B") == "xB [[B]]";
    assert ReplaceInOrder(s, [f1, f2], ["x[[B", "B"]) == ReplaceInOrder(t, [f2], ["B"]);
  }

  lemma ExampleTiled()
    ensures Tiled(Example, [ExampleSecond], 8)
    ensures Tiled(Example, [ExampleFirst, ExampleSecond], 0)
  {
    assert Full(ExampleFirst.link) == "[[x[[B]]" && Full(ExampleSecond.link) == "[[B]]";
    assert Example[0..8] == Full(ExampleFirst.link) && Example[11..16] == Full(ExampleSecond.link);
    assert [ExampleFirst, ExampleSecond][1..] == [ExampleSecond] && [ExampleSecond][1..] == [];
    assert Tiled(Example, [], 16);
  }

  lemma ExampleSplicedTail()
    ensures Tiled(Example, [ExampleSecond], 8)
    ensures Splice(Example, [ExampleSecond], ["B"], 8) == "]] B"
  {
    ExampleTiled();
    SpliceCons(Example, [ExampleSecond], ["B"], 8);
    assert [ExampleSecond][1..] == [] && ["B"][1..] == [];
    assert End(ExampleSecond) == 16;
    assert Splice(Example, [], [], 16) == "";
    assert Example[8..11] == "]] ";
  }

  lemma ExampleSpliced()
    ensures Tiled(Example, [ExampleFirst, ExampleSecond], 0)
    ensures Splice(Example, [ExampleFirst, ExampleSecond], ["x[[B", "B"], 0) == "x[[B]] B"
  {
    ExampleTiled();
    SpliceCons(Example, [ExampleFirst, ExampleSecond], ["x[[B", "B"], 0);
    ExampleSplicedTail();
    assert [ExampleFirst, ExampleSecond][1..] == [ExampleSecond] && ["x[[B", "B"][1..] == ["B"];
    assert End(ExampleFirst) == 8;
    assert Example[0..0] == "";
  }

  /**
   * A reference whose payload contains `[[` followed by one that repeats its tail: the
   * first replacement creates a new first occurrence of the second reference's text, so
   * the substitution as written rewrites the wrong place and leaves the real one alone,
   * while the positional splice rewrites both references where they stand.
   */
  lemma ReplaceInOrderMisplaces(env: Env, images: seq<Entry>)
    ensures RewriteLinksAsWritten(Example, [], [], env, images).Ok?
    ensures RewriteLinksAsWritten(Example, [], [], env, images).value == Rewritten("xB [[B]]", images)
    ensures RewriteLinks(Example, [], [], env, images).Ok?
    ensures RewriteLinks(Example, [], [], env, images).value == Rewritten("x[[B]] B", images)
  {
    ExampleHasNoHeading();
    ExampleScan();
    ExampleReplacements(env, images);
    ExampleReplacedInOrder();
    ExampleSpliced();
  }
}
