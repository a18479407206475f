/**
 * `handleTags`: hierarchical tags `a/b/c` are flattened to their leaf segment `c`.
 */
module Tags {
  import opened Wrappers
  import opened Text
  import opened Frontmatter

  const TagSep: string := "/"

  /** `t.split("/")[t.split("/").length - 1]`. */
  function LastSegment(t: string): string {
    var parts := Split(t, TagSep);
    parts[|parts| - 1]
  }

  /** A leaf of `t`: a suffix of `t` without `/`, which is all of `t` or comes right after a `/`. */
  predicate IsLeafOf(r: string, t: string) {
    |r| <= |t| && t[|t| - |r|..] == r && (forall k :: 0 <= k < |r| ==> r[k] != '/')
    && (|r| == |t| || t[|t| - |r| - 1] == '/')
  }

  /** The last segment of a path is that of what follows its first `/`. */
  lemma LastSegmentAfterSep(t: string, i: nat)
    requires IndexOf(t, TagSep) == Some(i)
    ensures i < |t| && t[i] == '/' && LastSegment(t) == LastSegment(t[i + 1..])
  {
    SplitAt(t, TagSep, i);
    OccursAtChar(t, '/', i);
  }

  /** A leaf of what follows a `/` is a leaf of the whole path. */
  lemma LeafAfterSep(r: string, t: string, i: nat)
    requires i < |t| && t[i] == '/' && IsLeafOf(r, t[i + 1..])
    ensures IsLeafOf(r, t)
  {
    var rest := t[i + 1..];
    assert t[|t| - |r|..] == rest[|rest| - |r|..];
    if |r| == |rest| {
      assert t[|t| - |r| - 1] == t[i];
    } else {
      assert t[|t| - |r| - 1] == rest[|rest| - |r| - 1];
    }
  }

  /** The last segment is the leaf of the tag path. */
  lemma {:induction false} LastSegmentIsLeaf(t: string)
    ensures IsLeafOf(LastSegment(t), t)
    decreases |t|
  {
    match IndexOf(t, TagSep)
    case None =>
      forall k | 0 <= k < |t| ensures t[k] != '/' {
        OccursAtChar(t, '/', k);
      }
      assert Split(t, TagSep) == [t];
    case Some(i) =>
      LastSegmentAfterSep(t, i);
      LastSegmentIsLeaf(t[i + 1..]);
      LeafAfterSep(LastSegment(t), t, i);
  }

  /** A tag without `/` is its own last segment. */
  lemma LeafIsItsOwnLastSegment(t: string)
    requires forall k :: 0 <= k < |t| ==> t[k] != '/'
    ensures LastSegment(t) == t
  {
    AbsentChar(t, '/');
  }

  /** The string-tag case as written: `tags.split("/")[-1]` reads a missing property, i.e. `undefined`. */
  function StringTagAsWritten(t: string): Value {
    if IndexOf(t, TagSep) == Some(0) then Str(t) else Undefined
  }

  /** The string-tag case as evidently intended: the last segment of the path. */
  function StringTag(t: string): Value {
    if IndexOf(t, TagSep) == Some(0) then Str(t) else Str(LastSegment(t))
  }

  /** The `TypeError` that `tag.split(...)` throws for an array element that is not a string. */
  function SplitTypeError(v: Value): string {
    match v
    case Null => "TypeError: Cannot read properties of null (reading 'split')"
    case Undefined => "TypeError: Cannot read properties of undefined (reading 'split')"
    case _ => "TypeError: tag.split is not a function"
  }

  /** The loop over an array of tags: the leaf of each tag, in order; the first non-string element throws. */
  function ArrayLeaves(items: seq<Value>): Result<seq<Value>, string>
    decreases |items|
  {
    if items == [] then Ok([])
    else if !items[0].Str? then Err(SplitTypeError(items[0]))
    else
      match ArrayLeaves(items[1..])
      case Err(e) => Err(e)
      case Ok(ls) => Ok([Str(LastSegment(items[0].s))] + ls)
  }

  predicate AllStrings(items: seq<Value>) {
    forall k :: 0 <= k < |items| ==> items[k].Str?
  }

  /** Element `k` is the first of the array that is not a string. */
  predicate FirstNonString(items: seq<Value>, k: nat) {
    k < |items| && !items[k].Str? && forall j :: 0 <= j < k ==> items[j].Str?
  }

  /** The loop completes exactly when every element is a string, and then yields each one's last segment. */
  lemma {:induction false} ArrayLeavesOk(items: seq<Value>)
    ensures ArrayLeaves(items).Ok? <==> AllStrings(items)
    ensures ArrayLeaves(items).Ok? ==> var ls := ArrayLeaves(items).value;
      |ls| == |items| && forall k :: 0 <= k < |items| ==> ls[k] == Str(LastSegment(items[k].s))
    decreases |items|
  {
    if items != [] {
      ArrayLeavesOk(items[1..]);
      assert forall k :: 1 <= k < |items| ==> items[1..][k - 1] == items[k];
    }
  }

  /** Otherwise it throws the error of the first element that is not a string. */
  lemma {:induction false} ArrayLeavesFirstError(items: seq<Value>, k: nat)
    requires FirstNonString(items, k)
    ensures ArrayLeaves(items) == Err(SplitTypeError(items[k]))
    decreases k
  {
    if k > 0 {
      assert FirstNonString(items[1..], k - 1) by {
        assert forall j :: 0 <= j < k - 1 ==> items[1..][j] == items[j + 1];
        assert items[1..][k - 1] == items[k];
      }
      ArrayLeavesFirstError(items[1..], k - 1);
    }
  }

  /** The frontmatter after tag normalisation, or the error an array element that is not a string raises. */
  function NormalizeTags(fm: Yaml): Result<Yaml, string> {
    if "tags" !in fm then Ok(fm)
    else
      match fm["tags"]
      case Str(t) => Ok(fm["tags" := StringTag(t)])
      case List(items) =>
        (match ArrayLeaves(items)
         case Err(e) => Err(e)
         case Ok(ls) => Ok(fm["tags" := List(ls)]))
      case _ => Ok(fm)
  }

  /** `handleTags`, with the string case flattened to its last segment. */
  method HandleTags(frontmatter: Yaml) returns (r: Result<Yaml, string>)
    ensures r == NormalizeTags(frontmatter)
  {
    if "tags" !in frontmatter {
      return Ok(frontmatter);
    }
    var tags := frontmatter["tags"];
    match tags {
      case Str(t) =>
        if IndexOf(t, TagSep) == Some(0) {
          assert frontmatter["tags" := Str(t)] == frontmatter;
          return Ok(frontmatter);
        }
        r := Ok(frontmatter["tags" := Str(LastSegment(t))]);
      case List(items) =>
        var newTags: seq<Value> := [];
        for i := 0 to |items|
          invariant |newTags| == i
          invariant forall k :: 0 <= k < i ==> items[k].Str? && newTags[k] == Str(LastSegment(items[k].s))
        {
          if !items[i].Str? {
            ArrayLeavesFirstError(items, i);
            return Err(SplitTypeError(items[i]));
          }
          newTags := newTags + [Str(LastSegment(items[i].s))];
        }
        ArrayLeavesOk(items);
        assert ArrayLeaves(items).value == newTags;
        r := Ok(frontmatter["tags" := List(newTags)]);
      case _ =>
        r := Ok(frontmatter);
    }
  }

  /**
   * Normalisation fails exactly for an array of tags holding a non-string; otherwise only
   * `tags` can change, every other key keeps its value, and a `tags` value that is neither
   * a string nor an array is left alone.
   */
  lemma NormalizeTagsFrame(fm: Yaml)
    ensures NormalizeTags(fm).Err? <==> "tags" in fm && fm["tags"].List? && !AllStrings(fm["tags"].items)
    ensures NormalizeTags(fm).Ok? ==> NormalizeTags(fm).value.Keys == fm.Keys
    ensures NormalizeTags(fm).Ok? ==> forall k :: k in fm && k != "tags" ==> NormalizeTags(fm).value[k] == fm[k]
    ensures "tags" in fm && !fm["tags"].Str? && !fm["tags"].List? ==> NormalizeTags(fm) == Ok(fm)
  {
    if "tags" in fm && fm["tags"].List? {
      ArrayLeavesOk(fm["tags"].items);
    }
  }

  /** An array of string tags becomes the array of their leaves: same length, same order. */
  lemma ArrayTagsBecomeLeaves(fm: Yaml, items: seq<Value>)
    requires "tags" in fm && fm["tags"] == List(items) && AllStrings(items)
    ensures NormalizeTags(fm).Ok? && NormalizeTags(fm).value["tags"].List?
    ensures var ls := NormalizeTags(fm).value["tags"].items;
      |ls| == |items| && forall i :: 0 <= i < |items| ==> ls[i].Str? && IsLeafOf(ls[i].s, items[i].s)
  {
    ArrayLeavesOk(items);
    forall i | 0 <= i < |items| ensures IsLeafOf(LastSegment(items[i].s), items[i].s) {
      LastSegmentIsLeaf(items[i].s);
    }
  }

  /** An array of tags with an element that is not a string throws that element's `TypeError`. */
  lemma ArrayTagWithNonStringFails(fm: Yaml, items: seq<Value>, k: nat)
    requires "tags" in fm && fm["tags"] == List(items) && FirstNonString(items, k)
    ensures NormalizeTags(fm) == Err(SplitTypeError(items[k]))
  {
    ArrayLeavesFirstError(items, k);
  }

  /** `tags: [2023, a/b]`: the year is a number, and `tag.split` is not a function. */
  lemma NumericTagFails()
    ensures NormalizeTags(map["tags" := List([Other("2023"), Str("a/b")])]) == Err("TypeError: tag.split is not a function")
  {
    ArrayLeavesFirstError([Other("2023"), Str("a/b")], 0);
  }

  /** A string tag not starting with `/` becomes its leaf; one starting with `/` is left alone. */
  lemma StringTagBecomesLeaf(fm: Yaml, t: string)
    requires "tags" in fm && fm["tags"] == Str(t)
    ensures t != "" && t[0] == '/' ==> NormalizeTags(fm) == Ok(fm)
    ensures (t == "" || t[0] != '/') ==>
      NormalizeTags(fm).Ok? && NormalizeTags(fm).value["tags"].Str? && IsLeafOf(NormalizeTags(fm).value["tags"].s, t)
  {
    IndexOfZero(t, TagSep);
    LastSegmentIsLeaf(t);
    if t != "" && t[0] == '/' {
      assert TagSep <= t;
      assert fm["tags" := Str(t)] == fm;
    }
  }

  /** Normalising what normalisation produced changes nothing. */
  lemma NormalizeTagsIdempotent(fm: Yaml)
    requires NormalizeTags(fm).Ok?
    ensures NormalizeTags(NormalizeTags(fm).value) == NormalizeTags(fm)
  {
    if "tags" in fm {
      match fm["tags"]
      case Str(t) =>
        if IndexOf(t, TagSep) != Some(0) {
          var l := LastSegment(t);
          LastSegmentIsLeaf(t);
          LeafIsItsOwnLastSegment(l);
          IndexOfZero(l, TagSep);
          assert StringTag(l) == Str(l);
          var fm' := NormalizeTags(fm).value;
          assert fm'["tags" := Str(l)] == fm';
        } else {
          assert fm["tags" := Str(t)] == fm;
        }
      case List(items) =>
        ArrayLeavesOk(items);
        var ls := ArrayLeaves(items).value;
        forall i | 0 <= i < |ls| ensures LastSegment(ls[i].s) == ls[i].s {
          LastSegmentIsLeaf(items[i].s);
          LeafIsItsOwnLastSegment(ls[i].s);
        }
        ArrayLeavesOk(ls);
        assert ArrayLeaves(ls).value == ls;
        var fm' := NormalizeTags(fm).value;
        assert fm'["tags" := List(ls)] == fm';
      case _ =>
    }
  }

  /**
   * As written, every string tag that does not start with `/` is replaced by `undefined`,
   * even a plain one: `a/b/c` loses its leaf `c`.
   */
  lemma StringTagAsWrittenIsLost(t: string)
    requires t == "a/b/c"
    ensures StringTagAsWritten(t) == Undefined
    ensures StringTag(t) == Str("c")
  {
    assert TagSep == ['/'];
    OccursAtChar(t, '/', 0);
    OccursAtChar(t, '/', 1);
    assert IndexOf(t, TagSep) == Some(1);
    var rest := t[2..];
    assert rest == "b/c";
    OccursAtChar(rest, '/', 0);
    OccursAtChar(rest, '/', 1);
    assert IndexOf(rest, TagSep) == Some(1);
    assert rest[2..] == "c";
    AbsentChar("c", '/');
    assert rest[..1] == "b" && t[..1] == "a";
    assert Split(rest, TagSep) == [rest[..1]] + Split(rest[2..], TagSep);
    assert Split(t, TagSep) == [t[..1]] + Split(t[2..], TagSep);
  }
}
