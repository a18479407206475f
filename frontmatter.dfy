/**
 * Frontmatter handling: the YAML block between the first two `---` markers of a note,
 * the article text after the second marker, the `published` flag, the object key a post
 * is uploaded under, and the text that is uploaded.
 *
 * YAML parsing and stringifying are library calls; they are parameters here.
 */
module Frontmatter {
  import opened Wrappers
  import opened Text

  /** A frontmatter value as the pipeline distinguishes it; `Undefined` is JavaScript's `undefined`. */
  datatype Value =
    | Str(s: string)
    | List(items: seq<Value>)
    | Bool(b: bool)
    | Null
    | Undefined
    | Other(shown: string)  // any other YAML value, with the text a template literal turns it into

  /** A parsed frontmatter mapping. */
  type Yaml = map<string, Value>

  /** `YAML.parse`: `None` for input that does not parse to a mapping. */
  type Parser = string -> Option<Yaml>

  /** `YAML.stringify` of a mapping. */
  type Printer = Yaml -> string

  const Marker: string := "---"

  /** `getYaml`: no frontmatter unless the text starts with `---`; else the second `split("---")` piece, parsed. */
  function GetYaml(text: string, parse: Parser): Option<Yaml> {
    if IndexOf(text, Marker) != Some(0) then None
    else
      var parts := Split(text, Marker);
      parse(parts[1])
  }

  /** The article of a valid note: `text.split("---").slice(2).join("---")`. */
  function ArticleBody(text: string): string {
    var parts := Split(text, Marker);
    if |parts| < 2 then "" else Join(parts[2..], Marker)
  }

  /** The text strictly between a leading `---` and the next `---` (or the end of the text). */
  function YamlSegment(text: string): string
    requires Marker <= text
  {
    var rest := text[|Marker|..];
    match IndexOf(rest, Marker)
    case None => rest
    case Some(k) => rest[..k]
  }

  /** `getYaml` yields nothing unless the text begins with `---`, and otherwise parses the first segment. */
  lemma GetYamlSegment(text: string, parse: Parser)
    ensures !(Marker <= text) ==> GetYaml(text, parse) == None
    ensures Marker <= text ==> GetYaml(text, parse) == parse(YamlSegment(text))
  {
    IndexOfZero(text, Marker);
    if Marker <= text {
      var rest := text[3..];
      assert Split(text, Marker) == [text[..0]] + Split(rest, Marker);
    }
  }

  /** With two `---` markers, the article is exactly the text after the second one, later markers included. */
  lemma ArticleAfterSecondMarker(text: string, i: nat, k: nat)
    requires IndexOf(text, Marker) == Some(i)
    requires IndexOf(text[i + 3..], Marker) == Some(k)
    ensures ArticleBody(text) == text[i + 3 + k + 3..]
  {
    var rest := text[i + 3..];
    var tail := rest[k + 3..];
    assert tail == text[i + 3 + k + 3..];
    assert Split(rest, Marker) == [rest[..k]] + Split(tail, Marker);
    assert Split(text, Marker) == [text[..i]] + Split(rest, Marker);
    assert Split(text, Marker)[2..] == Split(tail, Marker);
    JoinSplit(tail, Marker);
  }

  /**
   * A `---` inside a frontmatter value ends the frontmatter there: `title: A --- B` hands
   * the parser only `title: A `.
   */
  lemma MarkerInValueCutsYaml(parse: Parser)
    ensures GetYaml("---\ntitle: A --- B\n---\n", parse) == parse("\ntitle: A ")
  {
    var text := "---\ntitle: A --- B\n---\n";
    var rest := text[3..];
    assert rest == "\ntitle: A --- B\n---\n";
    assert OccursAt(rest, Marker, 10) by {
      assert rest[10..13] == Marker;
    }
    forall j: nat | j < 10 ensures !OccursAt(rest, Marker, j) {
      assert rest[j] != '-';
      assert rest[j..j + 3][0] == rest[j];
    }
    assert IndexOf(rest, Marker) == Some(10);
    assert YamlSegment(text) == rest[..10] == "\ntitle: A ";
    GetYamlSegment(text, parse);
  }

  /** With fewer than two `---` markers there is no article. */
  lemma ArticleNeedsTwoMarkers(text: string)
    requires IndexOf(text, Marker).None? ||
             IndexOf(text[IndexOf(text, Marker).value + 3..], Marker).None?
    ensures ArticleBody(text) == ""
  {
    if IndexOf(text, Marker).Some? {
      var i := IndexOf(text, Marker).value;
      assert Split(text, Marker) == [text[..i]] + Split(text[i + 3..], Marker);
    }
  }

  /** `frontmatter?.published === true`. */
  predicate IsPublished(fm: Option<Yaml>) {
    fm.Some? && "published" in fm.value && fm.value["published"] == Bool(true)
  }

  /** How a template literal `${...}` shows a value; an array shows its elements joined by `,`. */
  function Render(v: Value): string
    decreases v, 1
  {
    match v
    case Str(s) => s
    case List(items) => Join(seq(|items|, k requires 0 <= k < |items| => RenderElement(items[k])), ",")
    case Bool(b) => if b then "true" else "false"
    case Null => "null"
    case Undefined => "undefined"
    case Other(shown) => shown
  }

  /** How `Array.prototype.join` shows an element: `null` and `undefined` as the empty text. */
  function RenderElement(v: Value): string
    decreases v, 2
  {
    if v.Null? || v.Undefined? then "" else Render(v)
  }

  /** The file name a post is published under: `plink` when the frontmatter has one, else the basename. */
  function Slug(fm: Yaml, basename: string): string {
    if "plink" in fm then Render(fm["plink"]) else basename
  }

  /** The object key of a post: `posts/{slug}.md`. */
  function PublishKey(fm: Yaml, basename: string): string {
    "posts/" + Slug(fm, basename) + ".md"
  }

  /** Two posts are uploaded under the same key exactly when their slugs agree. */
  lemma PublishKeyInjective(fm1: Yaml, b1: string, fm2: Yaml, b2: string)
    ensures PublishKey(fm1, b1) == PublishKey(fm2, b2) <==> Slug(fm1, b1) == Slug(fm2, b2)
  {
    var k1, k2 := PublishKey(fm1, b1), PublishKey(fm2, b2);
    if k1 == k2 {
      assert k1[6..|k1| - 3] == Slug(fm1, b1);
      assert k2[6..|k2| - 3] == Slug(fm2, b2);
    }
  }

  /** The body that is uploaded for a post. */
  function PostContent(fm: Yaml, article: string, stringify: Printer): string {
    "---\n" + stringify(fm) + "---\n\n" + article
  }

  lemma FirstMarkerInContent(y: string, article: string)
    requires |y| > 0 && y[|y| - 1] == '\n' && !Contains(y, Marker)
    ensures IndexOf("\n" + y + "---\n\n" + article, Marker) == Some(|y| + 1)
  {
    var t := "\n" + y + "---\n\n" + article;
    assert OccursAt(t, Marker, |y| + 1);
    forall j: nat | j < |y| + 1
      ensures !OccursAt(t, Marker, j)
    {
      if j == 0 {
        assert t[0] == '\n';
      } else if j + 3 <= |y| + 1 {
        assert y[j - 1..j + 2] == t[j..j + 3];
        assert !OccursAt(y, Marker, j - 1);
      } else {
        assert t[|y|] == '\n';
        assert t[j..j + 3][|y| - j] == '\n';
      }
    }
  }

  /**
   * Reading back an uploaded post: when the printed YAML ends its last line and has no `---`
   * in it, the frontmatter segment is `"\n"` plus the printed YAML and the article comes back
   * with the two blank-line characters the upload puts in front of it.
   */
  lemma PostContentRoundTrip(fm: Yaml, article: string, stringify: Printer, parse: Parser)
    requires var y := stringify(fm); |y| > 0 && y[|y| - 1] == '\n' && !Contains(y, Marker)
    ensures GetYaml(PostContent(fm, article, stringify), parse) == parse("\n" + stringify(fm))
    ensures ArticleBody(PostContent(fm, article, stringify)) == "\n\n" + article
    ensures parse("\n" + stringify(fm)) == Some(fm) ==>
      IsPublished(GetYaml(PostContent(fm, article, stringify), parse)) == IsPublished(Some(fm))
  {
    var y := stringify(fm);
    var c := PostContent(fm, article, stringify);
    var t := "\n" + y + "---\n\n" + article;
    assert c == Marker + t;
    IndexOfZero(c, Marker);
    FirstMarkerInContent(y, article);
    assert c[3..] == t;
    assert YamlSegment(c) == t[..|y| + 1] == "\n" + y;
    GetYamlSegment(c, parse);
    ArticleAfterSecondMarker(c, 0, |y| + 1);
    assert c[0 + 3 + (|y| + 1) + 3..] == t[|y| + 4..] == "\n\n" + article;
  }
}
