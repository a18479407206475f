/**
 * The exporter object: the vault's files, the published notes found among them, and the
 * operations that select the notes, resolve references, rewrite articles and build the
 * upload requests.
 *
 * Reading a note (`cachedRead`), YAML parsing and printing, the content hash, the image
 * uploader and the frontmatter of a linked note are parameters.
 */
module Plugin {
  import opened Wrappers
  import opened Text
  import opened Frontmatter
  import opened Tags
  import opened NoteIndex
  import opened Images
  import opened Links

  /** `{tFile, frontmatter, article}`: a note selected for publishing. */
  datatype Post = Post(file: TFile, frontmatter: Yaml, article: string)

  /** `cachedRead`: the text of a vault file. */
  type Reader = TFile -> string

  /** The notes of `files` that are published, in order, each with its frontmatter and article. */
  function ValidPosts(files: seq<TFile>, read: Reader, parse: Parser): seq<Post>
    decreases |files|
  {
    if files == [] then []
    else
      var f := files[0];
      var fm := GetYaml(read(f), parse);
      var rest := ValidPosts(files[1..], read, parse);
      if f.extension == "md" && IsPublished(fm) then [Post(f, fm.value, ArticleBody(read(f)))] + rest else rest
  }

  /** Selecting over one more file appends that file's post, if it is one. */
  lemma {:induction false} ValidPostsAppend(files: seq<TFile>, f: TFile, read: Reader, parse: Parser)
    ensures var fm := GetYaml(read(f), parse);
      ValidPosts(files + [f], read, parse) ==
        ValidPosts(files, read, parse)
        + (if f.extension == "md" && IsPublished(fm) then [Post(f, fm.value, ArticleBody(read(f)))] else [])
    decreases |files|
  {
    if files == [] {
      assert [] + [f] == [f] && [f][1..] == [];
    } else {
      assert (files + [f])[1..] == files[1..] + [f];
      ValidPostsAppend(files[1..], f, read, parse);
    }
  }

  /** The files of a list of posts. */
  function FilesOf(posts: seq<Post>): (fs: seq<TFile>)
    ensures |fs| == |posts|
  {
    seq(|posts|, k requires 0 <= k < |posts| => posts[k].file)
  }

  /** The file passes `getValidNotes`' filter: Markdown, with `published: true` in its frontmatter. */
  predicate Publishable(f: TFile, read: Reader, parse: Parser) {
    f.extension == "md" && IsPublished(GetYaml(read(f), parse))
  }

  /** The post `getValidNotes` makes of a file whose frontmatter parsed. */
  function PostOf(f: TFile, read: Reader, parse: Parser): Post
    requires GetYaml(read(f), parse).Some?
  {
    Post(f, GetYaml(read(f), parse).value, ArticleBody(read(f)))
  }

  /** One step of the filter. */
  lemma ValidPostsCons(files: seq<TFile>, read: Reader, parse: Parser)
    requires files != []
    ensures Publishable(files[0], read, parse) ==>
      ValidPosts(files, read, parse) == [PostOf(files[0], read, parse)] + ValidPosts(files[1..], read, parse)
    ensures !Publishable(files[0], read, parse) ==>
      ValidPosts(files, read, parse) == ValidPosts(files[1..], read, parse)
  {
  }

  lemma FilesOfCons(p: Post, posts: seq<Post>)
    ensures FilesOf([p] + posts) == [p.file] + FilesOf(posts)
  {
  }

  /** Every selected post comes from a publishable file, with that file's frontmatter and article. */
  lemma {:induction false} ValidPostsSound(files: seq<TFile>, read: Reader, parse: Parser)
    ensures forall p :: p in ValidPosts(files, read, parse) ==>
      p.file in files && Publishable(p.file, read, parse) && p == PostOf(p.file, read, parse)
    decreases |files|
  {
    if files != [] {
      ValidPostsSound(files[1..], read, parse);
      ValidPostsCons(files, read, parse);
      assert forall g :: g in files[1..] ==> g in files;
    }
  }

  /** Every publishable file is selected. */
  lemma {:induction false} ValidPostsComplete(files: seq<TFile>, read: Reader, parse: Parser)
    ensures forall f :: f in files && Publishable(f, read, parse) ==> f in FilesOf(ValidPosts(files, read, parse))
    decreases |files|
  {
    if files != [] {
      ValidPostsComplete(files[1..], read, parse);
      ValidPostsCons(files, read, parse);
      var f := files[0];
      var rest := ValidPosts(files[1..], read, parse);
      if Publishable(f, read, parse) {
        FilesOfCons(PostOf(f, read, parse), rest);
      }
      assert forall g :: g in files ==> g == f || g in files[1..];
    }
  }

  /**
   * A post is selected exactly for each Markdown file whose frontmatter says `published: true`;
   * its frontmatter is the parsed one and its article the text after the second `---`.
   */
  lemma ValidPostsSelect(files: seq<TFile>, read: Reader, parse: Parser)
    ensures forall p :: p in ValidPosts(files, read, parse) ==>
      && p.file in files && p.file.extension == "md"
      && GetYaml(read(p.file), parse) == Some(p.frontmatter) && IsPublished(Some(p.frontmatter))
      && p.article == ArticleBody(read(p.file))
    ensures forall f :: f in files && f.extension == "md" && IsPublished(GetYaml(read(f), parse)) ==>
      f in FilesOf(ValidPosts(files, read, parse))
  {
    ValidPostsSound(files, read, parse);
    ValidPostsComplete(files, read, parse);
  }

  /** What `handlings` makes of a post: the rewritten article, normalised tags and the registry after it. */
  datatype Handled = Handled(post: Post, registry: seq<Entry>)

  /** `handlings`: the links of the article are rewritten, then the tags normalised; either may throw. */
  function HandledPost(post: Post, posts: seq<TFile>, all: seq<TFile>, env: Env, images: seq<Entry>)
    : Result<Handled, string>
  {
    match RewriteLinks(post.article, posts, all, env, images)
    case Err(e) => Err(e)
    case Ok(rw) =>
      match NormalizeTags(post.frontmatter)
      case Err(e) => Err(e)
      case Ok(fm) => Ok(Handled(Post(post.file, fm, rw.article), rw.registry))
  }

  /**
   * Handling succeeds exactly when every payload scanned in the stripped article fits the
   * grammar and `tags` is not an array holding a non-string. The first invalid payload's
   * `Invalid link ` error comes first, then the first non-string tag's `TypeError`. On
   * success the file is kept, only `tags` may change in the frontmatter, and the article
   * and registry are the positional rewrite of the scanned references.
   */
  lemma HandledPostOutcome(post: Post, posts: seq<TFile>, all: seq<TFile>, env: Env, images: seq<Entry>)
    ensures var occs := Scan(StripHeading(post.article), 0);
      var fm := post.frontmatter;
      var h := HandledPost(post, posts, all, env, images);
      && (h.Ok? <==>
            (forall k :: 0 <= k < |occs| ==> ParsePayload(occs[k].link.payload).Some?)
            && !("tags" in fm && fm["tags"].List? && !AllStrings(fm["tags"].items)))
      && (forall k: nat :: FirstInvalid(occs, k) ==> h == Err("Invalid link " + Full(occs[k].link)))
      && (forall k: nat ::
            (forall j :: 0 <= j < |occs| ==> ParsePayload(occs[j].link.payload).Some?)
            && "tags" in fm && fm["tags"].List? && FirstNonString(fm["tags"].items, k)
            ==> h == Err(SplitTypeError(fm["tags"].items[k])))
    ensures var body := StripHeading(post.article);
      var occs := Scan(body, 0);
      var h := HandledPost(post, posts, all, env, images);
      h.Ok? ==>
        && ParseAll(occs).Ok? && Tiled(body, occs, 0)
        && var res := ResolveAll(occs, ParseAll(occs).value, posts, all, env, images);
           && h.value.post.file == post.file
           && h.value.post.frontmatter.Keys == post.frontmatter.Keys
           && (forall key :: key in post.frontmatter && key != "tags" ==>
                 h.value.post.frontmatter[key] == post.frontmatter[key])
           && h.value.post.article == Splice(body, occs, res.1, 0)
           && h.value.registry == res.0
  {
    var fm := post.frontmatter;
    var occs := Scan(StripHeading(post.article), 0);
    RewriteLinksOutcome(post.article, posts, all, env, images);
    NormalizeTagsFrame(fm);
    forall k: nat | (forall j :: 0 <= j < |occs| ==> ParsePayload(occs[j].link.payload).Some?)
                    && "tags" in fm && fm["tags"].List? && FirstNonString(fm["tags"].items, k)
      ensures HandledPost(post, posts, all, env, images) == Err(SplitTypeError(fm["tags"].items[k]))
    {
      ArrayTagWithNonStringFails(fm, fm["tags"].items, k);
    }
    if RewriteLinks(post.article, posts, all, env, images).Ok? {
      RewriteLinksEach(post.article, posts, all, env, images);
    }
  }

  /** `{Key, Body}` of the `PutObjectCommand` for a post. */
  datatype PutObject = PutObject(key: string, body: string)

  /** The upload request of `upload(post)`. */
  function UploadRequest(post: Post, stringify: Printer): PutObject {
    PutObject(PublishKey(post.frontmatter, post.file.basename),
              PostContent(post.frontmatter, post.article, stringify))
  }

  /**
   * Handling a post keeps its file and the key it is uploaded under, and a post that is
   * rewritten, printed and read back through a faithful YAML round trip is still published
   * with the rewritten article after `---\n\n`.
   */
  lemma HandlingKeepsPublication(post: Post, posts: seq<TFile>, all: seq<TFile>, env: Env, images: seq<Entry>,
                                 stringify: Printer, parse: Parser)
    requires IsPublished(Some(post.frontmatter))
    requires HandledPost(post, posts, all, env, images).Ok?
    requires NormalizeTags(post.frontmatter).Ok?
    requires var fm := NormalizeTags(post.frontmatter).value;
      var y := stringify(fm);
      |y| > 0 && y[|y| - 1] == '\n' && !Contains(y, Marker) && parse("\n" + y) == Some(fm)
    ensures var h := HandledPost(post, posts, all, env, images).value.post;
      var req := UploadRequest(h, stringify);
      && h.file == post.file
      && req.key == UploadRequest(post, stringify).key
      && IsPublished(GetYaml(req.body, parse))
      && ArticleBody(req.body) == "\n\n" + h.article
  {
    var h := HandledPost(post, posts, all, env, images).value.post;
    NormalizeTagsFrame(post.frontmatter);
    assert Slug(h.frontmatter, h.file.basename) == Slug(post.frontmatter, post.file.basename);
    PostContentRoundTrip(h.frontmatter, h.article, stringify, parse);
  }

  class Exporter {
    /** `allTFiles`: every file of the vault. */
    var allFiles: seq<TFile>
    /** `postsTFiles`: the published notes found by the last `GetValidNotes`. */
    var postFiles: seq<TFile>

    constructor(files: seq<TFile>)
      ensures allFiles == files && postFiles == []
    {
      allFiles := files;
      postFiles := [];
    }

    /** `findNote`: a published note named exactly `link`, else the first vault file named by its stem. */
    method FindNote(link: string) returns (r: Resolution)
      ensures r == Resolve(postFiles, allFiles, link)
    {
      for i := 0 to |postFiles|
        invariant FirstNamedFrom(postFiles, link, 0) == FirstNamedFrom(postFiles, link, i)
      {
        if postFiles[i].basename == link {
          return Published(postFiles[i]);
        }
      }
      var stem := Split(link, ".")[0];
      for j := 0 to |allFiles|
        invariant FirstNamedFrom(allFiles, stem, 0) == FirstNamedFrom(allFiles, stem, j)
      {
        if stem == allFiles[j].basename {
          if allFiles[j].extension == "md" {
            return Unpublished(allFiles[j]);
          } else {
            return Attachment(allFiles[j]);
          }
        }
      }
      return NotFound;
    }

    /** `getValidNotes`: the published Markdown notes, whose files also become `postFiles`. */
    method GetValidNotes(read: Reader, parse: Parser) returns (posts: seq<Post>)
      modifies this`postFiles
      ensures posts == ValidPosts(allFiles, read, parse)
      ensures postFiles == FilesOf(posts)
    {
      posts := [];
      postFiles := [];
      for i := 0 to |allFiles|
        invariant posts == ValidPosts(allFiles[..i], read, parse)
        invariant postFiles == FilesOf(posts)
      {
        var note := allFiles[i];
        ValidPostsAppend(allFiles[..i], note, read, parse);
        assert allFiles[..i + 1] == allFiles[..i] + [note];
        if note.extension == "md" {
          var noteContent := read(note);
          var frontmatter := GetYaml(noteContent, parse);
          if IsPublished(frontmatter) {
            postFiles := postFiles + [note];
            posts := posts + [Post(note, frontmatter.value, ArticleBody(noteContent))];
          }
        }
      }
      assert allFiles[..|allFiles|] == allFiles;
    }

    /**
     * `handleLinks`: the heading is stripped, every payload is parsed (the first one outside
     * the grammar aborts), every reference is resolved and replaced in order, and the
     * replacements are substituted at the positions the scan found.
     */
    method HandleLinks(article: string, env: Env, images: seq<Entry>) returns (r: Result<Rewritten, string>)
      ensures r == RewriteLinks(article, postFiles, allFiles, env, images)
    {
      var body := StripHeading(article);
      var links := Scan(body, 0);
      var parsed := ParseLinks(links);
      if parsed.Err? {
        return Err(parsed.error);
      }
      var pls := parsed.value;
      var registry, stdLinks := ResolveLinks(links, pls, env, images);
      ScanTiled(body, 0);
      var out := Substitute(body, links, stdLinks);
      RewriteLinksOf(article, body, links, pls, postFiles, allFiles, env, images);
      return Ok(Rewritten(out, registry));
    }

    /** The replacement of one reference, resolved with `FindNote`, and the registry after it. */
    method StdLink(l: RawLink, pl: Payload, env: Env, images: seq<Entry>) returns (registry: seq<Entry>, rep: string)
      ensures (registry, rep) == RewriteOne(l, pl, Resolve(postFiles, allFiles, pl.target), env, images)
    {
      var linkNote := FindNote(pl.target);
      registry := images;
      match linkNote {
        case Published(f) => rep := PublishedLink(pl, env.meta(f));
        case Unpublished(_) => rep := l.payload;
        case NotFound => rep := l.payload;
        case Attachment(f) =>
          var url;
          registry, url := HandleImage(images, f, env.hashOf, env.upload);
          rep := ImageLink(url);
      }
    }

    /** The replacement of every reference, in order, each resolved with `FindNote`. */
    method ResolveLinks(links: seq<Occurrence>, pls: seq<Payload>, env: Env, images: seq<Entry>)
      returns (registry: seq<Entry>, stdLinks: seq<string>)
      requires |pls| == |links|
      ensures (registry, stdLinks) == ResolveAll(links, pls, postFiles, allFiles, env, images)
    {
      stdLinks := [];
      registry := images;
      assert links[0..] == links && pls[0..] == pls;
      for i := 0 to |links|
        invariant ResolvedUpTo(links, pls, postFiles, allFiles, env, images, i, registry, stdLinks)
      {
        ResolvedStep(links, pls, postFiles, allFiles, env, images, i, registry, stdLinks);
        var registry', rep := StdLink(links[i].link, pls[i], env, registry);
        stdLinks := stdLinks + [rep];
        registry := registry';
      }
      ResolvedAll(links, pls, postFiles, allFiles, env, images, registry, stdLinks);
    }

    /** `handlings`: the article's links, then the frontmatter's tags. */
    method Handlings(post: Post, env: Env, images: seq<Entry>) returns (r: Result<Handled, string>)
      ensures r == HandledPost(post, postFiles, allFiles, env, images)
    {
      var rw := HandleLinks(post.article, env, images);
      if rw.Err? {
        return Err(rw.error);
      }
      var frontmatter := HandleTags(post.frontmatter);
      if frontmatter.Err? {
        return Err(frontmatter.error);
      }
      return Ok(Handled(Post(post.file, frontmatter.value, rw.value.article), rw.value.registry));
    }
  }

  /** `link[2].match(pattern)` for every reference, stopping at the first that does not match. */
  method ParseLinks(links: seq<Occurrence>) returns (r: Result<seq<Payload>, string>)
    ensures r == ParseAll(links)
  {
    var pls: seq<Payload> := [];
    assert links[0..] == links;
    PrefixedEmpty(ParseAll(links));
    for i := 0 to |links|
      invariant ParseAll(links) == Prefixed(pls, ParseAll(links[i..]))
    {
      assert links[i..][1..] == links[i + 1..];
      ParseAllStep(links[i..]);
      match ParsePayload(links[i].link.payload) {
        case None =>
          return Err("Invalid link " + Full(links[i].link));
        case Some(pl) =>
          PrefixedTwice(pls, [pl], ParseAll(links[i + 1..]));
          pls := pls + [pl];
      }
    }
    assert links[|links|..] == [];
    assert pls + [] == pls;
    return Ok(pls);
  }

  /** The parses `pls` already made, in front of the outcome of parsing the rest. */
  function Prefixed(pls: seq<Payload>, r: Result<seq<Payload>, string>): Result<seq<Payload>, string> {
    match r
    case Err(e) => Err(e)
    case Ok(more) => Ok(pls + more)
  }

  lemma PrefixedEmpty(r: Result<seq<Payload>, string>)
    ensures Prefixed([], r) == r
  {
    if r.Ok? {
      assert [] + r.value == r.value;
    }
  }

  lemma PrefixedTwice(a: seq<Payload>, b: seq<Payload>, r: Result<seq<Payload>, string>)
    ensures Prefixed(a, Prefixed(b, r)) == Prefixed(a + b, r)
  {
    if r.Ok? {
      assert a + (b + r.value) == (a + b) + r.value;
    }
  }

  /** Each reference replaced at its own position, left to right. */
  method Substitute(body: string, links: seq<Occurrence>, stdLinks: seq<string>) returns (out: string)
    requires Tiled(body, links, 0) && |stdLinks| == |links|
    ensures out == Splice(body, links, stdLinks, 0)
  {
    out := "";
    var pos: nat := 0;
    for i := 0 to |links|
      invariant Tiled(body, links[i..], pos)
      invariant Splice(body, links, stdLinks, 0) == out + Splice(body, links[i..], stdLinks[i..], pos)
    {
      assert links[i..][1..] == links[i + 1..] && stdLinks[i..][1..] == stdLinks[i + 1..];
      out := out + body[pos..links[i].start] + stdLinks[i];
      pos := End(links[i]);
    }
    out := out + body[pos..];
  }
}
