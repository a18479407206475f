# Obsidian-to-static-site export pipeline, modelled in Dafny

The plugin exports an Obsidian vault to a static blog. It picks the published notes: Markdown
files whose YAML frontmatter says `published: true`. For each note it strips the leading title
heading and rewrites every wiki reference `[[target#anchor|alias]]` or `![[...]]`:

- a reference to a published note becomes a link to its post;
- a reference to an unpublished or missing note becomes plain text;
- a reference to any other file becomes an image, uploaded once per content hash.

It then flattens each tag of a tag array to its last segment (`a/b/c` becomes `c`; a single
string tag becomes `undefined` instead, see Findings) and uploads each post under
`posts/{plink or basename}.md`.

The model covers this pipeline in `src/main.ts` and proves the following:

- Both passes of note resolution: first match, precedence, and stem by first `.`.
- The reference scanner. It is a hand-written leftmost, non-overlapping scanner. It is proved
  equal to the declarative reading of the regex's global match, in both directions.
- The payload grammar. It is a parser that is proved to invert an unparser, in both directions.
  A payload outside the grammar is an error, never an exclusion.
- What each reference of any article becomes, for every replacement variant, under the registry
  the earlier references left; and the rewrite of the whole article.
- The image registry: hit/miss behaviour, growth, distinct hashes, and the stability of a rerun.
- Tag normalisation: no other key changes, it is idempotent, each result is a leaf, and an array
  holding a non-string fails with the `TypeError` the code throws.
- The frontmatter split, the article body, and the publish key.
- That an uploaded post can be read back.

Where the source updates state, the model is imperative:

- class `Plugin.Exporter` has the fields `allFiles` and `postFiles`;
- `FindNote` has its two early-return loops;
- `GetValidNotes` appends in a loop;
- `HandleTags` and `HandleImage` have their loops;
- `HandleLinks` has loops over the references.

Each method is proved equal to a specification function. The lemmas are stated about those
functions.

Modules:

- `Wrappers`: `Option`, `Result`.
- `Text`: JavaScript `indexOf`, `split`, `join` and first-occurrence `replace` over `seq<char>`.
- `Frontmatter`: `getYaml`, the article split, the publish key and the uploaded body.
- `Tags`: `handleTags`.
- `NoteIndex`: the resolution that `findNote` computes.
- `Images`: the `handleImage` registry.
- `Links`: the logic of `handleLinks`.
- `Plugin`: the exporter object.

Some inputs are parameters of the model:

- the file reader (`cachedRead`);
- YAML parse and stringify;
- the SHA-256 content hash;
- the image uploader;
- the frontmatter (`plink`, `title`) of a linked note.

The image registry is also a parameter. It stands for what the source fetches from
`images.json`.

The code behaves as follows, and the model follows it:

- References to unpublished notes and references that resolve to nothing are replaced by the
  whole payload `link[2]`, anchor and alias included (`src/main.ts:224`, `src/main.ts:236`).
- The alias `(.+)` may contain `|` and `#`. The anchor may contain `#`.
- The fallback lookup compares a basename with the link up to its *first* `.` (`split(".")[0]`),
  so `a.b.png` is looked up as `a`.

## Model

| member | source | states |
|---|---|---|
| Text.IndexOf | src/main.ts:303 | the result is the first index where the pattern occurs; when it is none, the pattern occurs at no index |
| Text.IndexOfNone | src/main.ts:303 | `indexOf` reports no index exactly when the pattern occurs nowhere in the text |
| Text.IndexOfZero | src/main.ts:303 | `indexOf("---") == 0` holds exactly when the text starts with `---` |
| Text.Split | src/main.ts:295 | `split` with a non-empty separator yields at least one piece |
| Text.SplitFirstPiece | src/main.ts:295 | `split` cuts at the leftmost occurrence: the first piece is a prefix in which no occurrence of the separator starts; it is the whole text exactly when the separator occurs nowhere, and otherwise the separator stands right after it and the other pieces are the split of the rest |
| Text.Join | src/main.ts:295 | `parts.join(sep)`; stated by `JoinSplit` |
| Text.JoinSplit | src/main.ts:295 | joining the pieces of a `split` with the same separator gives back the text |
| Text.SplitPiecesAvoidSep | src/main.ts:305 | no piece of a `split` contains the separator |
| Text.ReplaceFirst | src/main.ts:245 | `replace` with a string pattern: the first occurrence is replaced, the text is unchanged without one; used by `Links.ReplaceEach` |
| Frontmatter.GetYaml | src/main.ts:302-307 | `getYaml`: nothing without a leading `---`, else the parse of the second `split("---")` piece; what that piece is, is stated by `GetYamlSegment` |
| Frontmatter.GetYamlSegment | src/main.ts:302-307 | without a leading `---` there is no frontmatter; otherwise the parser gets the text between the first two markers (or up to the end) |
| Frontmatter.MarkerInValueCutsYaml | src/main.ts:305 | a `---` inside a frontmatter value ends the frontmatter there: for `---\ntitle: A --- B\n---\n` the parser gets only `\ntitle: A ` |
| Frontmatter.ArticleBody | src/main.ts:295 | the article `split("---").slice(2).join("---")`; what it is, is stated by `ArticleAfterSecondMarker` and `ArticleNeedsTwoMarkers` |
| Frontmatter.ArticleAfterSecondMarker | src/main.ts:295 | with two markers, the article is exactly the text after the second one, later `---` included |
| Frontmatter.ArticleNeedsTwoMarkers | src/main.ts:295 | with fewer than two markers the article is empty |
| Frontmatter.IsPublished | src/main.ts:293 | `frontmatter?.published === true`: a frontmatter exists and its `published` value is the boolean `true`; used by `ValidPostsSelect` |
| Frontmatter.Slug | src/main.ts:152 | the file name: the rendered `plink` when the frontmatter has one, else the basename |
| Frontmatter.Render | src/main.ts:152-155 | the template-literal conversion of a `plink` value: a string as itself, an array as its elements joined by `,`, booleans, `null` and `undefined` by name, any other value by the printed form it carries; see "## Left out" |
| Frontmatter.RenderElement | src/main.ts:155 | how an array element is shown when the array is joined: `null` and `undefined` as the empty text, anything else as `Render` shows it |
| Frontmatter.PublishKey | src/main.ts:152-155 | the object key `posts/{slug}.md`; stated by `PublishKeyInjective` |
| Frontmatter.PostContent | src/main.ts:151 | the uploaded body `---\n`, the printed YAML, `---\n\n`, the article; read back by `PostContentRoundTrip` |
| Frontmatter.PublishKeyInjective | src/main.ts:152-155 | two posts get the same key `posts/{slug}.md` exactly when their slugs (plink if present, else basename) agree |
| Frontmatter.PostContentRoundTrip | src/main.ts:151 | when the printed YAML ends with a newline and contains no `---`, reading the uploaded body gives back that YAML segment, the article with `\n\n` in front, and the same published flag |
| Tags.LastSegment | src/main.ts:268 | `tag.split("/")[length - 1]`; stated by `LastSegmentIsLeaf` |
| Tags.StringTagAsWritten | src/main.ts:262 | the string case as written, `tags.split("/")[-1]`; stated by `StringTagAsWrittenIsLost` |
| Tags.StringTag | src/main.ts:260-263 | the string case as intended; stated by `StringTagBecomesLeaf` |
| Tags.ArrayLeaves | src/main.ts:264-271 | the loop over an array of tags; stated by `ArrayLeavesOk` and `ArrayLeavesFirstError` |
| Tags.ArrayLeavesOk | src/main.ts:264-271 | the loop over an array completes exactly when every element is a string, and then yields each element's last segment, in order |
| Tags.ArrayLeavesFirstError | src/main.ts:266-268 | otherwise the loop throws the `TypeError` of the first element that is not a string |
| Tags.NormalizeTags | src/main.ts:257-274 | `handleTags` as a value: the normalised frontmatter or the `TypeError`; stated by `NormalizeTagsFrame`, `ArrayTagsBecomeLeaves`, `ArrayTagWithNonStringFails`, `StringTagBecomesLeaf` and `NormalizeTagsIdempotent` |
| Tags.HandleTags | src/main.ts:257-274 | the loop builds the normalised frontmatter or fails (equals `NormalizeTags`): unchanged without `tags` or for tags that are neither a string nor an array; a string starting with `/` unchanged; the leaves of an array in order; the `TypeError` of the first array element that is not a string |
| Tags.LastSegmentIsLeaf | src/main.ts:268 | `split("/")` then the last element is a suffix without `/`, that is the whole tag or follows a `/` |
| Tags.LeafIsItsOwnLastSegment | src/main.ts:268 | a tag without `/` is its own last segment |
| Tags.NormalizeTagsFrame | src/main.ts:258-273 | normalisation fails exactly for an array of tags holding a non-string; otherwise only `tags` may change: same keys, every other value kept, and tags that are neither a string nor an array untouched |
| Tags.ArrayTagsBecomeLeaves | src/main.ts:264-271 | an array of string tags becomes an array of the same length whose elements are the leaves of the originals, in order |
| Tags.ArrayTagWithNonStringFails | src/main.ts:264-271 | an array of tags with an element that is not a string makes normalisation fail with that element's `TypeError`, the first such element deciding |
| Tags.NumericTagFails | src/main.ts:268 | `tags: [2023, a/b]` fails with `TypeError: tag.split is not a function` |
| Tags.StringTagBecomesLeaf | src/main.ts:260-263 | a string tag starting with `/` leaves the frontmatter unchanged; any other string tag becomes its leaf |
| Tags.NormalizeTagsIdempotent | src/main.ts:257-274 | normalising a frontmatter that normalisation produced changes nothing |
| Tags.StringTagAsWrittenIsLost | src/main.ts:262 | as written, the string tag `a/b/c` becomes `undefined`; the corrected rule gives `c` |
| NoteIndex.Resolve | src/main.ts:391-403 | `findNote` as a value; stated by `PublishedWins` and `FallbackToFirstVaultFile` (the class method `Exporter.FindNote` computes it) |
| NoteIndex.FirstNamedFrom | src/main.ts:392-401 | the lookup returns the first index whose basename matches, and none exactly when no file matches |
| NoteIndex.StemBeforeFirstDot | src/main.ts:397 | the stem is the prefix of the link before its first `.`, or the whole link |
| NoteIndex.Stem | src/main.ts:397 | `link.split(".")[0]`; stated by `StemBeforeFirstDot` |
| NoteIndex.PublishedWins | src/main.ts:391-395 | if a published note is named exactly like the link, the result is the first such published note, whatever other vault files are called |
| NoteIndex.FallbackToFirstVaultFile | src/main.ts:396-402 | with no exact published match: not found exactly when no vault file has the stem as basename; otherwise the first such file, unpublished exactly when its extension is `md` |
| NoteIndex.FallbackNamesHaveNoDot | src/main.ts:397 | a file found by the fallback pass has a basename without `.` |
| Images.LookupFrom | src/main.ts:345-349 | the scan stops at the first entry with the hash, or reports that no entry has it |
| Images.HandleImage | src/main.ts:341-352 | the loop returns the stored URL on a hit, and otherwise uploads and appends one entry (equals `ResolveImage`) |
| Images.LookupExtends | src/main.ts:345-352 | appending entries never changes the answer for a hash that is already registered |
| Images.ResolveImage | src/main.ts:345-352 | `handleImage` given the registry: the stored URL on a hit, else the uploaded URL appended; stated by `ResolveImageSound` |
| Images.ResolveImageSound | src/main.ts:345-352 | on a hit: the stored URL and the same registry; on a miss: the uploaded URL and the registry plus exactly one entry at the end; always the new registry extends the old, maps the hash to the URL and keeps hashes distinct |
| Images.ResolveImageIdempotent | src/main.ts:345-349 | handling the same content again is a hit: same URL, registry unchanged, the uploader not consulted |
| Images.ResolveFilesRegisters | src/main.ts:317-364 | after a run over several images the registry extends the old one and maps every image's hash to the URL returned for it |
| Images.ResolveFilesAllHits | src/main.ts:345-349 | when every hash is registered, a run returns the stored URLs and changes nothing |
| Images.SecondRunIsStable | src/main.ts:317-364 | rerunning the same images returns the same URLs and registry, whatever the uploader would answer |
| Links.StripHeading | src/main.ts:194 | `replace(/^\n*# .*\n*/, "")`; stated by `StripHeadingShape` |
| Links.StripHeadingShape | src/main.ts:194 | the heading removal removes exactly a longest prefix `\n*# .*\n*`, or nothing when the text after the leading newlines does not start with `# ` |
| Links.BracketAtSound | src/main.ts:196 | a bracket match at an index is a non-empty, `]`-free payload whose `[[...]]` text stands there |
| Links.MatchAt | src/main.ts:196 | the pattern `(!?)\[\[([^\]]+)\]\]` tried at one index; stated by `MatchAtSound` and `MatchAtIff` |
| Links.MatchAtSound | src/main.ts:196 | a match at an index is a well-formed reference whose text (with `!` for an embed) stands there |
| Links.BracketAtComplete | src/main.ts:196 | every well-formed `[[...]]` standing at an index is the bracket match there |
| Links.MatchAtIff | src/main.ts:196 | the pattern matches at an index with a reference exactly when that well-formed reference's text stands there |
| Links.Scan | src/main.ts:196-202 | `[...article.matchAll(regex)]`; stated by `ScanTiled`, `ScanIsScan` and `ScanUnique` |
| Links.ScanTiled | src/main.ts:196-202 | the scan's matches stand where it says, in order, without overlap |
| Links.NoMatchInIff | src/main.ts:202 | "no match in a range" holds exactly when the pattern matches at none of its indices |
| Links.ScanIsScan | src/main.ts:202 | for any pattern, the scan is leftmost and global: nothing matches before a match, and scanning resumes after each match |
| Links.ScanUnique | src/main.ts:202 | for any pattern, a list of matches that is leftmost and global in that sense equals the scan |
| Links.ParsePayload | src/main.ts:206-213 | `link[2].match(pattern)` with its three groups; stated by `ParsePayloadSound`, `ParsePayloadComplete` and `ParsePayloadIff` |
| Links.ParseAliasSound | src/main.ts:206 | the alias group, when taken, is a non-empty rest of the payload without line terminators |
| Links.ParsePayloadSound | src/main.ts:206-213 | a parsed payload is well formed and unparses to the original payload |
| Links.ParsePayloadComplete | src/main.ts:206-213 | every well-formed decomposition into target, optional `#anchor` and optional bar-alias is parsed back to itself |
| Links.ParsePayloadIff | src/main.ts:206-213 | the payload parses to a decomposition exactly when that decomposition is well formed and spells the payload |
| Links.EmptyAliasIsInvalid | src/main.ts:206-219 | a payload that ends in a bar with nothing after it (an empty alias) does not fit the grammar |
| Links.ParseAll | src/main.ts:213-219 | parsing all payloads yields one payload per reference |
| Links.ParseAllOk | src/main.ts:213-219 | all payloads parse exactly when each fits the grammar, and then they are those parses, in order |
| Links.ParseAllFirstInvalid | src/main.ts:213-219 | otherwise the error is `Invalid link ` plus the text of the first reference that does not fit |
| Links.PublishedLink | src/main.ts:231-233 | the link to a published note; its variants are stated by `PublishedReference` and `PublishedReferenceAt` |
| Links.ImageLink | src/main.ts:239 | the Markdown image `![image](url)`; used by `AttachmentReferenceAt` |
| Links.RewriteOne | src/main.ts:221-241 | one reference's replacement and the registry after it; stated per variant by `PublishedReferenceAt`, `UnresolvedReferenceAt` and `AttachmentReferenceAt` |
| Links.ResolveAll | src/main.ts:205-242 | one replacement is produced per reference; what replacement `k` is, `ResolveAllAt` states |
| Links.ResolveAllAt | src/main.ts:205-242 | in any list of references, replacement `k` is `RewriteOne` of reference `k` under the registry the earlier references left, and the registry it leaves is the one reference `k + 1` sees |
| Links.PublishedReferenceAt | src/main.ts:227-233 | reference `k` to a published note, the first named exactly by its target, becomes the link to that post and leaves the registry alone |
| Links.UnresolvedReferenceAt | src/main.ts:221-236 | reference `k` to an unpublished note or to nothing becomes its bare payload and leaves the registry alone, whatever the registry |
| Links.AttachmentReferenceAt | src/main.ts:237-239 | reference `k` to an attachment becomes `![image](url)`: the URL registered for its hash by the earlier references or the given registry, unchanged; else the uploaded URL, appended |
| Links.ResolveAllInEmptyVault | src/main.ts:221-225 | with no file in the vault, every reference becomes its payload and no image is registered |
| Links.ResolveAllGrowsRegistry | src/main.ts:237-239 | along the references the registry only grows and keeps hashes distinct |
| Links.SpliceIdentity | src/main.ts:244-246 | putting each reference's own text back at its position gives back the article |
| Links.RewriteLinks | src/main.ts:193-249 | `handleLinks` with positional substitution; stated by `RewriteLinksOutcome` and `RewriteLinksEach` |
| Links.RewriteLinksOutcome | src/main.ts:193-249 | the rewrite fails exactly when some payload is outside the grammar, with the first such reference's error; on success the registry extends the one given and keeps hashes distinct |
| Links.RewriteLinksEach | src/main.ts:193-249 | a successful rewrite of any article is the stripped body with each scanned reference replaced at its own position by `RewriteOne` of its resolution, under the registry the earlier references left; every payload parsed |
| Links.ScanSingle | src/main.ts:196-202 | an article with one reference and no other `[`, `!` before it or `[` after it scans to exactly that reference |
| Links.NoHeadingBeforeSingle | src/main.ts:194 | such an article has no heading to strip |
| Links.SpliceSingle | src/main.ts:244-246 | splicing one reference keeps the text on both sides |
| Links.RewriteSingleInvalid | src/main.ts:213-219 | an article whose one reference has a payload outside the grammar fails with `Invalid link ` and the reference's text |
| Links.RewriteSingle | src/main.ts:193-249 | an article with one valid reference is rewritten to the text before it, the replacement for its resolution, and the text after it |
| Links.PublishedReference | src/main.ts:227-233 | a reference to a published note (the first exact basename match) becomes `[alias, else title#anchor, else title](/post/plink[#anchor])` and leaves the registry alone |
| Links.UnresolvedReference | src/main.ts:221-236 | a reference that resolves to an unpublished note or to nothing becomes its bare payload, brackets and `!` dropped |
| Links.AttachmentReference | src/main.ts:237-239 | a reference to an attachment, embedded or not, becomes `![image](url)`: the stored URL and the same registry on a hash hit; the uploaded URL and one appended entry on a miss |
| Links.ReplaceInOrder | src/main.ts:244-246 | the substitution loop as written as a value: each matched text's first occurrence replaced in turn; stated by `ReplaceEach` and `ReplaceInOrderMisplaces` |
| Links.RewriteLinksAsWritten | src/main.ts:193-249 | `handleLinks` as written, with the first-occurrence loop; stated by `ReplaceInOrderMisplaces` |
| Links.ReplaceEach | src/main.ts:244-246 | the substitution loop as written replaces each matched text's first occurrence, in order (equals `ReplaceInOrder`) |
| Links.ReplaceInOrderMisplaces | src/main.ts:244-246 | for `[[x[[B]]]] [[B]]` in an empty vault, the loop as written yields `xB [[B]]`; the positional rewrite yields `x[[B]] B` |
| Plugin.ValidPosts | src/main.ts:285-300 | the posts `getValidNotes` collects; stated by `ValidPostsSelect` |
| Plugin.ValidPostsSelect | src/main.ts:285-300 | every selected post is a Markdown vault file whose parsed frontmatter is published, with the article after the second `---`; every such file is selected |
| Plugin.HandledPost | src/main.ts:181-185 | `handlings` as a value; stated by `HandledPostOutcome` and `HandlingKeepsPublication` |
| Plugin.HandledPostOutcome | src/main.ts:181-185 | handling succeeds exactly when every scanned payload fits the grammar and `tags` is not an array holding a non-string; the first invalid reference's `Invalid link ` error comes first, then the first non-string tag's `TypeError`; on success the file is kept, only `tags` may change, and the article and registry are the positional rewrite of the scanned references |
| Plugin.UploadRequest | src/main.ts:150-158 | the key and body of the `PutObjectCommand`; stated by `HandlingKeepsPublication` |
| Plugin.HandlingKeepsPublication | src/main.ts:150-158 | handling a post keeps its file and upload key; with a faithful YAML round trip the uploaded body reads back as published and holds the rewritten article |
| Plugin.Exporter.constructor | src/main.ts:126 | the exporter starts with the vault's files and no published notes |
| Plugin.Exporter.FindNote | src/main.ts:391-403 | the two early-return loops compute `Resolve` over `postFiles` and `allFiles` |
| Plugin.Exporter.GetValidNotes | src/main.ts:285-300 | the loop returns the published notes in vault order and sets `postFiles` to their files |
| Plugin.Exporter.HandleLinks | src/main.ts:193-249 | strip, scan, parse, resolve and substitute compute `RewriteLinks` over the exporter's files |
| Plugin.Exporter.StdLink | src/main.ts:221-241 | one reference's replacement, resolved by `FindNote` and `HandleImage`, equals `RewriteOne` |
| Plugin.Exporter.ResolveLinks | src/main.ts:205-242 | the loop over the references threads the registry and computes `ResolveAll` |
| Plugin.Exporter.Handlings | src/main.ts:181-185 | the links are rewritten and then the tags normalised (equals `HandledPost`): the link error, else the tags' `TypeError`, else the handled post |
| Plugin.ParseLinks | src/main.ts:213-219 | the loop over the payloads stops at the first invalid one and computes `ParseAll` |
| Plugin.Substitute | src/main.ts:244-246 | the loop replaces each reference at its own position, left to right (equals `Splice`) |

## Left out

- Plugin lifecycle, ribbon icon, commands, settings tab, `console.log` and every `Notice`. These are host UI.
- `process` (`src/main.ts:115-144`) is not modelled. It creates the S3 client, fans out with `Promise.all` and destroys the client. Its per-post steps are `Exporter.Handlings` and `UploadRequest`.
- S3 I/O is left out: `GetObjectCommand` and `PutObjectCommand`, the HTTP status checks and their errors.
  - The registry fetched from `images.json` is a parameter; a missing object is an empty registry.
  - JSON parsing of the registry and its write-back are not modelled.
  - `UploadRequest` builds only the key and the body; bucket and content type are omitted.
- These are function parameters: `uploadEasyImage` (an HTTP POST), `hashArrayBuffer` (SHA-256), `YAML.parse`/`YAML.stringify`, and `cachedRead`/`readBinary`.
  - The uploader always returns a URL. The error `uploadEasyImage` throws when the POST fails ("Error while uploading image", `src/main.ts:379-384`) is not modelled. That error aborts `handleImage`, then `handleLinks`, then the run. A response without `url` is not modelled either: in the source `response.data.url` is then `undefined`, which `handleImage` stores and returns, so the reference becomes `![image](undefined)`; the model's URLs are always strings.
  - YAML parse exceptions are not modelled.
  - A parse result that is not an object is `None`.
- A linked note's `plink` and `title` come from a parameter. The source rereads that note and parses its frontmatter (`src/main.ts:229-230`).
- `Promise.all` is modelled as a sequential run:
  - The references are handled in order, and all payloads are checked before any reference is resolved. This matches the order in which the source's callbacks run up to their first `await`.
  - After an invalid payload the source's other callbacks may still upload images. The model returns the error and uploads nothing.
  - Each `handleImage` call in the source fetches `images.json` again. Its write-back is not awaited, so concurrent calls can lose entries. The model threads one registry through the references.
  - `getValidNotes` pushes posts in the order the reads complete. The model keeps vault order.
- `String.replace` interprets `$` patterns in the replacement text (`src/main.ts:245`). `ReplaceInOrder` takes replacements literally.
- The source mutates `post.article`, `post.frontmatter` and `frontmatter.tags` in place (`src/main.ts:182-183`, `262`, `271`). The model returns new values.
- Plugin.Exporter.HandleLinks: substitutes each replacement at its own position, which the code evidently intends. The code's first-occurrence loop is modelled by `Links.ReplaceEach`; see Findings.
- Tags.HandleTags: gives a string tag its last segment, which the code evidently intends. The `undefined` the code produces is modelled by `Tags.StringTagAsWritten`; see Findings.
- Tags.SplitTypeError: the `TypeError` message is chosen by the kind of the element (`null`, `undefined`, anything else). An object element that has its own `split` method is not modelled.
- Frontmatter.PostContentRoundTrip: assumes the printed YAML contains no `---`. A value containing one cuts the frontmatter when the post is read back; `Frontmatter.MarkerInValueCutsYaml` shows this.
- Frontmatter.Render: approximates JavaScript's template-literal conversion of non-string `plink` values. An array is joined with `,`, its `null` and `undefined` elements shown empty; other objects carry their printed form as data.

## Findings

| source | as written | input that shows it | evidently intended | confidence | as-written member | corrected member |
|---|---|---|---|---|---|---|
| src/main.ts:262 | `frontmatter.tags = tags.split("/")[-1]` reads the property `"-1"` of an array, which is `undefined`, so every string tag not starting with `/` is replaced by `undefined` | `tags: a/b/c` | the last segment `c`, as for array tags (`src/main.ts:268`) | high, not executed | Tags.StringTagAsWrittenIsLost | Tags.StringTagBecomesLeaf |
| src/main.ts:244-246 | `article.replace(links[i][0], stdLinks[i])` replaces the *first* occurrence of each matched text in the partly rewritten article, which need not be the match itself | `[[x[[B]]]] [[B]]` with no matching files: the as-written loop yields `xB [[B]]` | each reference replaced where it was found: `x[[B]] B` | medium, not executed | Links.ReplaceInOrderMisplaces | Links.RewriteLinksEach |
