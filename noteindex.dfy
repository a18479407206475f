/**
 * The note index behind `findNote`: a link target is looked up first among the published
 * notes by exact basename, then among all vault files by the part of the target before its
 * first `.`.
 */
module NoteIndex {
  import opened Wrappers
  import opened Text

  /** A vault file handle: its path, its basename (file name without extension) and extension. */
  datatype TFile = TFile(path: string, basename: string, extension: string)

  /** What a link target resolves to (`{file, type: 2 | 1 | 0}` or `null` in the source). */
  datatype Resolution =
    | Published(file: TFile)    // type 2: a published note
    | Unpublished(file: TFile)  // type 1: a markdown note that is not published
    | Attachment(file: TFile)   // type 0: any other vault file
    | NotFound                  // null

  /** The first index at or after `from` of a file with basename `name`. */
  function FirstNamedFrom(files: seq<TFile>, name: string, from: nat): (r: Option<nat>)
    decreases |files| - from
    ensures r.Some? ==> from <= r.value < |files| && files[r.value].basename == name
    ensures r.Some? ==> forall j :: from <= j < r.value ==> files[j].basename != name
    ensures r.None? ==> forall j :: from <= j < |files| ==> files[j].basename != name
  {
    if from >= |files| then None
    else if files[from].basename == name then Some(from)
    else FirstNamedFrom(files, name, from + 1)
  }

  function FirstNamed(files: seq<TFile>, name: string): Option<nat> {
    FirstNamedFrom(files, name, 0)
  }

  /** `link.split(".")[0]`: the target up to its first `.`. */
  function Stem(link: string): string {
    Split(link, ".")[0]
  }

  /** The result of `findNote(link)` over the published notes `posts` and all vault files `all`. */
  function Resolve(posts: seq<TFile>, all: seq<TFile>, link: string): Resolution {
    match FirstNamed(posts, link)
    case Some(i) => Published(posts[i])
    case None =>
      match FirstNamed(all, Stem(link))
      case Some(j) => if all[j].extension == "md" then Unpublished(all[j]) else Attachment(all[j])
      case None => NotFound
  }

  /** The stem is the part of the link before its first `.`, or the whole link when it has none. */
  lemma StemBeforeFirstDot(link: string)
    ensures var st := Stem(link);
      st <= link && (forall k :: 0 <= k < |st| ==> st[k] != '.') && (st == link || link[|st|] == '.')
  {
    match IndexOf(link, ".")
    case None =>
      forall k | 0 <= k < |link| ensures link[k] != '.' {
        OccursAtChar(link, '.', k);
      }
    case Some(i) =>
      OccursAtChar(link, '.', i);
      forall k | 0 <= k < i ensures link[k] != '.' {
        OccursAtChar(link, '.', k);
      }
  }

  /**
   * A published note whose basename equals the link exactly wins, even when other vault
   * files share that basename; the first such note in `posts` is the one returned.
   */
  lemma PublishedWins(posts: seq<TFile>, all: seq<TFile>, link: string, i: nat)
    requires i < |posts| && posts[i].basename == link
    ensures var r := Resolve(posts, all, link);
      r.Published? && r.file.basename == link &&
      exists j :: 0 <= j <= i && r.file == posts[j] && forall k :: 0 <= k < j ==> posts[k].basename != link
  {
    var j := FirstNamed(posts, link).value;
    assert Resolve(posts, all, link).file == posts[j];
  }

  /**
   * Without an exactly named published note, the link resolves to the first vault file whose
   * basename is the link's stem (a markdown file is an unpublished note, anything else an
   * attachment), and to nothing exactly when no file has that basename.
   */
  lemma FallbackToFirstVaultFile(posts: seq<TFile>, all: seq<TFile>, link: string)
    requires forall k :: 0 <= k < |posts| ==> posts[k].basename != link
    ensures var r := Resolve(posts, all, link);
      && !r.Published?
      && (r.NotFound? <==> forall k :: 0 <= k < |all| ==> all[k].basename != Stem(link))
      && (!r.NotFound? ==>
            exists j :: 0 <= j < |all| && r.file == all[j] && all[j].basename == Stem(link)
              && (forall k :: 0 <= k < j ==> all[k].basename != Stem(link))
              && (r.Unpublished? <==> all[j].extension == "md"))
  {
    match FirstNamed(all, Stem(link))
    case None =>
    case Some(j) =>
      assert Resolve(posts, all, link).file == all[j];
  }

  /**
   * A file reached by the fallback pass has a basename without `.`: a vault file such as
   * `diagram.v2.png` (basename `diagram.v2`) can only be found when it is a published note.
   */
  lemma FallbackNamesHaveNoDot(posts: seq<TFile>, all: seq<TFile>, link: string)
    ensures var r := Resolve(posts, all, link);
      (r.Unpublished? || r.Attachment?) ==>
        forall k :: 0 <= k < |r.file.basename| ==> r.file.basename[k] != '.'
  {
    StemBeforeFirstDot(link);
  }
}
