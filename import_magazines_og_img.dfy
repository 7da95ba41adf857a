/**
 * The `import_magazines_og_img` management command: for every large page
 * image `L-*.jpg` under the magazine root, write an Open Graph preview
 * `OG-*.jpg` next to it, unless one is there already, and count the
 * previews written.
 *
 * The file system is a map from path to file. Pixels, resampling and JPEG
 * encoding are not modelled: a readable image is known by its size.
 */
module ImportMagazinesOgImg {
  import opened Wrappers
  import opened Text
  import opened Imaging
  import opened MagazineModels

  // ---------------------------------------------------------------------
  // posixpath: dirname, basename, join
  // ---------------------------------------------------------------------

  predicate AllSlashes(s: string) { forall k :: 0 <= k < |s| ==> s[k] == '/' }

  /** `s.rstrip("/")`. */
  function StripTrailingSlashes(s: string): (r: string)
    ensures StartsWith(s, r) && (r == [] || r[|r| - 1] != '/')
    ensures forall i :: |r| <= i < |s| ==> s[i] == '/'
    decreases |s|
  {
    if s != [] && s[|s| - 1] == '/' then StripTrailingSlashes(s[..|s| - 1]) else s
  }

  /** `os.path.dirname(p)`: up to the last `/`, trailing slashes dropped unless that is all there is. */
  function Dirname(p: string): string {
    match LastIndexOf(p, '/')
    case None => ""
    case Some(i) =>
      var head := p[..i + 1];
      if AllSlashes(head) then head else StripTrailingSlashes(head)
  }

  /** `os.path.basename(p)`: what follows the last `/`. */
  function Basename(p: string): (r: string)
    ensures '/' !in r
  {
    match LastIndexOf(p, '/')
    case None => p
    case Some(i) => p[i + 1..]
  }

  /** `os.path.join(a, b)`: an absolute `b` replaces `a`; otherwise one `/` goes between them if needed. */
  function PathJoin(a: string, b: string): string {
    if StartsWith(b, "/") then b
    else if a == [] || a[|a| - 1] == '/' then a + b
    else a + "/" + b
  }

  /** The preview path for a large image: same directory, the first `L-` of its name made `OG-`. */
  function OgPath(largePath: string): string {
    PathJoin(Dirname(largePath), ReplaceFirst(Basename(largePath), "L-", "OG-"))
  }

  lemma StripOneSlash(dir: string)
    requires dir != [] && dir[|dir| - 1] != '/'
    ensures StripTrailingSlashes(dir + "/") == dir
  {
    assert (dir + "/")[..|dir|] == dir;
  }

  lemma NoSlashInLargeName(rest: string)
    requires '/' !in rest
    ensures '/' !in "L-" + rest
  {
    var name := "L-" + rest;
    forall k | 0 <= k < |name| ensures name[k] != '/' {
      if k >= 2 {
        assert name[k] == rest[k - 2];
      }
    }
  }

  lemma LastSlashBeforeName(dir: string, name: string)
    requires '/' !in name
    ensures LastIndexOf(dir + "/" + name, '/') == Some(|dir|)
  {
    assert dir + "/" + name == dir + ['/'] + name;
    LastIndexOfAppend(dir, '/', name);
  }

  lemma DirnameOfFile(dir: string, name: string)
    requires dir != [] && dir[|dir| - 1] != '/'
    requires '/' !in name
    ensures Dirname(dir + "/" + name) == dir
  {
    var p := dir + "/" + name;
    LastSlashBeforeName(dir, name);
    assert p[..|dir| + 1] == dir + "/";
    assert (dir + "/")[|dir| - 1] != '/';
    StripOneSlash(dir);
  }

  lemma BasenameOfFile(dir: string, name: string)
    requires '/' !in name
    ensures Basename(dir + "/" + name) == name
  {
    LastSlashBeforeName(dir, name);
    assert (dir + "/" + name)[|dir| + 1..] == name;
  }

  lemma OgNameOf(rest: string)
    ensures ReplaceFirst("L-" + rest, "L-", "OG-") == "OG-" + rest
  {
    var name := "L-" + rest;
    assert StartsWith(name, "L-");
    assert name[2..] == rest;
  }

  /**
   * A file `L-<rest>` in directory `dir` maps to `OG-<rest>` in the same
   * directory; the directory as glob yields it never ends in `/`.
   */
  lemma OgPathSameDirectory(dir: string, rest: string)
    requires dir != [] && dir[|dir| - 1] != '/'
    requires '/' !in rest
    ensures OgPath(dir + "/" + "L-" + rest) == dir + "/" + "OG-" + rest
  {
    var name := "L-" + rest;
    assert dir + "/" + "L-" + rest == dir + "/" + name;
    NoSlashInLargeName(rest);
    DirnameOfFile(dir, name);
    BasenameOfFile(dir, name);
    OgNameOf(rest);
    assert !StartsWith("OG-" + rest, "/");
    assert PathJoin(dir, "OG-" + rest) == dir + "/" + ("OG-" + rest);
    assert dir + "/" + ("OG-" + rest) == dir + "/" + "OG-" + rest;
  }

  /**
   * The preview of a page's large image is the file `get_filename` names
   * with the `OG` prefix, for the same issue, page and guid.
   */
  lemma OgPathOfOriginal(root: string, pk: nat, page: nat, guid: string)
    ensures OgPath(root + "/" + GetFilename(pk, page, guid, "L")) == root + "/" + GetFilename(pk, page, guid, "OG")
  {
    var digits := NatToString(pk);
    var padded := PadLeft(NatToString(page), 2, '0');
    var dir := root + "/" + digits;
    RegroupPath(root, digits, "L", "L-", padded);
    RegroupPath(root, digits, "OG", "OG-", padded);
    IssueDirectoryEndsInDigit(root, pk);
    NoSlashInPaddedJpg(page);
    OgPathSameDirectory(dir, padded + ".jpg");
  }

  lemma IssueDirectoryEndsInDigit(root: string, pk: nat)
    ensures var dir := root + "/" + NatToString(pk); dir != [] && dir[|dir| - 1] != '/'
  {
    var digits := NatToString(pk);
    assert (root + "/" + digits)[|root + "/" + digits| - 1] == digits[|digits| - 1];
    assert IsDigit(digits[|digits| - 1]);
  }

  /** `<root>/<get_filename>` read as a directory, a `<prefix>-` and the rest of the name. */
  lemma RegroupPath(root: string, digits: string, prefix: string, prefixDash: string, padded: string)
    requires prefixDash == prefix + "-"
    ensures root + "/" + (digits + "/" + prefix + "-" + padded + ".jpg") == root + "/" + digits + "/" + prefixDash + (padded + ".jpg")
  {
  }

  lemma NoSlashInPaddedJpg(page: nat)
    ensures '/' !in PadLeft(NatToString(page), 2, '0') + ".jpg"
  {
    NoSlashInPadded(NatToString(page));
    assert '/' !in ".jpg";
  }

  lemma NoSlashInPadded(digits: string)
    requires AllDigits(digits)
    ensures '/' !in PadLeft(digits, 2, '0')
  {
    var padded := PadLeft(digits, 2, '0');
    var lead := |padded| - |digits|;
    forall k | 0 <= k < |padded| ensures padded[k] != '/' {
      if k >= lead {
        assert padded[k] == padded[lead..][k - lead];
        assert IsDigit(digits[k - lead]);
      }
    }
  }

  // ---------------------------------------------------------------------
  // The files and one pass of the loop
  // ---------------------------------------------------------------------

  /** The Open Graph recommended size the previews are cut to. */
  const TargetWidth: nat := 1300
  const TargetHeight: nat := 630

  /** A file on disk: a JPEG Pillow can open, known by its size, or anything else. */
  datatype StoredFile = Jpeg(size: Dimensions) | Unreadable

  /** What happened to one large image. */
  datatype Outcome = Skipped | Failed | Generated

  /**
   * The height the image is resized to at width 1300, keeping its aspect:
   * `int(h * (1300 / w))`, computed here exactly and rounded down.
   */
  function ResizedHeight(size: Dimensions): nat {
    size.height * TargetWidth / size.width
  }

  /**
   * One large image: skipped when its preview exists; failed when it is
   * missing, cannot be opened, or resizes to height 0 (Pillow rejects an
   * empty size); otherwise generated.
   */
  function OutcomeOf(files: map<string, StoredFile>, largePath: string): Outcome {
    if OgPath(largePath) in files then Skipped
    else if largePath !in files || files[largePath].Unreadable? then Failed
    else if ResizedHeight(files[largePath].size) == 0 then Failed
    else Generated
  }

  /**
   * The preview: the image resized to width 1300 and cropped to the box
   * (0, 0, 1300, 630) from the top; a crop box larger than the image is
   * filled, so the result is always 1300x630.
   */
  const Preview: StoredFile := Jpeg(Size(TargetWidth, TargetHeight))

  /** The files, and the two counters, as the loop goes. */
  datatype Tally = Tally(files: map<string, StoredFile>, generated: nat, failed: nat)

  function Visit(t: Tally, largePath: string): Tally {
    match OutcomeOf(t.files, largePath)
    case Skipped => t
    case Failed => t.(failed := t.failed + 1)
    case Generated => Tally(t.files[OgPath(largePath) := Preview], t.generated + 1, t.failed)
  }

  /** The loop over the glob's list, from tally `t`. */
  function RunFrom(t: Tally, sources: seq<string>): Tally
    decreases |sources|
  {
    if sources == [] then t
    else Visit(RunFrom(t, sources[..|sources| - 1]), sources[|sources| - 1])
  }

  function RunAll(files: map<string, StoredFile>, sources: seq<string>): Tally {
    RunFrom(Tally(files, 0, 0), sources)
  }

  // ---------------------------------------------------------------------
  // What the loop promises
  // ---------------------------------------------------------------------

  /**
   * A failure does not end the loop: the run over `a + b` is the run over
   * `b` continued from wherever the run over `a` left off.
   */
  lemma {:induction false} RunFromAppend(t: Tally, a: seq<string>, b: seq<string>)
    ensures RunFrom(t, a + b) == RunFrom(RunFrom(t, a), b)
    decreases |b|
  {
    if b == [] {
      assert a + b == a;
    } else {
      assert (a + b)[..|a + b| - 1] == a + b[..|b| - 1];
      RunFromAppend(t, a, b[..|b| - 1]);
    }
  }

  /** No file that existed is changed: an existing preview is skipped, never overwritten. */
  lemma {:induction false} ExistingFilesKept(t: Tally, sources: seq<string>, p: string)
    requires p in t.files
    ensures p in RunFrom(t, sources).files && RunFrom(t, sources).files[p] == t.files[p]
    decreases |sources|
  {
    if sources != [] {
      ExistingFilesKept(t, sources[..|sources| - 1], p);
    }
  }

  /** Every file the run adds is the 1300x630 preview of one of the large images. */
  lemma {:induction false} NewFilesArePreviews(t: Tally, sources: seq<string>, p: string)
    requires p in RunFrom(t, sources).files && p !in t.files
    ensures RunFrom(t, sources).files[p] == Preview
    ensures exists i :: 0 <= i < |sources| && OgPath(sources[i]) == p
    decreases |sources|
  {
    var init := sources[..|sources| - 1];
    var last := sources[|sources| - 1];
    if p in RunFrom(t, init).files {
      NewFilesArePreviews(t, init, p);
      var i :| 0 <= i < |init| && OgPath(init[i]) == p;
      assert sources[i] == init[i];
    } else {
      assert OgPath(sources[|sources| - 1]) == p;
    }
  }

  /** The count is exactly the number of files the run adds; the counters never exceed the list. */
  lemma {:induction false} CountIsNewFiles(t: Tally, sources: seq<string>)
    ensures t.files.Keys <= RunFrom(t, sources).files.Keys
    ensures RunFrom(t, sources).generated - t.generated == |RunFrom(t, sources).files.Keys| - |t.files.Keys|
    ensures RunFrom(t, sources).generated + RunFrom(t, sources).failed <= t.generated + t.failed + |sources|
    ensures RunFrom(t, sources).generated >= t.generated && RunFrom(t, sources).failed >= t.failed
    decreases |sources|
  {
    if sources != [] {
      var init := sources[..|sources| - 1];
      var last := sources[|sources| - 1];
      CountIsNewFiles(t, init);
      var before := RunFrom(t, init);
      if OutcomeOf(before.files, last) == Generated {
        var q := OgPath(last);
        assert before.files[q := Preview].Keys == before.files.Keys + {q};
      }
    }
  }

  /** One visit keeps every file and either leaves the preview in place or counts a failure. */
  lemma VisitFacts(t: Tally, largePath: string)
    ensures t.files.Keys <= Visit(t, largePath).files.Keys
    ensures Visit(t, largePath).failed >= t.failed
    ensures OgPath(largePath) in Visit(t, largePath).files || Visit(t, largePath).failed > t.failed
  {
  }

  /** After the run, every large image that did not fail has its preview. */
  lemma {:induction false} PreviewsPresent(t: Tally, sources: seq<string>, i: nat)
    requires i < |sources|
    ensures OgPath(sources[i]) in RunFrom(t, sources).files || RunFrom(t, sources).failed > t.failed
    decreases |sources|
  {
    var init := sources[..|sources| - 1];
    var last := sources[|sources| - 1];
    var before := RunFrom(t, init);
    assert RunFrom(t, sources) == Visit(before, last);
    VisitFacts(before, last);
    CountIsNewFiles(t, init);
    if i < |init| {
      PreviewsPresent(t, init, i);
      assert sources[i] == init[i];
    } else {
      assert i == |sources| - 1;
    }
  }

  /** A run over files that already hold every preview changes nothing and counts nothing. */
  lemma {:induction false} AllPresentRunsIdle(t: Tally, sources: seq<string>)
    requires forall i :: 0 <= i < |sources| ==> OgPath(sources[i]) in t.files
    ensures RunFrom(t, sources) == t
    decreases |sources|
  {
    if sources != [] {
      AllPresentRunsIdle(t, sources[..|sources| - 1]);
    }
  }

  /** Re-running after a run with no failure generates nothing and leaves the files as they are. */
  lemma RerunAfterSuccessIsIdle(files: map<string, StoredFile>, sources: seq<string>)
    requires RunAll(files, sources).failed == 0
    ensures RunAll(RunAll(files, sources).files, sources) == Tally(RunAll(files, sources).files, 0, 0)
  {
    var r := RunAll(files, sources);
    forall i | 0 <= i < |sources| ensures OgPath(sources[i]) in r.files {
      PreviewsPresent(Tally(files, 0, 0), sources, i);
    }
    AllPresentRunsIdle(Tally(r.files, 0, 0), sources);
  }

  // ---------------------------------------------------------------------
  // The command
  // ---------------------------------------------------------------------

  /** The media directory the command reads and writes. */
  class MediaFiles {
    var files: map<string, StoredFile>

    constructor (files: map<string, StoredFile>)
      ensures this.files == files
    {
      this.files := files;
    }
  }

  /**
   * One pass of the loop in `handle`: the preview path, the skip when it
   * exists, and otherwise opening, resizing, cropping and saving, any error
   * of which is reported and counted as a failure.
   */
  method ImportOne(media: MediaFiles, largePath: string) returns (outcome: Outcome)
    modifies media
    ensures outcome == OutcomeOf(old(media.files), largePath)
    ensures media.files == if outcome == Generated then old(media.files)[OgPath(largePath) := Preview] else old(media.files)
  {
    var directory := Dirname(largePath);
    var filename := Basename(largePath);
    var ogPath := PathJoin(directory, ReplaceFirst(filename, "L-", "OG-"));
    if ogPath in media.files {
      return Skipped;
    }
    if largePath !in media.files || media.files[largePath].Unreadable? {
      return Failed;
    }
    var size := media.files[largePath].size;
    var hSize := size.height * TargetWidth / size.width;
    if hSize == 0 {
      return Failed;
    }
    media.files := media.files[ogPath := Preview];
    return Generated;
  }

  /**
   * `handle`, given the list of large images `glob` finds one directory
   * below the root: each large image is skipped, fails (reported, and the
   * loop goes on) or gets its preview; returns the number of previews
   * written.
   */
  method Handle(media: MediaFiles, sources: seq<string>) returns (count: nat)
    modifies media
    ensures media.files == RunAll(old(media.files), sources).files
    ensures count == RunAll(old(media.files), sources).generated
  {
    count := 0;
    ghost var failed: nat := 0;
    var i := 0;
    while i < |sources|
      invariant 0 <= i <= |sources|
      invariant Tally(media.files, count, failed) == RunAll(old(media.files), sources[..i])
    {
      ghost var before := Tally(media.files, count, failed);
      assert sources[..i + 1][..i] == sources[..i];
      assert RunAll(old(media.files), sources[..i + 1]) == Visit(before, sources[i]);
      var outcome := ImportOne(media, sources[i]);
      if outcome == Generated {
        count := count + 1;
      } else if outcome == Failed {
        failed := failed + 1;
      }
      assert Tally(media.files, count, failed) == Visit(before, sources[i]);
      i := i + 1;
    }
    assert sources[..|sources|] == sources;
  }
}
