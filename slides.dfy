/**
 * The handlers that look at the uploads folder and the bucket listing: the
 * slide list (one record per accepted file), the upload check, the bucket
 * file list and slide deletion.
 */
module Slides {
  import opened Wrappers
  import opened Text
  import opened Paths
  import opened Extensions

  /** One entry of a directory listing. */
  datatype DirEntry = DirEntry(name: string, isFile: bool)

  /** One record of the slide list (the file size is not modelled). */
  datatype SlideInfo = SlideInfo(name: string, filename: string, converted: bool, viewable: bool)

  /** The reply of a successful upload. */
  datatype UploadReply = UploadReply(filename: string, name: string)

  /** One record of the bucket file list (size and update time are not modelled). */
  datatype BucketFile = BucketFile(name: string, path: string)

  /** A directory entry the slide list reports. */
  predicate IsSlideFile(e: DirEntry)
  {
    e.isFile && AllowedFile(e.name)
  }

  /** The record reported for a file; `converted`/`viewable` name the converter's slides. */
  function Info(e: DirEntry, converted: set<string>, viewable: set<string>): SlideInfo
  {
    var stem := PathStem(e.name);
    SlideInfo(stem, e.name, stem in converted, stem in viewable)
  }

  /** The slide list of a directory listing, in listing order. */
  function Listing(entries: seq<DirEntry>, converted: set<string>, viewable: set<string>): (s: seq<SlideInfo>)
    ensures |s| <= |entries|
  {
    if entries == [] then []
    else
      var last := entries[|entries| - 1];
      Listing(entries[..|entries| - 1], converted, viewable)
        + (if IsSlideFile(last) then [Info(last, converted, viewable)] else [])
  }

  /**
   * `list_slides`: no folder gives an empty list; otherwise every entry
   * that is a file with an accepted name is reported, in listing order.
   */
  method ListSlides(folder: Option<seq<DirEntry>>, converted: set<string>, viewable: set<string>)
    returns (slides: seq<SlideInfo>)
    ensures folder.None? ==> slides == []
    ensures folder.Some? ==> slides == Listing(folder.value, converted, viewable)
  {
    slides := [];
    if folder.None? {
      return;
    }
    var entries := folder.value;
    var i := 0;
    while i < |entries|
      invariant 0 <= i <= |entries|
      invariant slides == Listing(entries[..i], converted, viewable)
    {
      var e := entries[i];
      assert entries[..i + 1][..i] == entries[..i];
      if e.isFile && AllowedFile(e.name) {
        var stem := PathStem(e.name);
        slides := slides + [SlideInfo(stem, e.name, stem in converted, stem in viewable)];
      }
      i := i + 1;
    }
    assert entries[..i] == entries;
  }

  /** An accepted name is never ".", so its stem and suffix give it back. */
  lemma AllowedNameSplits(f: string)
    requires AllowedFile(f)
    ensures PathStem(f) + PathSuffix(f) == f
  {
    assert LastIndexOf(".", '.') == Some(0);
    assert Lower(""[..]) == "";
    StemAndSuffix(f);
  }

  /**
   * Every reported slide comes from a file entry with an accepted name; its
   * `name` is that name without its suffix, and its flags are the converter's.
   */
  lemma {:induction false} ListingSound(entries: seq<DirEntry>, converted: set<string>, viewable: set<string>, s: SlideInfo)
    requires s in Listing(entries, converted, viewable)
    ensures DirEntry(s.filename, true) in entries && AllowedFile(s.filename)
    ensures s == Info(DirEntry(s.filename, true), converted, viewable)
    ensures s.name == PathStem(s.filename) && s.name + PathSuffix(s.filename) == s.filename
    ensures s.converted == (s.name in converted) && s.viewable == (s.name in viewable)
  {
    var init, last := entries[..|entries| - 1], entries[|entries| - 1];
    if s in Listing(init, converted, viewable) {
      ListingSound(init, converted, viewable, s);
      assert DirEntry(s.filename, true) in entries by {
        assert forall e :: e in init ==> e in entries;
      }
    } else {
      assert s == Info(last, converted, viewable) && IsSlideFile(last);
      assert last == DirEntry(s.filename, true);
      AllowedNameSplits(s.filename);
    }
  }

  /** Every file entry with an accepted name is reported. */
  lemma {:induction false} ListingComplete(entries: seq<DirEntry>, converted: set<string>, viewable: set<string>, e: DirEntry)
    requires e in entries && IsSlideFile(e)
    ensures Info(e, converted, viewable) in Listing(entries, converted, viewable)
  {
    var init, last := entries[..|entries| - 1], entries[|entries| - 1];
    if e == last {
    } else {
      assert e in init by {
        var k :| 0 <= k < |entries| && entries[k] == e;
        assert k < |entries| - 1 && init[k] == e;
      }
      ListingComplete(init, converted, viewable, e);
    }
  }

  /**
   * An accepted name without a suffix by pathlib's rule is a hidden file
   * whose only dot is its first character, such as ".svs".
   */
  lemma AllowedWithoutSuffixIsHidden(f: string)
    requires AllowedFile(f)
    ensures PathSuffix(f) == "" <==> LastIndexOf(f, '.') == Some(0)
  {
    var i := LastIndexOf(f, '.').value;
    assert Lower(f[i + 1..]) != "";
    assert f != "." && PathName(f) == f;
  }

  /**
   * A reported slide's own file is matched by `{name}.*`, read literally,
   * exactly when it is not a hidden suffix-only name; ".svs" is listed
   * under the name ".svs" and its file is then never matched. `glob` reads
   * the pattern literally only when the name holds no `*`, `?` or `[`.
   */
  lemma ListedSlideFindable(entries: seq<DirEntry>, converted: set<string>, viewable: set<string>, s: SlideInfo)
    requires s in Listing(entries, converted, viewable)
    ensures GlobMatch(s.name, s.filename) <==> LastIndexOf(s.filename, '.') != Some(0)
  {
    ListingSound(entries, converted, viewable, s);
    var f := s.filename;
    AllowedWithoutSuffixIsHidden(f);
    if PathSuffix(f) != "" {
      SuffixIsLastExtension(f);
      var ext := PathSuffix(f)[1..];
      assert f == s.name + "." + ext;
      assert f[..|s.name + "."|] == s.name + ".";
    } else {
      assert s.name == f;
    }
  }

  lemma HiddenSvsListedButNotFound()
    ensures Listing([DirEntry(".svs", true)], {}, {}) == [SlideInfo(".svs", ".svs", false, false)]
    ensures !GlobMatch(".svs", ".svs")
  {
    var e := DirEntry(".svs", true);
    LastIndexOfIs(".svs", '.', 0);
    var ext := ".svs"[1..];
    assert ext == "svs";
    assert forall k :: 0 <= k < |ext| ==> Lower(ext)[k] == ext[k];
    assert Lower(ext) == "svs";
    assert PathStem(".svs") == ".svs";
    assert [e][..0] == [];
  }

  /**
   * The upload check: a missing or empty file name is 400 "No file selected",
   * a name the extension gate refuses is 400 "File type not supported",
   * and an accepted one is reported with the stem of its last component.
   */
  function CheckUpload(filename: Option<string>): (r: Result<UploadReply, HttpError>)
    ensures r.Ok? <==> filename.Some? && filename.value != "" && AllowedFile(filename.value)
    ensures (filename.None? || filename.value == "") ==> r == Err(HttpError(400, "No file selected"))
    ensures filename.Some? && filename.value != "" && !AllowedFile(filename.value) ==>
      r == Err(HttpError(400, "File type not supported"))
    ensures r.Ok? ==> r.value.filename == filename.value && r.value.name == PathStem(FileName(filename.value))
  {
    if filename.None? || filename.value == "" then Err(HttpError(400, "No file selected"))
    else if !AllowedFile(filename.value) then Err(HttpError(400, "File type not supported"))
    else Ok(UploadReply(filename.value, PathStem(FileName(filename.value))))
  }

  /**
   * The extension gate reads the same extension from a bucket path and from
   * its last component: a dot before the last '/' leaves a '/' in the
   * extension, and no listed extension holds one.
   */
  lemma AllowedPathIffAllowedName(p: string)
    ensures AllowedFile(p) <==> AllowedFile(FileName(p))
  {
    var r := LastIndexOf(p, '/');
    if r.Some? {
      var j := r.value;
      assert FileName(p) == p[j + 1..];
      var d := LastIndexOf(p, '.');
      if d.None? {
        NoDotInLastComponent(p, j);
      } else if d.value > j {
        DotInLastComponent(p, j, d.value);
      } else {
        DotBeforeLastSlash(p, j, d.value);
      }
    }
  }

  lemma NoDotInLastComponent(p: string, j: nat)
    requires j < |p| && LastIndexOf(p, '.') == None
    ensures !AllowedFile(p) && !AllowedFile(p[j + 1..])
  {
    var f := p[j + 1..];
    assert forall k :: 0 <= k < |f| ==> f[k] == p[j + 1 + k];
    assert LastIndexOf(f, '.') == None;
  }

  lemma DotInLastComponent(p: string, j: nat, i: nat)
    requires LastIndexOf(p, '.') == Some(i) && j < i
    ensures AllowedFile(p) <==> AllowedFile(p[j + 1..])
  {
    LastDotInLastComponent(p, j, i);
    var ext := p[i + 1..];
    AllowedFileAt(p, i, ext);
    AllowedFileAt(p[j + 1..], i - j - 1, ext);
  }

  lemma AllowedFileAt(s: string, i: nat, ext: string)
    requires LastIndexOf(s, '.') == Some(i) && s[i + 1..] == ext
    ensures AllowedFile(s) == (Lower(ext) in AllowedExtensions)
  {
  }

  lemma LastDotInLastComponent(p: string, j: nat, i: nat)
    requires LastIndexOf(p, '.') == Some(i) && j < i
    ensures LastIndexOf(p[j + 1..], '.') == Some(i - j - 1)
    ensures p[j + 1..][i - j..] == p[i + 1..]
  {
    var f := p[j + 1..];
    assert f[i - j - 1] == p[i];
    assert forall k :: i - j - 1 < k < |f| ==> f[k] == p[j + 1 + k];
    LastIndexOfIs(f, '.', i - j - 1);
  }

  lemma DotBeforeLastSlash(p: string, j: nat, i: nat)
    requires LastIndexOf(p, '/') == Some(j) && LastIndexOf(p, '.') == Some(i) && i <= j
    ensures !AllowedFile(p) && !AllowedFile(p[j + 1..])
  {
    assert i != j;
    SlashInExtension(p, i, j);
    NoDotAfter(p, i, j);
  }

  /** A '/' after the last dot puts a '/' into the extension, which the gate refuses. */
  lemma SlashInExtension(p: string, i: nat, j: nat)
    requires LastIndexOf(p, '.') == Some(i) && i < j < |p| && p[j] == '/'
    ensures !AllowedFile(p)
  {
    var ext := p[i + 1..];
    assert ext[j - i - 1] == '/';
    assert Lower(ext)[j - i - 1] == '/';
    SlashNotAllowed(Lower(ext), j - i - 1);
    AllowedFileAt(p, i, ext);
  }

  /** The text after a position beyond the last dot holds no dot, so the gate refuses it. */
  lemma NoDotAfter(p: string, i: nat, j: nat)
    requires LastIndexOf(p, '.') == Some(i) && i < j < |p|
    ensures !AllowedFile(p[j + 1..])
  {
    var f := p[j + 1..];
    forall k | 0 <= k < |f| ensures f[k] != '.' {
      assert f[k] == p[j + 1 + k];
    }
    NoDotRefused(f);
  }

  lemma NoDotRefused(f: string)
    requires forall k :: 0 <= k < |f| ==> f[k] != '.'
    ensures !AllowedFile(f)
  {
    assert LastIndexOf(f, '.').None?;
  }

  lemma SlashNotAllowed(x: string, k: nat)
    requires k < |x| && x[k] == '/'
    ensures x !in AllowedExtensions
  {
    forall y | y in AllowedExtensions ensures forall m :: 0 <= m < |y| ==> y[m] != '/' {
    }
  }

  /** The bucket file list of a sequence of object names, in listing order. */
  function BucketListing(paths: seq<string>): (s: seq<BucketFile>)
    ensures |s| <= |paths|
  {
    if paths == [] then []
    else
      var last := paths[|paths| - 1];
      BucketListing(paths[..|paths| - 1])
        + (if AllowedFile(last) then [BucketFile(FileName(last), last)] else [])
  }

  /**
   * `list_gcs_files`: every object whose name passes the extension check
   * is reported with its last path component as its display name.
   */
  method ListBucketFiles(paths: seq<string>) returns (files: seq<BucketFile>)
    ensures files == BucketListing(paths)
  {
    files := [];
    var i := 0;
    while i < |paths|
      invariant 0 <= i <= |paths|
      invariant files == BucketListing(paths[..i])
    {
      var path := paths[i];
      assert paths[..i + 1][..i] == paths[..i];
      if AllowedFile(path) {
        files := files + [BucketFile(FileName(path), path)];
      }
      i := i + 1;
    }
    assert paths[..i] == paths;
  }

  /**
   * Every reported bucket file is a listed object that passes the gate, and
   * so does its display name, which holds no '/'; every object that
   * passes is reported.
   */
  lemma {:induction false} BucketListingCorrect(paths: seq<string>, b: BucketFile)
    ensures b in BucketListing(paths) <==> b.path in paths && AllowedFile(b.path) && b.name == FileName(b.path)
    ensures b in BucketListing(paths) ==> AllowedFile(b.name) && forall k :: 0 <= k < |b.name| ==> b.name[k] != '/'
  {
    if paths != [] {
      var init, last := paths[..|paths| - 1], paths[|paths| - 1];
      BucketListingCorrect(init, b);
      assert paths == init + [last];
      assert b.path in paths <==> b.path in init || b.path == last;
    }
    AllowedPathIffAllowedName(b.path);
  }

  /** The files of the uploads folder, by name. */
  class UploadFolder {
    var files: set<string>

    constructor(initial: set<string>)
      ensures files == initial
    {
      files := initial;
    }

    /**
     * `delete_slide`: 404 "Slide not found" when no file matches
     * `{slide}.*`; otherwise every match is removed, one at a time, and
     * every other file stays.
     */
    method DeleteSlide(slide: string) returns (r: Result<string, HttpError>)
      modifies this
      ensures r.Ok? <==> exists f :: f in old(files) && GlobMatch(slide, f)
      ensures r.Err? ==> r.error == HttpError(404, "Slide not found") && files == old(files)
      ensures r.Ok? ==> r.value == "Slide deleted"
      ensures forall f :: f in files <==> f in old(files) && !GlobMatch(slide, f)
    {
      var matches := set f | f in files && GlobMatch(slide, f);
      if matches == {} {
        forall f | f in files ensures !GlobMatch(slide, f) {
          assert f !in matches;
        }
        return Err(HttpError(404, "Slide not found"));
      }
      var rest := matches;
      while rest != {}
        invariant rest <= matches
        invariant files == old(files) - (matches - rest)
        decreases |rest|
      {
        var f :| f in rest;
        files := files - {f};
        rest := rest - {f};
      }
      r := Ok("Slide deleted");
    }
  }
}
