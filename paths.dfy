/**
 * File-name handling the handlers borrow from Python: the last component
 * of a '/'-separated path (`p.split('/')[-1]`), pathlib's `suffix` and
 * `stem` of a file name, and the upload-folder pattern `glob("{name}.*")`.
 */
module Paths {
  import opened Wrappers
  import opened Text

  /** `p.split('/')[-1]`: the text after the last '/', or all of `p`. */
  function FileName(p: string): (f: string)
    ensures |f| <= |p| && p[|p| - |f|..] == f
    ensures forall i :: 0 <= i < |f| ==> f[i] != '/'
    ensures |f| < |p| ==> p[|p| - |f| - 1] == '/'
  {
    match LastIndexOf(p, '/')
    case None => p
    case Some(i) => p[i + 1..]
  }

  /** `Path(f).name` for a file name without '/': both "" and "." name the current directory. */
  function PathName(f: string): string
  {
    if f == "." then "" else f
  }

  /**
   * Where pathlib's suffix of `f` starts: the last dot of the name,
   * provided it is neither the first nor the last character. Here and in
   * PathSuffix and PathStem, `f` is one path component (no '/'), as every
   * caller passes: a `split('/')[-1]` result or a directory entry's name.
   */
  function SuffixDot(f: string): (r: Option<nat>)
    ensures r.Some? ==> 0 < r.value < |PathName(f)| - 1 && PathName(f)[r.value] == '.'
    ensures r.Some? ==> forall j :: r.value < j < |PathName(f)| ==> PathName(f)[j] != '.'
  {
    var name := PathName(f);
    match LastIndexOf(name, '.')
    case Some(i) => if 0 < i < |name| - 1 then Some(i) else None
    case None => None
  }

  /** `Path(f).suffix`: empty, or a dot followed by at least one character and no further dot. */
  function PathSuffix(f: string): (x: string)
    ensures x != "" ==> |x| >= 2 && x[0] == '.' && forall j :: 0 < j < |x| ==> x[j] != '.'
  {
    match SuffixDot(f)
    case Some(i) => PathName(f)[i..]
    case None => ""
  }

  /** `Path(f).stem`: a prefix of the name, empty only for "" and ".". */
  function PathStem(f: string): (t: string)
    ensures |t| <= |f| && f[..|t|] == t
    ensures t == "" <==> f == "" || f == "."
  {
    match SuffixDot(f)
    case Some(i) => PathName(f)[..i]
    case None => PathName(f)
  }

  /** `f` is `stem`, a dot, and an `ext` that holds no further dot. */
  predicate SplitsAtLastDot(f: string, stem: string, ext: string)
  {
    f == stem + "." + ext && forall i :: 0 <= i < |ext| ==> ext[i] != '.'
  }

  /** Such a split is found at the last dot of `f`. */
  lemma SplitIsLastDot(f: string, stem: string, ext: string)
    requires SplitsAtLastDot(f, stem, ext)
    ensures LastIndexOf(f, '.') == Some(|stem|) && f[|stem| + 1..] == ext && f[..|stem|] == stem
  {
    forall j | |stem| < j < |f| ensures f[j] != '.' {
      assert f[j] == ext[j - |stem| - 1];
    }
    LastIndexOfIs(f, '.', |stem|);
  }

  /** Stem and suffix put back together give the name again. */
  lemma {:induction false} StemAndSuffix(f: string)
    requires f != "."
    ensures PathStem(f) + PathSuffix(f) == f
  {
    match SuffixDot(f)
    case Some(i) => assert f[..i] + f[i..] == f;
    case None =>
  }

  /** A non-empty suffix is a dot and a dot-free extension, and the stem is what precedes it. */
  lemma {:induction false} SuffixIsLastExtension(f: string)
    requires PathSuffix(f) != ""
    ensures SplitsAtLastDot(f, PathStem(f), PathSuffix(f)[1..])
    ensures PathStem(f) != "" && |PathSuffix(f)| >= 2
  {
    var i := SuffixDot(f).value;
    var ext := f[i + 1..];
    assert f[..i] + "." + ext == f;
    forall k | 0 <= k < |ext| ensures ext[k] != '.' {
      assert ext[k] == f[i + 1 + k];
    }
  }

  /** pathlib's suffix of `stem.ext`, for a non-empty stem and extension. */
  lemma SuffixOfSplit(f: string, stem: string, ext: string)
    requires SplitsAtLastDot(f, stem, ext) && stem != "" && ext != ""
    ensures PathSuffix(f) == "." + ext && PathStem(f) == stem
  {
    SplitIsLastDot(f, stem, ext);
    assert f[|stem|..] == "." + ext;
  }

  /** A file in the upload folder matched by `glob(f"{slide}.*")`. */
  predicate GlobMatch(slide: string, file: string)
  {
    StartsWith(file, slide + ".")
  }
}
