/**
 * The rewriting of a `blob_path` query or path parameter into an object
 * name inside the storage bucket, written out three times in the source
 * (`download_gcs_file`, `proxy_gcs_file`, `get_gcs_signed_url`), and the
 * file name and slide name derived from the result.
 */
module BlobPaths {
  import opened Wrappers
  import opened Text
  import opened Paths

  /** The bucket name used when the environment does not set one. */
  const DefaultBucket: string := "wsi_bucket53"

  /** The text `f"{bucket}/"` that marks the start of an object name. */
  function Separator(bucket: string): (sep: string)
    ensures |sep| == |bucket| + 1 && sep[|bucket|] == '/' && sep[..|bucket|] == bucket
  {
    bucket + "/"
  }

  /** The URL names one of the two storage hosts. */
  predicate OnStorageHost(p: string)
  {
    Contains(p, "storage.cloud.google.com") || Contains(p, "storage.googleapis.com")
  }

  /** `s[from:].split(sep)`: the pieces between successive non-overlapping occurrences of `sep`. */
  function SplitFrom(s: string, sep: string, from: nat): (parts: seq<string>)
    requires |sep| > 0 && from <= |s|
    ensures |parts| >= 1
    ensures |parts| > 1 <==> FindFrom(s, sep, from).Some?
    ensures FindFrom(s, sep, from).None? ==> parts[0] == s[from..]
    ensures FindFrom(s, sep, from).Some? ==> parts[0] == s[from..FindFrom(s, sep, from).value]
    decreases |s| - from
  {
    match FindFrom(s, sep, from)
    case None => [s[from..]]
    case Some(i) => [s[from..i]] + SplitFrom(s, sep, i + |sep|)
  }

  /** `s.split(sep)` */
  function Split(s: string, sep: string): seq<string>
    requires |sep| > 0
  {
    SplitFrom(s, sep, 0)
  }

  /** `sep.join(parts)` */
  function Join(parts: seq<string>, sep: string): string
  {
    if |parts| == 0 then ""
    else if |parts| == 1 then parts[0]
    else parts[0] + sep + Join(parts[1..], sep)
  }

  /** The last element of a list, as `parts[-1]`; "" for an empty list. */
  function Last(parts: seq<string>): string
  {
    if |parts| == 0 then "" else parts[|parts| - 1]
  }

  lemma {:induction false} JoinSplitFrom(s: string, sep: string, from: nat)
    requires |sep| > 0 && from <= |s|
    ensures Join(SplitFrom(s, sep, from), sep) == s[from..]
    decreases |s| - from
  {
    var r := FindFrom(s, sep, from);
    if r.Some? {
      var i := r.value;
      JoinSplitCons(s, sep, from, i);
      JoinSplitFrom(s, sep, i + |sep|);
      PieceSepRest(s, sep, from, i);
      var piece, tail := s[from..i], Join(SplitFrom(s, sep, i + |sep|), sep);
      assert tail == s[i + |sep|..];
      assert piece + sep + tail == piece + sep + s[i + |sep|..];
    } else {
      assert SplitFrom(s, sep, from) == [s[from..]];
      assert Join([s[from..]], sep) == s[from..];
    }
  }

  lemma JoinSplitCons(s: string, sep: string, from: nat, i: nat)
    requires |sep| > 0 && from <= |s| && FindFrom(s, sep, from) == Some(i)
    ensures i + |sep| <= |s| && s[i..i + |sep|] == sep
    ensures Join(SplitFrom(s, sep, from), sep) == s[from..i] + sep + Join(SplitFrom(s, sep, i + |sep|), sep)
  {
    SplitFromCons(s, sep, from, i);
    JoinCons(s[from..i], SplitFrom(s, sep, i + |sep|), sep);
  }

  /** The text before a separator found at `i`, the separator, and the text after it. */
  lemma PieceSepRest(s: string, sep: string, from: nat, i: nat)
    requires from <= i && i + |sep| <= |s| && s[i..i + |sep|] == sep
    ensures s[from..i] + sep + s[i + |sep|..] == s[from..]
  {
    ThreeSlices(s, from, i, i + |sep|);
  }

  /** A split that finds the separator at `i` is the piece before it followed by the split after it. */
  lemma SplitFromCons(s: string, sep: string, from: nat, i: nat)
    requires |sep| > 0 && from <= |s| && FindFrom(s, sep, from) == Some(i)
    ensures i + |sep| <= |s| && s[i..i + |sep|] == sep
    ensures SplitFrom(s, sep, from) == [s[from..i]] + SplitFrom(s, sep, i + |sep|)
  {
  }

  lemma JoinCons(x: string, rest: seq<string>, sep: string)
    requires |rest| >= 1
    ensures Join([x] + rest, sep) == x + sep + Join(rest, sep)
  {
    assert ([x] + rest)[1..] == rest;
  }

  lemma ThreeSlices(s: string, from: nat, i: nat, j: nat)
    requires from <= i <= j <= |s|
    ensures s[from..i] + s[i..j] + s[j..] == s[from..]
  {
  }

  /** Joining the pieces of a split with the same separator gives back the string. */
  lemma JoinSplit(s: string, sep: string)
    requires |sep| > 0
    ensures Join(Split(s, sep), sep) == s
  {
    JoinSplitFrom(s, sep, 0);
  }

  /** A slice of `s` over which no occurrence of `t` starts and ends contains none. */
  lemma NoOccurrenceInSlice(s: string, t: string, lo: nat, hi: nat)
    requires lo <= hi <= |s|
    requires forall j :: lo <= j && j + |t| <= hi ==> !OccursAt(s, t, j)
    ensures !Contains(s[lo..hi], t)
  {
    ContainsIff(s[lo..hi], t);
    if Contains(s[lo..hi], t) {
      var k :| OccursAt(s[lo..hi], t, k);
      OccursInSlice(s, t, lo, hi, k);
    }
  }

  lemma {:induction false} SplitFromPiecesFree(s: string, sep: string, from: nat)
    requires |sep| > 0 && from <= |s|
    ensures forall k :: 0 <= k < |SplitFrom(s, sep, from)| ==> !Contains(SplitFrom(s, sep, from)[k], sep)
    decreases |s| - from
  {
    var parts := SplitFrom(s, sep, from);
    var r := FindFrom(s, sep, from);
    if r.None? {
      assert |parts| == 1 && parts[0] == s[from..];
      assert s[from..] == s[from..|s|];
      NoOccurrenceInSlice(s, sep, from, |s|);
    } else {
      var i := r.value;
      var rest := SplitFrom(s, sep, i + |sep|);
      assert parts == [s[from..i]] + rest;
      NoOccurrenceInSlice(s, sep, from, i);
      SplitFromPiecesFree(s, sep, i + |sep|);
      forall k | 0 <= k < |parts| ensures !Contains(parts[k], sep) {
        if k > 0 {
          assert parts[k] == rest[k - 1];
        }
      }
    }
  }

  /** No piece of a split holds the separator. */
  lemma SplitPiecesFree(s: string, sep: string)
    requires |sep| > 0
    ensures forall k :: 0 <= k < |Split(s, sep)| ==> !Contains(Split(s, sep)[k], sep)
  {
    SplitFromPiecesFree(s, sep, 0);
  }

  /** Strips one leading `prefix`, as `p[len(prefix):]` under `p.startswith(prefix)`. */
  function StripPrefix(p: string, prefix: string): (r: string)
  {
    if StartsWith(p, prefix) then p[|prefix|..] else p
  }

  /** What `download_gcs_file` and `proxy_gcs_file` do to `blob_path` before looking it up. */
  function Normalise(bucket: string, blobPath: string): string
  {
    var sep := Separator(bucket);
    var extracted :=
      if StartsWith(blobPath, "http") && OnStorageHost(blobPath) then
        var parts := Split(blobPath, sep);
        if |parts| > 1 then parts[1] else blobPath
      else blobPath;
    StripPrefix(extracted, sep)
  }

  /**
   * What `get_gcs_signed_url` does: the same, with an extra fallback for a
   * storage URL whose split has a single piece.
   */
  function NormaliseSignedUrl(bucket: string, blobPath: string): string
  {
    var sep := Separator(bucket);
    var extracted :=
      if StartsWith(blobPath, "http") && OnStorageHost(blobPath) then
        var parts := Split(blobPath, sep);
        if |parts| > 1 then parts[1]
        else if Contains(blobPath, sep) then Last(parts)
        else blobPath
      else blobPath;
    StripPrefix(extracted, sep)
  }

  /** The extra fallback of the signed-URL handler never applies: all three handlers agree. */
  lemma SignedUrlAgrees(bucket: string, blobPath: string)
    ensures NormaliseSignedUrl(bucket, blobPath) == Normalise(bucket, blobPath)
  {
  }

  /** A path that is neither a URL nor bucket-prefixed is looked up as given. */
  lemma PlainPathUnchanged(bucket: string, p: string)
    requires !StartsWith(p, "http") && !StartsWith(p, Separator(bucket))
    ensures Normalise(bucket, p) == p
  {
  }

  /** A leading `"{bucket}/"` is removed, whether or not the path also looks like a URL. */
  lemma BucketPrefixRemoved(bucket: string, p: string)
    requires !Contains(p, Separator(bucket))
    ensures Normalise(bucket, Separator(bucket) + p) == p
  {
    var sep := Separator(bucket);
    var u := sep + p;
    assert u[..|sep|] == sep && u[|sep|..] == p;
    StartsWithContains(p, sep);
    if StartsWith(u, "http") && OnStorageHost(u) {
      assert OccursAt(u, sep, 0);
      FindFromIs(u, sep, 0, 0);
      forall j | |sep| <= j ensures !OccursAt(u, sep, j) {
        OccursAfterPrefix(sep, p, sep, j - |sep|);
        ContainsIff(p, sep);
      }
      assert Split(u, sep)[1] == SplitFrom(u, sep, |sep|)[0];
    }
  }

  /** Only ONE leading bucket prefix is removed. */
  lemma BucketPrefixRemovedOnce()
    ensures Normalise("b", "b/b/x") == "b/x"
  {
    assert "b/b/x"[0] != "http"[0];
    assert StartsWith("b/b/x", Separator("b"));
  }

  /**
   * For a storage URL that holds `"{bucket}/"`, the result is `parts[1]`,
   * the text between the first occurrence and the next one, and holds no
   * further occurrence.
   */
  lemma StorageUrlKeepsSecondPiece(bucket: string, u: string)
    requires StartsWith(u, "http") && OnStorageHost(u) && Contains(u, Separator(bucket))
    ensures |Split(u, Separator(bucket))| > 1
    ensures Normalise(bucket, u) == Split(u, Separator(bucket))[1]
    ensures !Contains(Normalise(bucket, u), Separator(bucket))
  {
    var sep := Separator(bucket);
    SplitPiecesFree(u, sep);
    StartsWithContains(Split(u, sep)[1], sep);
  }

  /**
   * With a bucket name free of '/', no occurrence of `"{bucket}/"` can start
   * in `x` and run on into `y` when `y` has no '/' among its first |bucket|
   * characters.
   */
  lemma NoStraddle(bucket: string, x: string, y: string)
    requires forall i :: 0 <= i < |bucket| ==> bucket[i] != '/'
    requires !Contains(x, Separator(bucket))
    requires forall k :: 0 <= k < |y| && k < |bucket| ==> y[k] != '/'
    ensures forall j :: 0 <= j < |x| ==> !OccursAt(x + y, Separator(bucket), j)
  {
    var sep := Separator(bucket);
    ContainsIff(x, sep);
    forall j | 0 <= j < |x| && j + |sep| <= |x + y| ensures !OccursAt(x + y, sep, j) {
      var window := (x + y)[j..j + |sep|];
      if j + |bucket| >= |x| {
        assert window[|bucket|] == y[j + |bucket| - |x|];
        assert window[|bucket|] != sep[|bucket|];
      } else {
        assert window == x[j..j + |sep|];
        assert !OccursAt(x, sep, j);
      }
    }
  }

  /** The first separator in `x + y` is the one that starts `y`. */
  lemma FirstSeparatorAt(bucket: string, x: string, y: string)
    requires forall i :: 0 <= i < |bucket| ==> bucket[i] != '/'
    requires !Contains(x, Separator(bucket)) && StartsWith(y, Separator(bucket))
    ensures OccursAt(x + y, Separator(bucket), |x|)
    ensures forall j :: 0 <= j < |x| ==> !OccursAt(x + y, Separator(bucket), j)
  {
    var sep := Separator(bucket);
    forall k | 0 <= k < |y| && k < |bucket| ensures y[k] != '/' {
      assert y[k] == y[..|sep|][k] == sep[k];
    }
    NoStraddle(bucket, x, y);
    StartsWithContains(y, sep);
    OccursAfterPrefix(x, y, sep, 0);
  }

  lemma OccursShift(a: string, b: string, t: string, j: int)
    requires |a| <= j
    ensures OccursAt(a + b, t, j) <==> OccursAt(b, t, j - |a|)
  {
    OccursAfterPrefix(a, b, t, j - |a|);
  }

  /** The first occurrence in `w` is, shifted by |p|, the first one in `p + w` at or after |p|. */
  lemma FirstOccurrenceShift(p: string, w: string, t: string, k: nat)
    requires OccursAt(w, t, k)
    requires forall j :: 0 <= j < k ==> !OccursAt(w, t, j)
    ensures OccursAt(p + w, t, |p| + k)
    ensures forall j :: |p| <= j < |p| + k ==> !OccursAt(p + w, t, j)
  {
    OccursShift(p, w, t, |p| + k);
    forall j | |p| <= j < |p| + k ensures !OccursAt(p + w, t, j) {
      OccursShift(p, w, t, j);
      assert !OccursAt(w, t, j - |p|);
    }
  }

  /** No occurrence in `w` means none in `p + w` at or after |p|. */
  lemma NoOccurrenceShift(p: string, w: string, t: string)
    requires !Contains(w, t)
    ensures forall j :: |p| <= j ==> !OccursAt(p + w, t, j)
  {
    ContainsIff(w, t);
    forall j | |p| <= j ensures !OccursAt(p + w, t, j) {
      OccursShift(p, w, t, j);
    }
  }

  /** The second piece of a split, read off the first two searches. */
  lemma SecondPieceBetween(s: string, sep: string, i: nat, start: nat, j: nat)
    requires |sep| > 0 && start == i + |sep|
    requires FindFrom(s, sep, 0) == Some(i) && FindFrom(s, sep, start) == Some(j)
    ensures |Split(s, sep)| > 1 && Split(s, sep)[1] == s[start..j]
  {
    var rest := SecondPieceSplit(s, sep, i, start);
    var piece := rest[0];
    assert piece == s[start..j];
  }

  /** The second piece of a split that has no second separator runs to the end. */
  lemma SecondPieceToEnd(s: string, sep: string, i: nat, start: nat)
    requires |sep| > 0 && start == i + |sep|
    requires FindFrom(s, sep, 0) == Some(i) && FindFrom(s, sep, start) == None
    ensures |Split(s, sep)| > 1 && Split(s, sep)[1] == s[start..]
  {
    var rest := SecondPieceSplit(s, sep, i, start);
    var piece := rest[0];
    assert piece == s[start..];
  }

  /** After the first separator at `i`, piece 1 of the split is piece 0 of the split from `start`. */
  lemma SecondPieceSplit(s: string, sep: string, i: nat, start: nat) returns (rest: seq<string>)
    requires |sep| > 0 && start == i + |sep| && FindFrom(s, sep, 0) == Some(i)
    ensures start <= |s| && rest == SplitFrom(s, sep, start)
    ensures |Split(s, sep)| > 1 && Split(s, sep)[1] == rest[0]
  {
    SplitFromCons(s, sep, 0, i);
    rest := SplitFrom(s, sep, start);
    var parts := Split(s, sep);
    assert parts == [s[0..i]] + rest;
    assert parts[1] == rest[0];
  }

  /** With no occurrence from `from` on, the search fails. */
  lemma FindFromNone(s: string, t: string, from: nat)
    requires forall j :: from <= j ==> !OccursAt(s, t, j)
    ensures FindFrom(s, t, from) == None
  {
  }

  /** In `a + "{bucket}/" + w`, with `a` free of the separator, the first separator follows `a`. */
  lemma FirstFind(bucket: string, a: string, w: string)
    requires forall i :: 0 <= i < |bucket| ==> bucket[i] != '/'
    requires !Contains(a, Separator(bucket))
    ensures FindFrom(a + Separator(bucket) + w, Separator(bucket), 0) == Some(|a|)
  {
    var sep := Separator(bucket);
    assert a + sep + w == a + (sep + w);
    assert (sep + w)[..|sep|] == sep;
    FirstSeparatorAt(bucket, a, sep + w);
    FindFromIs(a + (sep + w), sep, 0, |a|);
  }

  /** After a prefix `p`, the next separator in `p + (q + b)` starts `b`. */
  lemma SecondFind(bucket: string, p: string, q: string, b: string)
    requires forall i :: 0 <= i < |bucket| ==> bucket[i] != '/'
    requires !Contains(q, Separator(bucket)) && StartsWith(b, Separator(bucket))
    ensures FindFrom(p + (q + b), Separator(bucket), |p|) == Some(|p| + |q|)
  {
    SecondOccurrence(bucket, p, q, b);
    FindFromIs(p + (q + b), Separator(bucket), |p|, |p| + |q|);
  }

  lemma SecondOccurrence(bucket: string, p: string, q: string, b: string)
    requires forall i :: 0 <= i < |bucket| ==> bucket[i] != '/'
    requires !Contains(q, Separator(bucket)) && StartsWith(b, Separator(bucket))
    ensures OccursAt(p + (q + b), Separator(bucket), |p| + |q|)
    ensures forall j :: |p| <= j < |p| + |q| ==> !OccursAt(p + (q + b), Separator(bucket), j)
  {
    FirstSeparatorAt(bucket, q, b);
    FirstOccurrenceShift(p, q + b, Separator(bucket), |q|);
  }

  /** After a prefix `p`, `p + q` holds no separator when `q` holds none. */
  lemma NoSecondFind(bucket: string, p: string, q: string)
    requires !Contains(q, Separator(bucket))
    ensures FindFrom(p + q, Separator(bucket), |p|) == None
  {
    NoOccurrenceShift(p, q, Separator(bucket));
    FindFromNone(p + q, Separator(bucket), |p|);
  }

  /**
   * `(a + "{bucket}/" + q + b).split("{bucket}/")[1]`, where neither `a` nor
   * `q` holds the separator and `b` is empty or starts with it, is exactly
   * `q`: everything from a second `"{bucket}/"` on is dropped.
   */
  lemma SplitSecondPiece(bucket: string, a: string, q: string, b: string)
    requires forall i :: 0 <= i < |bucket| ==> bucket[i] != '/'
    requires !Contains(a, Separator(bucket)) && !Contains(q, Separator(bucket))
    requires b == "" || StartsWith(b, Separator(bucket))
    ensures |Split(a + Separator(bucket) + q + b, Separator(bucket))| > 1
    ensures Split(a + Separator(bucket) + q + b, Separator(bucket))[1] == q
  {
    var sep := Separator(bucket);
    var pre := a + sep;
    FirstFind(bucket, a, q + b);
    assert a + sep + q + b == a + sep + (q + b) == pre + (q + b);
    if b == "" {
      assert pre + (q + b) == pre + q;
      SecondPieceIsRest(bucket, pre, q, |a|);
    } else {
      SecondPieceIsMiddle(bucket, pre, q, b, |a|);
    }
  }

  lemma SecondPieceIsRest(bucket: string, pre: string, q: string, i: nat)
    requires |pre| == i + |Separator(bucket)|
    requires !Contains(q, Separator(bucket))
    requires FindFrom(pre + q, Separator(bucket), 0) == Some(i)
    ensures |Split(pre + q, Separator(bucket))| > 1 && Split(pre + q, Separator(bucket))[1] == q
  {
    NoSecondFind(bucket, pre, q);
    SecondPieceToEnd(pre + q, Separator(bucket), i, |pre|);
    assert (pre + q)[|pre|..] == q;
  }

  lemma SecondPieceIsMiddle(bucket: string, pre: string, q: string, b: string, i: nat)
    requires forall k :: 0 <= k < |bucket| ==> bucket[k] != '/'
    requires |pre| == i + |Separator(bucket)|
    requires !Contains(q, Separator(bucket)) && StartsWith(b, Separator(bucket))
    requires FindFrom(pre + (q + b), Separator(bucket), 0) == Some(i)
    ensures |Split(pre + (q + b), Separator(bucket))| > 1 && Split(pre + (q + b), Separator(bucket))[1] == q
  {
    SecondFind(bucket, pre, q, b);
    SecondPieceBetween(pre + (q + b), Separator(bucket), i, |pre|, |pre| + |q|);
    SliceAfterPrefix(pre, q, b);
  }

  lemma SliceAfterPrefix(p: string, q: string, b: string)
    ensures (p + (q + b))[|p|..|p| + |q|] == q
  {
  }

  /**
   * A storage URL `a + "{bucket}/" + q + b` (the URL prefix `a` free of the
   * separator, `b` empty or beginning with it) is looked up as `q`.
   */
  lemma StorageUrlObjectName(bucket: string, a: string, q: string, b: string)
    requires forall i :: 0 <= i < |bucket| ==> bucket[i] != '/'
    requires !Contains(a, Separator(bucket)) && !Contains(q, Separator(bucket))
    requires b == "" || StartsWith(b, Separator(bucket))
    requires StartsWith(a + Separator(bucket) + q + b, "http")
    requires OnStorageHost(a + Separator(bucket) + q + b)
    ensures Normalise(bucket, a + Separator(bucket) + q + b) == q
  {
    var u := a + Separator(bucket) + q + b;
    SplitSecondPiece(bucket, a, q, b);
    StorageUrlKeepsSecondPiece(bucket, u);
  }

  lemma ExampleUrlPrefixFree(a: string, sep: string)
    requires a == "https://storage.cloud.google.com/" && sep == Separator(DefaultBucket)
    ensures !Contains(a, sep)
  {
    assert sep == "wsi_bucket53/";
    forall j | 0 <= j ensures !OccursAt(a, sep, j) {
      if j + |sep| <= |a| {
        if j == 20 { assert a[20] != sep[0]; } else { assert a[j + 12] != sep[12]; }
      }
    }
    ContainsIff(a, sep);
  }

  lemma ExampleObjectFree(q: string, sep: string)
    requires q == "processed/file.svs" && sep == Separator(DefaultBucket)
    ensures !Contains(q, sep)
  {
    assert sep == "wsi_bucket53/";
    forall j | 0 <= j ensures !OccursAt(q, sep, j) {
      if j + |sep| <= |q| { assert q[j + 12] != sep[12]; }
    }
    ContainsIff(q, sep);
  }

  lemma ExampleUrlOnHost(prefix: string, rest: string)
    requires prefix == "https://storage.cloud.google.com/"
    ensures StartsWith(prefix + rest, "http")
    ensures OnStorageHost(prefix + rest)
  {
    var host, u := "storage.cloud.google.com", prefix + rest;
    assert forall k :: 0 <= k < |host| ==> prefix[8 + k] == host[k];
    assert forall k :: 0 <= k < 4 ==> prefix[k] == "http"[k];
    assert prefix[8..32] == host && prefix[..4] == "http";
    assert forall k :: 0 <= k < |prefix| ==> u[k] == prefix[k];
    assert u[8..32] == prefix[8..32];
    assert u[..4] == prefix[..4];
    assert OccursAt(u, host, 8);
    ContainsIff(u, host);
  }

  /**
   * The full-URL form named in the signed-URL handler's comment,
   * `https://storage.cloud.google.com/wsi_bucket53/processed/file.svs`,
   * resolves to the object name `processed/file.svs`.
   */
  lemma FullUrlExample(prefix: string, obj: string)
    requires prefix == "https://storage.cloud.google.com/" && obj == "processed/file.svs"
    ensures Normalise(DefaultBucket, prefix + Separator(DefaultBucket) + obj) == obj
  {
    var sep := Separator(DefaultBucket);
    ExampleUrlPrefixFree(prefix, sep);
    ExampleObjectFree(obj, sep);
    var u := prefix + sep + obj;
    ExampleUrlOnHost(prefix, sep + obj);
    assert u + "" == u == prefix + (sep + obj);
    StorageUrlObjectName(DefaultBucket, prefix, obj, "");
  }

  /** The file name the download handler stores the object under. */
  function BlobFileName(bucket: string, blobPath: string): (f: string)
    ensures forall i :: 0 <= i < |f| ==> f[i] != '/'
  {
    FileName(Normalise(bucket, blobPath))
  }

  /**
   * The slide name reported for a bucket object: a '/'-free prefix of its
   * file name which, followed by the file's suffix, gives the file name back.
   */
  function BlobSlideName(bucket: string, blobPath: string): (name: string)
    ensures BlobFileName(bucket, blobPath) != "." ==>
      name + PathSuffix(BlobFileName(bucket, blobPath)) == BlobFileName(bucket, blobPath)
    ensures forall i :: 0 <= i < |name| ==> name[i] != '/'
  {
    var f := BlobFileName(bucket, blobPath);
    var stem := PathStem(f);
    assert forall i :: 0 <= i < |stem| ==> stem[i] == f[i];
    if f != "." then StemAndSuffix(f); stem else stem
  }
}
