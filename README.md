# WSI DeepZoom viewer server: a Dafny model of its request logic

The server in `app.py` accepts whole-slide images, converts them to DeepZoom
tile pyramids in the background, and serves the tiles to a browser viewer.
It can also fetch slides from a Google Cloud Storage bucket. This project
models the deterministic decisions inside its HTTP handlers and proves what
they promise:

- **Extension gate** (`extensions.dfy`). `allowed_file` accepts a name when
  it holds a dot and the lower-cased text after the last dot is one of ten
  formats. The signed-URL handler's "directly viewable" test checks
  pathlib's lower-cased suffix against `.svs`, `.tif` and `.tiff`.
- **File-name helpers** (`paths.dfy`, `text.dfy`): `split('/')[-1]`,
  pathlib's `suffix` and `stem`, the `glob("{name}.*")` pattern, `str.lower`,
  `in` and `startswith` on strings, the searches behind `split` and
  `rsplit`, and `str(int)`. The pathlib helpers take one path component,
  as every caller passes them.
- **Bucket path rewriting** (`blobs.dfy`). On a storage-host URL it keeps
  `split("{bucket}/")[1]`, then removes one leading `"{bucket}/"`. The
  object's file name and slide name are derived from the result.
- **Progress store** (`progress.dfy`). The class `ProgressStore` holds
  `conversion_progress` as a map from slide name to `{progress, status}`.
  It has two writers: the converter's progress callback, and the convert
  handler's reset to `(0, starting)`. Its one reader is the progress
  handler with its fallback chain: stored record, then converted, then
  viewable, then idle.
- **Tile and descriptor addresses** (`tiles.dfy`):
  `cache/{slide}_files/{level}/{col}_{row}.{format}` and the `.dzi`
  descriptor. A missing file is a 404.
- **Upload folder handlers** (`slides.dfy`):
  - the slide list, a loop that appends one record per accepted file;
  - the upload check;
  - the bucket file list;
  - slide deletion, a loop that removes every `{name}.*` match.

The converter (`is_converted`, `is_viewable`, `convert_to_deepzoom`,
`cleanup_cache`) is not part of this model. Its answers enter as parameters:
booleans or sets of slide names. The contents of the uploads folder and the
cache folder enter as sets of names or as a directory listing. The uploads
folder is taken to hold only files.

Behaviours of the code that the model keeps, because the code does them:

- `convert_slide` resets the record to `(0, starting)` on every call that
  finds an upload for a slide the converter does not report as converted,
  whatever the record held before. Whether the converter reports a slide
  as converted while its conversion runs is the converter's business,
  which is not modelled.
- `get_progress` answers `(0, idle)` for a slide it knows nothing about. It
  never answers 404.
- Deleting a slide leaves its record in `conversion_progress`.
- A hidden file named `.svs` passes the gate and is listed under the name
  `.svs`. The pattern `.svs.*` never matches that file itself
  (`Slides.ListedSlideFindable`, for names `glob` reads literally), so
  convert and delete never reach it.
  They answer 404, unless another upload such as `.svs.tif` matches the
  pattern, which they then convert or delete instead.
- Only one leading `"{bucket}/"` is removed (`BlobPaths.BucketPrefixRemovedOnce`).
- The signed-URL handler's extra fallback can never fire
  (`BlobPaths.SignedUrlAgrees`).
- The DZI route joins its parameter onto `cache` with pathlib, so an
  absolute parameter escapes the cache folder
  (`Tiles.AbsoluteDescriptorEscapesCache`).

## Model

| member | source | states |
|---|---|---|
| Text.Lower | app.py:87 | lower-casing keeps the length and lowers each character |
| Text.StartsWith | app.py:129 | `str.startswith`: the string begins with the prefix |
| Text.Contains | app.py:130 | the `in` test on strings; Text.ContainsIff characterises it |
| Text.ContainsIff | app.py:130 | `t in s` holds exactly when `t` occurs at some index of `s` |
| Text.FindFrom | app.py:131 | the result is the first occurrence at or after `from`, and None means there is none |
| Text.LastIndexOf | app.py:87 | the result is the last index of the character, and None means it does not occur |
| Text.NatToString | app.py:420 | `str(n)` of a non-negative `n` is a non-empty digit string that starts with '0' only when it is "0" |
| Text.IntToString | app.py:420 | `str(n)` is non-empty and made of digits, with a leading '-' exactly when `n` is negative, and has no leading zero |
| Text.NatToStringCanonical | app.py:420 | every digit string without a leading zero is `str` of the number it denotes, so the rendering is the canonical decimal |
| Text.ParseNatToString | app.py:420 | reading the digits of `str(n)` back gives `n` |
| Text.IntToStringInjective | app.py:420 | distinct integers render as distinct strings |
| Paths.PathStem | app.py:146 | the stem is a prefix of the name, empty only for "" and "." |
| Paths.PathSuffix | app.py:573 | the suffix is empty or a dot followed by at least one character and no further dot |
| Paths.GlobMatch | app.py:313 | `glob("{name}.*")` matches exactly the files that start with `{name}.`; its properties are in Slides.ListedSlideFindable |
| Paths.PathName | app.py:146 | `Path(f).name` of one component: "." names nothing |
| Paths.FileName | app.py:145 | `split('/')[-1]` is a suffix of the path with no '/', preceded by '/' when shorter than the path |
| Paths.SuffixDot | app.py:573 | pathlib's suffix starts at the last dot of the name, never its first or last character |
| Paths.SplitIsLastDot | app.py:87 | `rsplit('.', 1)` cuts `stem.ext` (ext without a dot) at the dot before `ext` |
| Paths.StemAndSuffix | app.py:146 | stem followed by suffix gives back the name |
| Paths.SuffixIsLastExtension | app.py:573 | a non-empty suffix is a dot plus the dot-free text after the last dot, after a non-empty stem |
| Paths.SuffixOfSplit | app.py:571-573 | for `stem.ext` with non-empty parts, the suffix is `.ext` and the stem is `stem` |
| Extensions.AllowedFile | app.py:84-87 | the gate's definition: a dot, and the lowered text after the last dot is listed; Extensions.AllowedFileIff characterises it |
| Extensions.IsDirectlyViewable | app.py:573 | the viewable test's definition: the lowered pathlib suffix is `.svs`, `.tif` or `.tiff`; Extensions.DirectlyViewableIff characterises it |
| Extensions.AllowedFileIff | app.py:84-87 | a name is accepted exactly when it is stem, dot, dot-free extension, and the lowered extension is one of the ten listed |
| Extensions.UpperCaseAccepted | app.py:84-87 | `x.SVS` and `scan.Tiff` are accepted |
| Extensions.LastExtensionDecides | app.py:84-87 | `x.svs.zip`, `svs` and `x.` are refused |
| Extensions.LowerDotted | app.py:573 | a lowered `.x` is one of the three viewable suffixes exactly when `x` lowers to svs, tif or tiff |
| Extensions.DirectlyViewableIff | app.py:573 | viewable exactly when the name is a non-empty stem, a dot and a dot-free extension that lowers to svs, tif or tiff |
| Extensions.DirectlyViewableIsAllowed | app.py:573 | every directly viewable name passes the upload gate |
| Extensions.HiddenSvsAllowedNotViewable | app.py:573 | `.svs` passes the gate but is not viewable |
| Extensions.NdpiAllowedNotViewable | app.py:573 | `a.ndpi` passes the gate but is not viewable |
| Extensions.UpperCaseViewable | app.py:573 | `a.TIF` is viewable |
| BlobPaths.OnStorageHost | app.py:130 | the URL names one of the two storage hosts |
| BlobPaths.StripPrefix | app.py:135-136 | one leading prefix is removed when present; BlobPaths.BucketPrefixRemovedOnce is proved about it |
| BlobPaths.Split | app.py:131 | `str.split` from the start of the string; its properties are those of BlobPaths.SplitFrom |
| BlobPaths.SplitFrom | app.py:131 | a split has at least one piece, and more than one exactly when the separator occurs; the first piece runs to the first occurrence |
| BlobPaths.JoinSplit | app.py:131 | joining the pieces with the separator gives back the string |
| BlobPaths.SplitPiecesFree | app.py:131 | no piece of a split holds the separator |
| BlobPaths.Normalise | app.py:129-136 | the rewriting of `download_gcs_file`, identical in `proxy_gcs_file`; proved about in the rows that follow |
| BlobPaths.Last | app.py:541 | `parts[-1]`, the last piece of a split |
| BlobPaths.NormaliseSignedUrl | app.py:532-545 | the signed-URL handler's rewriting with its extra fallback; BlobPaths.SignedUrlAgrees proves it equal to Normalise |
| BlobPaths.PlainPathUnchanged | app.py:129-136 | a path that starts with neither `http` nor `"{bucket}/"` is used as given |
| BlobPaths.BucketPrefixRemoved | app.py:135-136 | `"{bucket}/" + p` becomes `p` when `p` holds no further separator |
| BlobPaths.BucketPrefixRemovedOnce | app.py:135-136 | `b/b/x` with bucket `b` becomes `b/x`: one prefix only |
| BlobPaths.StorageUrlKeepsSecondPiece | app.py:129-136 | a storage URL holding the separator becomes `parts[1]`, which holds no separator |
| BlobPaths.FirstSeparatorAt | app.py:131 | for a '/'-free bucket, the first separator in `x + y` is the one starting `y` when `x` holds none |
| BlobPaths.SplitSecondPiece | app.py:131-133 | `split` of `a + "{bucket}/" + q + b` keeps exactly `q` as piece 1 |
| BlobPaths.StorageUrlObjectName | app.py:129-136 | a storage URL `a + "{bucket}/" + q + b` resolves to `q`: text after the second separator is dropped |
| BlobPaths.FullUrlExample | app.py:527-545 | `https://storage.cloud.google.com/wsi_bucket53/processed/file.svs` resolves to `processed/file.svs` |
| BlobPaths.SignedUrlAgrees | app.py:532-545 | the signed-URL rewriting gives the same result as the other two handlers on every input |
| BlobPaths.BlobFileName | app.py:565 | the derived file name holds no '/' |
| BlobPaths.BlobSlideName | app.py:571 | the slide name holds no '/', and followed by the file's suffix it gives back the file name (unless that is ".") |
| Tiles.TileFileName | app.py:420 | `f"{col}_{row}.{format}"`; Tiles.TileFileNameInjective proves distinct tiles give distinct names |
| Tiles.TilesDir | app.py:419 | `Path(CACHE_FOLDER) / f"{slide}_files"`, the folder every tile of a slide lies under (Tiles.TilePathShape) |
| Tiles.TilePath | app.py:419-420 | the tile file's path; Tiles.TilePathInjective and Tiles.TilePathShape are proved about it |
| Tiles.DziUrl | app.py:349 | the descriptor URL the convert handler returns; Tiles.DziUrlResolves is proved about it |
| Tiles.DziRouteParam | app.py:399 | a parameter is extracted exactly from URLs under `/api/dzi/`, and the route followed by it gives back the URL |
| Tiles.ServeTile | app.py:416-425 | a tile is served as `image/{format}` exactly when its path is in the cache, else 404 "Tile not found" |
| Tiles.TilePathInjective | app.py:419-420 | distinct tile addresses with '/'-free slide names give distinct paths |
| Tiles.TilePathShape | app.py:419-420 | the tile path lies in the slide's `_files` folder and ends in `.{format}` |
| Tiles.DescriptorPath | app.py:403 | a relative parameter lands in `cache/`, an absolute one replaces it |
| Tiles.ServeDzi | app.py:400-407 | the descriptor is served exactly when the joined path exists, else 404 "DZI file not found" |
| Tiles.DziUrlResolves | app.py:399-403 | the URL the convert handler returns reaches the DZI route with `{name}.dzi`, which resolves to `cache/{name}.dzi` |
| Tiles.AbsoluteDescriptorEscapesCache | app.py:403 | an absolute parameter resolves outside `cache/` |
| Progress.Percentage | app.py:77 | the percentage times the total is 100 times the count |
| Progress.ReportedEntry | app.py:75-81 | the stored progress is `current/total*100` and the status is converting or complete |
| Progress.PercentageReachesHundred | app.py:77-80 | for a positive total, the percentage reaches 100 exactly when `current >= total` |
| Progress.CompleteIffReachedTotal | app.py:78-81 | for a positive total, complete exactly when `current >= total`, and converting exactly when `current < total` |
| Progress.NegativeTotalReversed | app.py:77-80 | for a negative total, complete exactly when `current <= total` |
| Progress.PercentageBounds | app.py:77 | `0 <= current <= total` gives a percentage within `0..100` |
| Progress.ReportedEntryWellFormed | app.py:78-81 | every record the callback stores is complete exactly at 100 or more, and never idle |
| Progress.Fallback | app.py:366-374 | without a record: `(100, complete)` when converted, else `(50, converting)` when viewable, else `(0, idle)`; idle exactly when neither |
| Progress.ProgressStore.constructor | app.py:73 | the store starts empty |
| Progress.ProgressStore.UpdateProgress | app.py:75-81 | only the slide's record changes, to the reported one; a zero total is a division error with nothing stored; the reader then returns the new record |
| Progress.ProgressStore.ConvertSlide | app.py:307-351 | 404 with nothing changed when no upload matches; "already converted" with nothing changed; otherwise the record is reset to `(0, starting)` and a matching upload goes to the converter; both successes carry `/api/dzi/{name}.dzi` |
| Progress.ProgressStore.GetProgress | app.py:359-374 | a stored record is returned verbatim; without one, `(100, complete)` when converted, else `(50, converting)` when viewable, else `(0, idle)`; replies are complete exactly at 100 or more; idle exactly when nothing is stored and the slide is neither converted nor viewable |
| Progress.ProgressStore.FlagsIgnoredWhenStored | app.py:363-364 | with a stored record, the converted and viewable flags do not matter |
| Progress.ProgressStore.ConvertedBeatsViewable | app.py:366-369 | without a record, a converted slide is complete at 100 whatever its viewable flag |
| Slides.IsSlideFile | app.py:251 | a directory entry is reported when it is a file whose name passes the gate; Slides.ListingSound and Slides.ListingComplete use it |
| Slides.Info | app.py:252-258 | the record of one file: its stem as name and the converter's flags for that stem; Slides.ListingSound states its properties |
| Slides.Listing | app.py:250-259 | the slide list is no longer than the directory listing |
| Slides.ListSlides | app.py:241-264 | no folder gives an empty list; otherwise the loop builds exactly the slide list of the listing |
| Slides.AllowedNameSplits | app.py:253 | an accepted name is its stem followed by its suffix |
| Slides.ListingSound | app.py:250-259 | every listed slide comes from a file entry with an accepted name, is named by its stem, and carries the converter's flags for that stem |
| Slides.ListingComplete | app.py:250-259 | every file entry with an accepted name is listed |
| Slides.AllowedWithoutSuffixIsHidden | app.py:253 | an accepted name has no pathlib suffix exactly when its only dot is its first character |
| Slides.ListedSlideFindable | app.py:313 | a listed slide's own file is matched by `{name}.*`, read literally, exactly when its name is not a hidden suffix-only name |
| Slides.HiddenSvsListedButNotFound | app.py:250-259 | `.svs` is listed under the name `.svs`, and `.svs.*` does not match it |
| Slides.CheckUpload | app.py:267-299 | a missing or empty name gives 400 "No file selected" and a refused name gives 400 "File type not supported"; success exactly for accepted names, reporting the stem of the last component |
| Slides.AllowedPathIffAllowedName | app.py:474-479 | the gate accepts a bucket path exactly when it accepts the path's last component |
| Slides.BucketListing | app.py:473-483 | the bucket file list is no longer than the object list |
| Slides.ListBucketFiles | app.py:462-488 | the loop builds exactly the bucket file list of the object names |
| Slides.BucketListingCorrect | app.py:473-483 | a record is listed exactly when its path is a listed object that passes the gate and its name is the path's last component; that name passes the gate and holds no '/' |
| Slides.UploadFolder.constructor | app.py:42 | the folder holds exactly the given files |
| Slides.UploadFolder.DeleteSlide | app.py:433-450 | 404 "Slide not found" with nothing removed when no file matches; otherwise exactly the matching files are removed and "Slide deleted" is returned |

## Left out

- FastAPI routing, `FileResponse`/`StaticFiles`, CORS middleware, the static pages and the startup banner. These are framework plumbing. The DZI route's parameter extraction is modelled only as far as `Tiles.DziRouteParam`.
- All Google Cloud Storage calls: client set-up, `blob.exists`, downloads, `list_blobs`, `generate_signed_url` and the expiry time, plus the status endpoint that reports them. These are network and foreign calls. Only the string rewriting of `blob_path` and the name filtering of the bucket listing are modelled.
- Writing the uploaded file, `mkdir`, `stat` sizes and the "already downloaded" check of the download handler. These are file-system effects. Whether a file exists is a set of names given as a parameter.
- `WSIConverter` and `get_slide_info` (including the slide-info handler, whose 404 test is the same `{name}.*` match as convert's). The converter's code is not part of this model. `is_converted`/`is_viewable` enter as parameters, and the background conversion is represented by the file name handed to it.
- `cleanup_cache` in the delete handler. It belongs to the converter.
- Background scheduling and concurrent access to `conversion_progress`. The code has no synchronisation to model; each method runs atomically.
- The 500 replies from unexpected exceptions. Most arise from the I/O that is left out. The others come from `glob` rejecting a pattern or yielding a directory; the two lines that follow describe them.
- Progress.Percentage: computed in exact rational arithmetic, not in floating point. A float quotient may round a value just below 100 up to 100.
- Text.Lower: lowers the ASCII letters A-Z only. The listed extensions hold no letter that another code point lowers to, except 'k' from KELVIN SIGN (U+212A), and no listed extension contains 'k'.
- Paths.SuffixDot: follows pathlib up to Python 3.13, where the last dot counts only if it is neither the first nor the last character; Python 3.14 also counts a single trailing dot, so `Path("x.").stem` is "x" there. It also follows pathlib only for one path component: `Path("a/.svs").suffix` is "", while the model would look at the whole string. No caller passes a string holding '/'.
- Paths.GlobMatch: treats `*`, `?` and `[` in a slide name literally, where `glob` would expand them. With the slide name `*`, the delete handler runs `glob("*.*")` and removes every upload whose name holds a dot, where the model removes only names starting with `*.`. A name holding `**` (such as `**` or `a**b`) makes `glob` raise ValueError in Python 3.12 and earlier, so convert, info and delete answer 500 with nothing changed. The model matches such a name literally, so `DeleteSlide("**")` removes `**.svs` and answers "Slide deleted".
- Slides.UploadFolder.DeleteSlide and Progress.ProgressStore.ConvertSlide: the uploads folder is a set of file names, so a directory that matches `{name}.*` is not modelled. `glob` yields directories too: convert would hand such a directory to the converter, and delete would fail on it with 500 after removing the matches before it.
- Slides.ListedSlideFindable: holds only for slide names `glob` reads literally. An upload `scan[1].svs` passes the gate and is listed as `scan[1]`, but `glob("scan[1].*")` reads `[1]` as a character class. It matches `scan1.svs` and never `scan[1].svs`, so convert and delete answer 404 for that slide or act on another file.
- Tiles.DescriptorPath: does not model pathlib's normalisation of repeated separators, `.` components and a trailing '/'. The code resolves `/api/dzi/x.dzi/` to `cache/x.dzi`, and the model to `cache/x.dzi/`. The cache is a set of joined paths.
- The order of `glob` results: ConvertSlide may hand any matching upload to the converter.
- The viewing-strategy selection of the browser. It lives in `viewer.js`, which is not part of this model.
