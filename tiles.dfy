/**
 * Where the DeepZoom handlers look for their files under the cache folder:
 * the tile image `cache/{slide}_files/{level}/{col}_{row}.{format}` and the
 * `.dzi` descriptor that the convert handler advertises as `/api/dzi/{name}.dzi`.
 */
module Tiles {
  import opened Wrappers
  import opened Text

  const CacheFolder: string := "cache"
  const DziRoute: string := "/api/dzi/"

  /** The parameters of the tile route `/api/tiles/{slide}/{level}/{col}_{row}.{format}`. */
  datatype TileAddress = TileAddress(slide: string, level: int, col: int, row: int, format: string)

  /** A served file and the media type it is served with. */
  datatype FileReply = FileReply(path: string, mediaType: string)

  /** `Path(CACHE_FOLDER) / f"{slide}_files"` */
  function TilesDir(slide: string): string
  {
    CacheFolder + "/" + slide + "_files"
  }

  /** `f"{col}_{row}.{format}"` */
  function TileFileName(col: int, row: int, format: string): string
  {
    IntToString(col) + "_" + IntToString(row) + "." + format
  }

  /** `tiles_dir / str(level) / f"{col}_{row}.{format}"` */
  function TilePath(t: TileAddress): string
  {
    TilesDir(t.slide) + "/" + IntToString(t.level) + "/" + TileFileName(t.col, t.row, t.format)
  }

  /**
   * The tile handler: the tile's file when it exists in the cache, served
   * as `image/{format}`, and 404 "Tile not found" otherwise.
   */
  function ServeTile(t: TileAddress, cacheFiles: set<string>): (r: Result<FileReply, HttpError>)
    ensures r.Ok? <==> TilePath(t) in cacheFiles
    ensures r.Ok? ==> r.value.path == TilePath(t) && r.value.mediaType == "image/" + t.format
    ensures r.Err? ==> r.error == HttpError(404, "Tile not found")
  {
    var path := TilePath(t);
    if path in cacheFiles then Ok(FileReply(path, "image/" + t.format))
    else Err(HttpError(404, "Tile not found"))
  }

  /** In `x + [c] + y`, with no `c` in `x`, the first `c` sits at `|x|`. */
  lemma FirstAfter(x: string, y: string, c: char)
    requires forall i :: 0 <= i < |x| ==> x[i] != c
    ensures (x + [c] + y)[|x|] == c
    ensures forall i :: 0 <= i < |x| ==> (x + [c] + y)[i] != c
  {
  }

  /** Two strings cut at the first `c` agree on both sides of the cut. */
  lemma SplitAtFirst(x1: string, y1: string, x2: string, y2: string, c: char)
    requires forall i :: 0 <= i < |x1| ==> x1[i] != c
    requires forall i :: 0 <= i < |x2| ==> x2[i] != c
    requires x1 + [c] + y1 == x2 + [c] + y2
    ensures x1 == x2 && y1 == y2
  {
    var s := x1 + [c] + y1;
    FirstAfter(x1, y1, c);
    FirstAfter(x2, y2, c);
    assert |x1| == |x2|;
    assert x1 == s[..|x1|] && x2 == s[..|x2|];
    assert y1 == s[|x1| + 1..] && y2 == s[|x2| + 1..];
  }

  lemma IntToStringHasNo(n: int, c: char)
    requires c == '/' || c == '_' || c == '.'
    ensures forall i :: 0 <= i < |IntToString(n)| ==> IntToString(n)[i] != c
  {
  }

  lemma TileFileNameInjective(c1: int, r1: int, f1: string, c2: int, r2: int, f2: string)
    requires TileFileName(c1, r1, f1) == TileFileName(c2, r2, f2)
    ensures c1 == c2 && r1 == r2 && f1 == f2
  {
    var x1, x2 := IntToString(c1), IntToString(c2);
    var y1, y2 := IntToString(r1), IntToString(r2);
    IntToStringHasNo(c1, '_'); IntToStringHasNo(c2, '_');
    IntToStringHasNo(r1, '.'); IntToStringHasNo(r2, '.');
    assert TileFileName(c1, r1, f1) == x1 + ['_'] + (y1 + ['.'] + f1);
    assert TileFileName(c2, r2, f2) == x2 + ['_'] + (y2 + ['.'] + f2);
    SplitAtFirst(x1, y1 + ['.'] + f1, x2, y2 + ['.'] + f2, '_');
    SplitAtFirst(y1, f1, y2, f2, '.');
    IntToStringInjective(c1, c2);
    IntToStringInjective(r1, r2);
  }

  /** A tile path read as the cache folder, then three '/'-separated parts. */
  lemma TilePathParts(t: TileAddress)
    ensures TilePath(t)[..6] == "cache/"
    ensures TilePath(t)[6..] == (t.slide + "_files") + ['/'] + (IntToString(t.level) + ['/'] + TileFileName(t.col, t.row, t.format))
  {
    var l, f := IntToString(t.level), TileFileName(t.col, t.row, t.format);
    assert TilePath(t) == "cache/" + ((t.slide + "_files") + ['/'] + (l + ['/'] + f));
  }

  lemma TilesFolderHasNoSlash(slide: string)
    requires forall i :: 0 <= i < |slide| ==> slide[i] != '/'
    ensures forall i :: 0 <= i < |slide + "_files"| ==> (slide + "_files")[i] != '/'
  {
    var a := slide + "_files";
    forall i | 0 <= i < |a| ensures a[i] != '/' {
      if i < |slide| { assert a[i] == slide[i]; } else { assert a[i] == "_files"[i - |slide|]; }
    }
  }

  /**
   * Distinct tile addresses name distinct files, as long as the slide name
   * holds no '/' (a route segment never does), so a tile request is never
   * answered with another tile's image.
   */
  lemma TilePathInjective(t1: TileAddress, t2: TileAddress)
    requires forall i :: 0 <= i < |t1.slide| ==> t1.slide[i] != '/'
    requires forall i :: 0 <= i < |t2.slide| ==> t2.slide[i] != '/'
    requires TilePath(t1) == TilePath(t2)
    ensures t1 == t2
  {
    var l1, l2 := IntToString(t1.level), IntToString(t2.level);
    var f1, f2 := TileFileName(t1.col, t1.row, t1.format), TileFileName(t2.col, t2.row, t2.format);
    TilePathParts(t1);
    TilePathParts(t2);
    TilesFolderHasNoSlash(t1.slide);
    TilesFolderHasNoSlash(t2.slide);
    SplitAtFirst(t1.slide + "_files", l1 + ['/'] + f1, t2.slide + "_files", l2 + ['/'] + f2, '/');
    assert t1.slide == (t1.slide + "_files")[..|t1.slide|];
    assert t2.slide == (t2.slide + "_files")[..|t2.slide|];
    IntToStringHasNo(t1.level, '/');
    IntToStringHasNo(t2.level, '/');
    SplitAtFirst(l1, f1, l2, f2, '/');
    IntToStringInjective(t1.level, t2.level);
    TileFileNameInjective(t1.col, t1.row, t1.format, t2.col, t2.row, t2.format);
  }

  /** The tile file sits in its slide's tile folder and carries the requested format. */
  lemma TilePathShape(t: TileAddress)
    ensures StartsWith(TilePath(t), TilesDir(t.slide) + "/")
    ensures |TilePath(t)| > |t.format| && TilePath(t)[|TilePath(t)| - |t.format| - 1..] == "." + t.format
  {
    var d, rest := TilesDir(t.slide) + "/", IntToString(t.level) + "/" + TileFileName(t.col, t.row, t.format);
    assert TilePath(t) == d + rest;
    assert TilePath(t)[..|d|] == d;
    var head := TilesDir(t.slide) + "/" + IntToString(t.level) + "/" + IntToString(t.col) + "_" + IntToString(t.row);
    assert TilePath(t) == head + ("." + t.format);
  }

  /** The descriptor URL the convert handler returns for a slide. */
  function DziUrl(name: string): string
  {
    DziRoute + name + ".dzi"
  }

  /** The `{filename:path}` parameter the DZI route extracts from a request path. */
  function DziRouteParam(url: string): (r: Option<string>)
    ensures r.Some? <==> StartsWith(url, DziRoute)
    ensures r.Some? ==> DziRoute + r.value == url
  {
    if StartsWith(url, DziRoute) then Some(url[|DziRoute|..]) else None
  }

  /**
   * `Path(CACHE_FOLDER) / filename`: an absolute `filename` replaces the
   * cache folder, an empty one names the cache folder itself.
   */
  function DescriptorPath(filename: string): (p: string)
    ensures filename != "" && filename[0] != '/' ==> p == CacheFolder + "/" + filename
    ensures filename != "" && filename[0] == '/' ==> p == filename
  {
    if filename == "" then CacheFolder
    else if filename[0] == '/' then filename
    else CacheFolder + "/" + filename
  }

  /** The DZI handler: the descriptor when the joined path exists, else 404. */
  function ServeDzi(filename: string, cacheFiles: set<string>): (r: Result<string, HttpError>)
    ensures r.Ok? <==> DescriptorPath(filename) in cacheFiles
    ensures r.Ok? ==> r.value == DescriptorPath(filename)
    ensures r.Err? ==> r.error == HttpError(404, "DZI file not found")
  {
    var path := DescriptorPath(filename);
    if path in cacheFiles then Ok(path) else Err(HttpError(404, "DZI file not found"))
  }

  /**
   * The URL the convert handler advertises reaches the DZI route with the
   * parameter `{name}.dzi`, which resolves to `cache/{name}.dzi`.
   */
  lemma DziUrlResolves(name: string)
    requires name == "" || name[0] != '/'
    ensures DziRouteParam(DziUrl(name)) == Some(name + ".dzi")
    ensures DescriptorPath(name + ".dzi") == CacheFolder + "/" + name + ".dzi"
  {
    var u := DziUrl(name);
    assert u == DziRoute + (name + ".dzi");
    assert u[..|DziRoute|] == DziRoute;
    assert u[|DziRoute|..] == name + ".dzi";
    assert (name + ".dzi")[0] == (if name == "" then '.' else name[0]);
  }

  /** An absolute parameter escapes the cache folder: the DZI route serves any existing path. */
  lemma AbsoluteDescriptorEscapesCache(filename: string)
    requires filename != "" && filename[0] == '/'
    ensures DescriptorPath(filename) == filename
    ensures !StartsWith(DescriptorPath(filename), CacheFolder + "/")
  {
    assert (CacheFolder + "/")[0] == 'c';
  }
}
