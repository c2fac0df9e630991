/**
 * The extension gate: which file names the server accepts as slides
 * (`allowed_file`, also inlined by the bucket listing), and which ones the
 * signed-URL handler reports as directly viewable in the browser.
 */
module Extensions {
  import opened Wrappers
  import opened Text
  import opened Paths

  /** The whole-slide image formats the server accepts. */
  const AllowedExtensions: set<string> :=
    {"svs", "tif", "tiff", "vms", "vmu", "ndpi", "scn", "mrxs", "svslide", "bif"}

  /** The suffixes the browser viewer can open without conversion. */
  const DirectlyViewableSuffixes: seq<string> := [".svs", ".tif", ".tiff"]

  /** `allowed_file`: there is a dot, and the lowered text after the last one is a listed extension. */
  predicate AllowedFile(filename: string)
  {
    match LastIndexOf(filename, '.')
    case None => false
    case Some(i) => Lower(filename[i + 1..]) in AllowedExtensions
  }

  /** The expression returned as `is_directly_viewable` for a bucket file name (one path component). */
  predicate IsDirectlyViewable(filename: string)
  {
    Lower(PathSuffix(filename)) in DirectlyViewableSuffixes
  }

  /**
   * A name is accepted exactly when it is some text, a dot, and a dot-free
   * extension that lowers to one of the listed ones.
   */
  lemma AllowedFileIff(f: string)
    ensures AllowedFile(f) <==>
      exists stem, ext :: SplitsAtLastDot(f, stem, ext) && Lower(ext) in AllowedExtensions
  {
    if AllowedFile(f) {
      var i := LastIndexOf(f, '.').value;
      var stem, ext := f[..i], f[i + 1..];
      assert f == stem + "." + ext;
      forall k | 0 <= k < |ext| ensures ext[k] != '.' {
        assert ext[k] == f[i + 1 + k];
      }
      assert SplitsAtLastDot(f, stem, ext);
    }
    forall stem, ext | SplitsAtLastDot(f, stem, ext) && Lower(ext) in AllowedExtensions
      ensures AllowedFile(f)
    {
      SplitIsLastDot(f, stem, ext);
    }
  }

  /** Lowering "." + x lands on one of the viewable suffixes exactly when x lowers to svs, tif or tiff. */
  lemma LowerDotted(x: string)
    ensures Lower("." + x) in DirectlyViewableSuffixes <==> Lower(x) in {"svs", "tif", "tiff"}
  {
    LowerAppend(".", x);
    assert Lower(".") == ".";
    var l := Lower(x);
    assert "." + l == ".svs" <==> l == "svs" by {
      if "." + l == ".svs" { assert l == ("." + l)[1..]; }
    }
    assert "." + l == ".tif" <==> l == "tif" by {
      if "." + l == ".tif" { assert l == ("." + l)[1..]; }
    }
    assert "." + l == ".tiff" <==> l == "tiff" by {
      if "." + l == ".tiff" { assert l == ("." + l)[1..]; }
    }
  }

  /**
   * A name is directly viewable exactly when it is a NON-EMPTY stem, a dot
   * and a dot-free extension that lowers to svs, tif or tiff (for a name
   * without '/', the only kind the handler passes).
   */
  lemma DirectlyViewableIff(f: string)
    ensures IsDirectlyViewable(f) <==>
      exists stem, ext :: SplitsAtLastDot(f, stem, ext) && stem != "" && Lower(ext) in {"svs", "tif", "tiff"}
  {
    if IsDirectlyViewable(f) {
      assert PathSuffix(f) != "" by {
        assert Lower("") !in DirectlyViewableSuffixes;
      }
      SuffixIsLastExtension(f);
      var ext := PathSuffix(f)[1..];
      assert PathSuffix(f) == "." + ext;
      LowerDotted(ext);
      assert SplitsAtLastDot(f, PathStem(f), ext);
    }
    forall stem, ext | SplitsAtLastDot(f, stem, ext) && stem != "" && Lower(ext) in {"svs", "tif", "tiff"}
      ensures IsDirectlyViewable(f)
    {
      assert ext != "" by { assert Lower("") !in {"svs", "tif", "tiff"}; }
      SuffixOfSplit(f, stem, ext);
      LowerDotted(ext);
    }
  }

  /** Every directly viewable name also passes the upload gate; the converse fails (see the examples). */
  lemma DirectlyViewableIsAllowed(f: string)
    ensures IsDirectlyViewable(f) ==> AllowedFile(f)
  {
    DirectlyViewableIff(f);
    AllowedFileIff(f);
  }

  /** Upper-case extensions are accepted. */
  lemma UpperCaseAccepted()
    ensures AllowedFile("x.SVS") && AllowedFile("scan.Tiff")
  {
    assert SplitsAtLastDot("x.SVS", "x", "SVS");
    assert Lower("SVS") == "svs";
    SplitIsLastDot("x.SVS", "x", "SVS");
    assert SplitsAtLastDot("scan.Tiff", "scan", "Tiff");
    assert Lower("Tiff") == "tiff";
    SplitIsLastDot("scan.Tiff", "scan", "Tiff");
  }

  /** Only the text after the LAST dot counts, and a dot is required. */
  lemma LastExtensionDecides()
    ensures !AllowedFile("x.svs.zip") && !AllowedFile("svs") && !AllowedFile("x.")
  {
    assert SplitsAtLastDot("x.svs.zip", "x.svs", "zip");
    SplitIsLastDot("x.svs.zip", "x.svs", "zip");
    assert Lower("zip") == "zip";
    assert LastIndexOf("svs", '.') == None;
    assert SplitsAtLastDot("x.", "x", "");
    SplitIsLastDot("x.", "x", "");
    assert Lower("") == "";
  }

  /** A hidden file named ".svs" passes the upload gate but has no suffix for pathlib. */
  lemma HiddenSvsAllowedNotViewable()
    ensures AllowedFile(".svs") && !IsDirectlyViewable(".svs")
  {
    assert SplitsAtLastDot(".svs", "", "svs");
    SplitIsLastDot(".svs", "", "svs");
    assert Lower("svs") == "svs";
    assert SuffixDot(".svs") == None;
    assert Lower("") == "";
  }

  /** An accepted format outside the three viewable ones. */
  lemma NdpiAllowedNotViewable()
    ensures AllowedFile("a.ndpi") && !IsDirectlyViewable("a.ndpi")
  {
    assert SplitsAtLastDot("a.ndpi", "a", "ndpi");
    SplitIsLastDot("a.ndpi", "a", "ndpi");
    assert Lower("ndpi") == "ndpi";
    SuffixOfSplit("a.ndpi", "a", "ndpi");
    LowerDotted("ndpi");
  }

  lemma UpperCaseViewable()
    ensures IsDirectlyViewable("a.TIF")
  {
    assert SplitsAtLastDot("a.TIF", "a", "TIF");
    assert Lower("TIF") == "tif";
    SuffixOfSplit("a.TIF", "a", "TIF");
    LowerDotted("TIF");
  }
}
