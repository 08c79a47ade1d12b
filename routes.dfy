/**
  Route derivation of the documentation PDF export script: every content file
  path found under `pages` is turned into the URL path the site serves it at.
 */
module Routes {
  import opened Strings

  /** The content root removed from the front of every globbed path. */
  const CONTENT_ROOT := "pages"
  /** The index marker of a directory's own page. */
  const INDEX_FILE := "/index.mdx"
  /** The extension of every content file. */
  const EXTENSION := ".mdx"

  /** The path after the leading root is dropped and `\` is turned into `/`. */
  function Normalised(file: string): (n: string)
    ensures '\\' !in n
  {
    ReplaceAllRemoves(StripPrefix(file, CONTENT_ROOT), '\\', '/');
    ReplaceAll(StripPrefix(file, CONTENT_ROOT), '\\', '/')
  }

  /** The normalised path after the two anchored suffix edits. */
  function Body(file: string): (b: string)
    ensures '\\' !in b
  {
    var n := Normalised(file);
    ReplaceSuffixChars(n, INDEX_FILE, "/", '\\');
    ReplaceSuffixChars(ReplaceSuffix(n, INDEX_FILE, "/"), EXTENSION, "", '\\');
    ReplaceSuffix(ReplaceSuffix(n, INDEX_FILE, "/"), EXTENSION, "")
  }

  /** Adds a leading `/` to a string that lacks one. */
  function Rooted(s: string): (r: string)
    ensures StartsWith(r, "/")
    ensures StartsWith(s, "/") ==> r == s
    ensures r == s || r == "/" + s
  {
    if StartsWith(s, "/") then s else "/" + s
  }

  /** The route a content file is served at. */
  function ToRoute(file: string): (route: string)
    ensures |route| > 0 && route[0] == '/'
    ensures '\\' !in route
  {
    Rooted(Body(file))
  }

  /** The routes of the globbed files, one per file and in the same order. */
  function DeriveRoutes(files: seq<string>): (routes: seq<string>)
    ensures |routes| == |files|
    ensures forall i :: 0 <= i < |files| ==> routes[i] == ToRoute(files[i])
  {
    if files == [] then [] else [ToRoute(files[0])] + DeriveRoutes(files[1..])
  }

  /** Exactly one leading `pages` is removed, even when another one follows it. */
  lemma StripsOnlyLeadingRoot(rest: string)
    ensures Normalised(CONTENT_ROOT + rest) == ReplaceAll(rest, '\\', '/')
  {
    assert StartsWith(CONTENT_ROOT + rest, CONTENT_ROOT) by {
      assert (CONTENT_ROOT + rest)[..|CONTENT_ROOT|] == CONTENT_ROOT;
    }
    var stripped := StripPrefix(CONTENT_ROOT + rest, CONTENT_ROOT);
    assert CONTENT_ROOT + stripped == CONTENT_ROOT + rest;
    assert stripped == (CONTENT_ROOT + stripped)[|CONTENT_ROOT|..];
  }


  /** Under the root, a path already written with `/` is its own normalised form. */
  lemma NormalisedUnderRoot(rest: string)
    requires '\\' !in rest
    ensures Normalised(CONTENT_ROOT + rest) == rest
  {
    StripsOnlyLeadingRoot(rest);
    ReplaceAllAbsent(rest, '\\', '/');
  }

  /**
    An index file gives a route that ends in `/`: the route is the normalised
    path with `index.mdx` removed, given a leading `/`.
   */
  lemma IndexFileRoute(file: string)
    requires EndsWith(Normalised(file), INDEX_FILE)
    ensures Body(file) == Normalised(file)[..|Normalised(file)| - |"index.mdx"|]
    ensures EndsWith(ToRoute(file), "/")
  {
    var n := Normalised(file);
    var m := ReplaceSuffix(n, INDEX_FILE, "/");
    assert m == n[..|n| - |INDEX_FILE|] + "/";
    assert n[|n| - |INDEX_FILE|] == '/' by {
      assert n[|n| - |INDEX_FILE|..][0] == INDEX_FILE[0];
    }
    assert m == n[..|n| - |"index.mdx"|];
    assert !EndsWith(m, EXTENSION) by {
      if |EXTENSION| <= |m| {
        assert m[|m| - |EXTENSION|..][|EXTENSION| - 1] == m[|m| - 1];
      }
    }
    assert Body(file) == m;
    var route := ToRoute(file);
    assert route[|route| - 1] == '/' by {
      assert route == m || route == "/" + m;
    }
    assert route[|route| - 1..] == "/";
  }

  /**
    Any other `.mdx` file loses exactly one trailing `.mdx`: the route is the
    normalised path without it, given a leading `/`.
   */
  lemma PageFileRoute(file: string)
    requires EndsWith(Normalised(file), EXTENSION)
    requires !EndsWith(Normalised(file), INDEX_FILE)
    ensures Body(file) == Normalised(file)[..|Normalised(file)| - |EXTENSION|]
  {
  }

  /** Only one suffix goes: a file ending in `.mdx.mdx` gives a route ending in `.mdx`. */
  lemma DoubleExtensionRoute(file: string)
    requires EndsWith(Normalised(file), EXTENSION + EXTENSION)
    ensures EndsWith(ToRoute(file), EXTENSION)
  {
    var n := Normalised(file);
    DropDoubledSuffix(n, EXTENSION);
    assert !EndsWith(n, INDEX_FILE) by {
      if EndsWith(n, INDEX_FILE) {
        SuffixesAgree(n, INDEX_FILE, EXTENSION + EXTENSION);
        IndexNotDoubled();
      }
    }
    PageFileRoute(file);
    RootedKeepsSuffix(n[..|n| - |EXTENSION|], EXTENSION);
  }

  /** The index marker is a separator and `index.mdx`, or `/index` and the extension. */
  lemma IndexSplits()
    ensures INDEX_FILE == "/" + "index.mdx"
    ensures INDEX_FILE == "/index" + EXTENSION
  {
  }

  /** The index marker does not end in a doubled extension. */
  lemma IndexNotDoubled()
    ensures !EndsWith(INDEX_FILE, EXTENSION + EXTENSION)
  {
    var d := EXTENSION + EXTENSION;
    assert d[0] == '.';
    assert INDEX_FILE[2] == 'n';
  }

  /** Adding the leading `/` does not change how a string ends. */
  lemma RootedKeepsSuffix(s: string, p: string)
    requires EndsWith(s, p)
    ensures EndsWith(Rooted(s), p)
  {
    EndsWithPrepended("/", s, p);
  }

  /** A file without the `.mdx` extension keeps its whole normalised path. */
  lemma OtherFileRoute(file: string)
    requires !EndsWith(Normalised(file), EXTENSION)
    ensures Body(file) == Normalised(file)
  {
    EndsWithSuffix(Normalised(file), INDEX_FILE, EXTENSION);
  }

  /**
    A path that does not start with `pages` keeps its beginning: everything
    before the last ten characters (the longest suffix the edits can touch)
    survives with only its separators turned into `/`.
   */
  lemma KeepsOtherPrefix(file: string, k: nat)
    requires !StartsWith(file, CONTENT_ROOT)
    requires k + |INDEX_FILE| <= |file|
    ensures StartsWith(Body(file), ReplaceAll(file[..k], '\\', '/'))
  {
    var n := Normalised(file);
    assert n == ReplaceAll(file, '\\', '/');
    ReplaceAllPrefix(file, k, '\\', '/');
    var b := Body(file);
    if EndsWith(n, INDEX_FILE) {
      IndexFileRoute(file);
      assert b[..k] == n[..k];
    } else if EndsWith(n, EXTENSION) {
      PageFileRoute(file);
      assert b[..k] == n[..k];
    } else {
      OtherFileRoute(file);
    }
  }

  /**
    The content file the pages router serves a route from: a route ending in
    `/` comes from that directory's `index.mdx`, any other from `<route>.mdx`.
   */
  function ContentFile(route: string): (file: string)
    ensures StartsWith(file, CONTENT_ROOT + route)
    ensures EndsWith(file, EXTENSION)
  {
    var tail := if EndsWith(route, "/") then "index.mdx" else EXTENSION;
    assert (CONTENT_ROOT + (route + tail))[..|CONTENT_ROOT + route|] == CONTENT_ROOT + route;
    EndsWithAppended(CONTENT_ROOT + route, tail);
    assert CONTENT_ROOT + route + tail == CONTENT_ROOT + (route + tail);
    EndsWithSuffix(CONTENT_ROOT + (route + tail), tail, EXTENSION);
    CONTENT_ROOT + (route + tail)
  }

  /**
    A route the script can produce: it starts with `/`, holds no `\`, and does
    not end in `/index` (that file name is always read as a directory index).
   */
  predicate WellFormedRoute(route: string) {
    StartsWith(route, "/") && '\\' !in route && !EndsWith(route, "/index")
  }

  /** A directory route comes back from its `index.mdx`. */
  lemma RouteOfIndexFile(route: string)
    requires StartsWith(route, "/") && '\\' !in route && EndsWith(route, "/")
    ensures ToRoute(CONTENT_ROOT + (route + "index.mdx")) == route
  {
    var n := route + "index.mdx";
    NormalisedUnderRoot(n);
    EndsWithExtended(route, "/", "index.mdx");
    IndexSplits();
    IndexFileRoute(CONTENT_ROOT + n);
    assert n[..|route|] == route;
  }

  /** Any other well-formed route comes back from `<route>.mdx`. */
  lemma RouteOfPageFile(route: string)
    requires WellFormedRoute(route) && !EndsWith(route, "/")
    ensures ToRoute(CONTENT_ROOT + (route + EXTENSION)) == route
  {
    var n := route + EXTENSION;
    NormalisedUnderRoot(n);
    EndsWithAppended(route, EXTENSION);
    assert !EndsWith(n, INDEX_FILE) by {
      IndexSplits();
      if EndsWith(n, INDEX_FILE) {
        EndsWithTrimmed(route, "/index", EXTENSION);
      }
    }
    PageFileRoute(CONTENT_ROOT + n);
    assert n[..|n| - |EXTENSION|] == route;
  }

  /** Every well-formed route is the route of its own content file. */
  lemma RouteOfContentFile(route: string)
    requires WellFormedRoute(route)
    ensures ToRoute(ContentFile(route)) == route
  {
    if EndsWith(route, "/") {
      RouteOfIndexFile(route);
    } else {
      RouteOfPageFile(route);
    }
  }

  /** The normalised form of a `/`-separated file under `pages/`. */
  lemma NormalisedContentFile(file: string)
    requires StartsWith(file, CONTENT_ROOT + "/") && '\\' !in file
    ensures Normalised(file) == file[|CONTENT_ROOT|..]
    ensures file == CONTENT_ROOT + Normalised(file)
    ensures StartsWith(Normalised(file), "/")
  {
    var n := file[|CONTENT_ROOT|..];
    assert file == CONTENT_ROOT + n by {
      assert file[..|CONTENT_ROOT|] == CONTENT_ROOT;
    }
    NormalisedUnderRoot(n);
    assert n[..1] == "/" by {
      assert file[..|CONTENT_ROOT| + 1] == CONTENT_ROOT + "/";
      assert n[..1] == file[..|CONTENT_ROOT| + 1][|CONTENT_ROOT|..];
    }
  }

  /**
    Conversely, a content file written with `/` separators under `pages/` is
    the content file of its own route, unless its base name is empty
    (`.../.mdx`), which the pages router would read as an index.
   */
  lemma ContentFileOfRoute(file: string)
    requires StartsWith(file, CONTENT_ROOT + "/") && '\\' !in file
    requires EndsWith(file, EXTENSION) && !EndsWith(file, "/" + EXTENSION)
    ensures ContentFile(ToRoute(file)) == file
  {
    NormalisedContentFile(file);
    var n := Normalised(file);
    EndsWithDropped(CONTENT_ROOT, n, EXTENSION);
    if EndsWith(n, INDEX_FILE) {
      ContentFileOfIndex(file);
    } else {
      ContentFileOfPage(file);
    }
  }

  /** The index-file case of `ContentFileOfRoute`: `pages/<dir>/index.mdx` is the content file of its route `/<dir>/`. */
  lemma ContentFileOfIndex(file: string)
    requires StartsWith(file, CONTENT_ROOT + "/") && '\\' !in file
    requires EndsWith(Normalised(file), INDEX_FILE)
    ensures ContentFile(ToRoute(file)) == file
  {
    NormalisedContentFile(file);
    var n := Normalised(file);
    IndexFileRoute(file);
    IndexSplits();
    SplitSuffix(n, "/", "index.mdx");
    var route := n[..|n| - |"index.mdx"|];
    assert route[..1] == n[..1];
    assert ToRoute(file) == route;
  }

  /** The page-file case of `ContentFileOfRoute`: `pages/<path>.mdx` is the content file of its route `/<path>`. */
  lemma ContentFileOfPage(file: string)
    requires StartsWith(file, CONTENT_ROOT + "/") && '\\' !in file
    requires EndsWith(Normalised(file), EXTENSION) && !EndsWith(Normalised(file), INDEX_FILE)
    requires !EndsWith(file, "/" + EXTENSION)
    ensures ContentFile(ToRoute(file)) == file
  {
    NormalisedContentFile(file);
    var n := Normalised(file);
    PageFileRoute(file);
    var route := n[..|n| - |EXTENSION|];
    assert n == route + EXTENSION;
    assert |route| > 0 && route[..1] == n[..1];
    assert ToRoute(file) == route;
    assert !EndsWith(route, "/") by {
      if EndsWith(route, "/") {
        EndsWithExtended(route, "/", EXTENSION);
        EndsWithPrepended(CONTENT_ROOT, n, "/" + EXTENSION);
      }
    }
  }
}
