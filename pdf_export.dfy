/**
  The render-and-merge part of the documentation PDF export script: each route
  is visited in a browser tab, printed to a PDF file in a temporary directory
  named after the route, and that file is handed to the PDF merger, in the
  order the routes were derived.
 */
module PdfExport {
  import opened Strings
  import opened Routes

  /** The locally running site every route is rendered from. */
  const BASE_URL := "http://localhost:3000"
  /** The file name given to the root route. */
  const HOME := "home"
  /** The extension of every rendered page file. */
  const PDF_EXTENSION := ".pdf"

  /** The file name a route is printed to, without its extension. */
  function Sanitize(route: string): (name: string)
    ensures '/' !in name
    ensures route == "/" ==> name == HOME
    ensures route != "/" && route != "" ==> |name| == |route| - 1
  {
    if route == "/" then HOME
    else
      // `route.slice(1)` is empty for an empty route
      var rest := if route == "" then "" else route[1..];
      ReplaceAllRemoves(rest, '/', '_');
      ReplaceAll(rest, '/', '_')
  }

  /**
    Any route but `/` loses its first character, and every `/` after it
    becomes `_` while every other character stays in its place.
   */
  lemma SanitizeAt(route: string, i: nat)
    requires route != "/" && i + 1 < |route|
    ensures Sanitize(route)[i] == if route[i + 1] == '/' then '_' else route[i + 1]
  {
    ReplaceAllAt(route[1..], '/', '_', i);
  }

  /**
    Among routes that start with `/` and hold no `_`, two different routes get
    the same file name only when they are `/` and `/home`.
   */
  lemma SanitizeCollision(r1: string, r2: string)
    requires StartsWith(r1, "/") && StartsWith(r2, "/")
    requires '_' !in r1 && '_' !in r2
    requires r1 != r2 && Sanitize(r1) == Sanitize(r2)
    ensures {r1, r2} == {"/", "/home"}
  {
    assert r1 == r1[..1] + r1[1..] && r2 == r2[..1] + r2[1..];
    NotInTail(r1, '_');
    NotInTail(r2, '_');
    ReplaceAllAbsent(HOME, '/', '_');
    assert "/" + HOME == "/home";
    if r1 == "/" {
      ReplaceAllInjective(r2[1..], HOME, '/', '_');
      assert r2 == "/" + HOME;
    } else if r2 == "/" {
      ReplaceAllInjective(r1[1..], HOME, '/', '_');
      assert r1 == "/" + HOME;
    } else {
      ReplaceAllInjective(r1[1..], r2[1..], '/', '_');
    }
  }

  /** `/` and `/home` are both printed to `home.pdf`. */
  lemma RootAndHomeCollide()
    ensures Sanitize("/") == Sanitize("/home")
  {
    ReplaceAllAbsent(HOME, '/', '_');
  }

  /** `/a/b` and `/a_b` are both printed to `a_b.pdf`. */
  lemma SeparatorAndUnderscoreCollide()
    ensures Sanitize("/a/b") == Sanitize("/a_b")
  {
    ReplaceAllAt("a/b", '/', '_', 1);
    ReplaceAllAbsent("a_b", '/', '_');
  }

  /** `path.join(dir, name)`, taken as plain concatenation with one separator. */
  function Join(dir: string, name: string): string {
    dir + "/" + name
  }

  /** The path the script prints a route to and hands to the merger. */
  function PdfPath(tempDir: string, route: string): (path: string)
    ensures StartsWith(path, tempDir + "/")
    ensures EndsWith(path, PDF_EXTENSION)
  {
    var path := Join(tempDir, Sanitize(route) + PDF_EXTENSION);
    assert path[..|tempDir| + 1] == tempDir + "/";
    EndsWithAppended(tempDir + "/" + Sanitize(route), PDF_EXTENSION);
    path
  }

  /**
    What follows the temporary directory and its separator is one file name,
    the sanitised route with `.pdf`, holding no further `/`.
   */
  lemma PdfPathShape(tempDir: string, route: string)
    ensures PdfPath(tempDir, route)[|tempDir| + 1..] == Sanitize(route) + PDF_EXTENSION
    ensures '/' !in PdfPath(tempDir, route)[|tempDir| + 1..]
  {
    var name := Sanitize(route) + PDF_EXTENSION;
    assert PdfPath(tempDir, route) == (tempDir + "/") + name;
    assert '/' !in PDF_EXTENSION;
  }

  /** Two routes share a path exactly when they share a sanitised name. */
  lemma PdfPathsCollide(tempDir: string, r1: string, r2: string)
    ensures PdfPath(tempDir, r1) == PdfPath(tempDir, r2) <==> Sanitize(r1) == Sanitize(r2)
  {
    var n1, n2 := Sanitize(r1) + PDF_EXTENSION, Sanitize(r2) + PDF_EXTENSION;
    if PdfPath(tempDir, r1) == PdfPath(tempDir, r2) {
      var dir := tempDir + "/";
      assert (dir + n1)[|dir|..] == n1 && (dir + n2)[|dir|..] == n2;
      assert n1[..|n1| - |PDF_EXTENSION|] == Sanitize(r1);
      assert n2[..|n2| - |PDF_EXTENSION|] == Sanitize(r2);
    }
  }

  /** The browser tab the script drives; it keeps the addresses it was sent to. */
  class Page {
    var visited: seq<string>

    constructor ()
      ensures visited == []
    {
      visited := [];
    }

    /** `page.goto(url)`: the tab loads `url` after everything it loaded before. */
    method Goto(url: string)
      modifies this
      ensures visited == old(visited) + [url]
    {
      visited := visited + [url];
    }
  }

  /** The PDF merger; it keeps the files handed to it, in order. */
  class PdfMerger {
    var files: seq<string>

    constructor ()
      ensures files == []
    {
      files := [];
    }

    /** `merger.add(path)`: `path` is handed to the merger after every earlier path. */
    method Add(path: string)
      modifies this
      ensures files == old(files) + [path]
    {
      files := files + [path];
    }
  }

  /**
    The render loop over the derived routes: the tab visits one URL per route
    and the merger receives one rendered file per route, both in the order of
    `routes`. Returns the URLs visited and the files handed to the merger.
   */
  method RenderRoutes(routes: seq<string>, tempDir: string)
    returns (visited: seq<string>, merged: seq<string>)
    ensures |visited| == |routes| && |merged| == |routes|
    ensures forall i :: 0 <= i < |routes| ==> visited[i] == BASE_URL + routes[i]
    ensures forall i :: 0 <= i < |routes| ==> merged[i] == PdfPath(tempDir, routes[i])
  {
    var page := new Page();
    var merger := new PdfMerger();
    for i := 0 to |routes|
      invariant |page.visited| == i && |merger.files| == i
      invariant forall k :: 0 <= k < i ==> page.visited[k] == BASE_URL + routes[k]
      invariant forall k :: 0 <= k < i ==> merger.files[k] == PdfPath(tempDir, routes[k])
    {
      var route := routes[i];
      var url := BASE_URL + route;
      page.Goto(url);
      var sanitized := Sanitize(route);
      var pdfPath := Join(tempDir, sanitized + PDF_EXTENSION);
      merger.Add(pdfPath);
    }
    visited := page.visited;
    merged := merger.files;
  }

  /**
    Distinct routes that start with `/` and hold no `_` are printed to distinct
    paths, unless both `/` and `/home` are among them: then the second
    `page.pdf` writes over the first one's `home.pdf` and the merger is handed
    that same path twice.
   */
  lemma DistinctFilesUnlessHome(tempDir: string, routes: seq<string>)
    requires forall i :: 0 <= i < |routes| ==> StartsWith(routes[i], "/") && '_' !in routes[i]
    requires forall i, j :: 0 <= i < j < |routes| ==> routes[i] != routes[j]
    ensures ("/" in routes && "/home" in routes) <==>
            exists i, j :: 0 <= i < j < |routes| && PdfPath(tempDir, routes[i]) == PdfPath(tempDir, routes[j])
  {
    if "/" in routes && "/home" in routes {
      var i :| 0 <= i < |routes| && routes[i] == "/";
      var j :| 0 <= j < |routes| && routes[j] == "/home";
      RootAndHomeCollide();
      PdfPathsCollide(tempDir, routes[i], routes[j]);
      if i < j {
        assert PdfPath(tempDir, routes[i]) == PdfPath(tempDir, routes[j]);
      } else {
        assert PdfPath(tempDir, routes[j]) == PdfPath(tempDir, routes[i]);
      }
    } else {
      forall i, j | 0 <= i < j < |routes|
        ensures PdfPath(tempDir, routes[i]) != PdfPath(tempDir, routes[j])
      {
        PdfPathsCollide(tempDir, routes[i], routes[j]);
        if Sanitize(routes[i]) == Sanitize(routes[j]) {
          SanitizeCollision(routes[i], routes[j]);
        }
      }
    }
  }
}
