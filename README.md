# Documentation PDF export, modelled in Dafny

The repository is a Next.js/Nextra documentation site. Its only program logic
is the script `old-docs/scripts/generate-doc-pdf.js`. The script globs every
`pages/**/*.mdx` content file and turns each path into a route. It then opens
`http://localhost:3000<route>` in a headless browser tab and prints the page
to a PDF in a temporary directory. The PDF is named after the route. Each
printed file goes to a PDF merger in route order.

This project models the three parts of that script that are logic rather
than I/O:

- **Route derivation** (module `Routes`, `routes.dfy`). Four replacements
  run in this order: drop a leading `pages`, turn every `\`
  into `/`, turn a trailing `/index.mdx` into `/`, drop a trailing `.mdx`.
  Then a leading `/` is added if the result lacks one. Each JavaScript
  `replace` is a small string function in module `Strings` (`strings.dfy`):
  `StripPrefix` for `^pages`, `ReplaceAll` for the `g`-flagged single
  character, and `ReplaceSuffix` for the `$`-anchored literals.
- **File-name sanitising** (module `PdfExport`, `pdf_export.dfy`). Route `/`
  becomes `home`. Any other route loses its first character and has every
  `/` turned into `_`. `.pdf` is appended and the name is joined to the
  temporary directory.
- **The render/merge loop** (`PdfExport.RenderRoutes`). It is a method over
  two objects it allocates: a `Page` (the browser tab, which records the
  URLs it is sent to) and a `PdfMerger` (which records the files added to
  it, in order). Its postcondition ties the i-th URL and the i-th merged
  file to the i-th route.

Beyond the script's own steps, the model gives route derivation a partner:
`ContentFile`, the pages-router convention that says which file serves a
route. Two lemmas show that derivation undoes it and it undoes derivation,
within stated bounds. The sanitiser's collisions are characterised exactly.
Among routes without `_`, only `/` and `/home` share a path (both become
`home.pdf`). In that case the merger is handed the same path twice.

Examples covered by the lemmas: `pages/index.mdx` gives `/`, and
`pages/getting-started/index.mdx` gives `/getting-started/`. Both are
instances of `RouteOfIndexFile`. `pages/api/users.mdx` gives `/api/users`, an
instance of `RouteOfPageFile`. A path ending in `.mdx.mdx` keeps one `.mdx`
(`DoubleExtensionRoute`).

## Model

| member | source | states |
|---|---|---|
| `Strings.StripPrefix` | old-docs/scripts/generate-doc-pdf.js:15 | `replace(/^pages/, "")`: if the input starts with the prefix, prefix + result is the input; otherwise the input comes back unchanged |
| `Strings.ReplaceAll` | old-docs/scripts/generate-doc-pdf.js:16 | `replace(/\\/g, "/")` keeps the length; with `ReplaceAllAt` every position is fixed, and `ReplaceAllRemoves`, `ReplaceAllAbsent` and `ReplaceAllInjective` follow from that |
| `Strings.ReplaceAllAt` | old-docs/scripts/generate-doc-pdf.js:16 | `replace(/\\/g, "/")`: every position of the result holds the replacement where the input held the searched character, and the input's character everywhere else |
| `Strings.ReplaceAllRemoves` | old-docs/scripts/generate-doc-pdf.js:16 | after a global replacement of one character by a different one, that character no longer occurs |
| `Strings.ReplaceSuffix` | old-docs/scripts/generate-doc-pdf.js:17-18 | a `$`-anchored replacement leaves a string that lacks the suffix unchanged; when the suffix is there, the result's length is the input's minus the suffix plus the replacement |
| `Strings.ReplaceSuffixInverse` | old-docs/scripts/generate-doc-pdf.js:17-18 | after the anchored replacement, the result ends in the replacement, and replacing that back gives the original input, so nothing but the one suffix changes |
| `Routes.Normalised` | old-docs/scripts/generate-doc-pdf.js:15-16 | after the prefix strip and separator fix, no `\` is left |
| `Routes.Body` | old-docs/scripts/generate-doc-pdf.js:17-18 | after the two `$`-anchored edits no `\` is left; `IndexFileRoute`, `PageFileRoute` and `OtherFileRoute` give its value in each of the three cases |
| `Routes.Rooted` | old-docs/scripts/generate-doc-pdf.js:19 | the result starts with `/`; a string already starting with `/` is returned as it is, any other gets exactly one `/` in front |
| `Routes.ToRoute` | old-docs/scripts/generate-doc-pdf.js:13-20 | every derived route is non-empty, begins with `/` and contains no `\` |
| `Routes.DeriveRoutes` | old-docs/scripts/generate-doc-pdf.js:13 | `mdxFiles.map(...)`: one route per file, same length, the i-th route derived from the i-th file |
| `Routes.StripsOnlyLeadingRoot` | old-docs/scripts/generate-doc-pdf.js:15-16 | exactly one leading `pages` is removed; whatever follows it, including another `pages`, is kept with only its separators normalised |
| `Routes.KeepsOtherPrefix` | old-docs/scripts/generate-doc-pdf.js:15-18 | a path that does not start with `pages` keeps all but its last ten characters, with only `\` turned into `/` |
| `Routes.IndexFileRoute` | old-docs/scripts/generate-doc-pdf.js:17-19 | an input whose normalised form ends in `/index.mdx` gives a route ending in `/`: the normalised path without `index.mdx`, rooted |
| `Routes.PageFileRoute` | old-docs/scripts/generate-doc-pdf.js:18-19 | any other `.mdx` input loses exactly its one trailing `.mdx` |
| `Routes.DoubleExtensionRoute` | old-docs/scripts/generate-doc-pdf.js:18 | only one extension goes: an input ending in `.mdx.mdx` yields a route still ending in `.mdx` |
| `Routes.OtherFileRoute` | old-docs/scripts/generate-doc-pdf.js:17-19 | an input without the `.mdx` extension keeps its whole normalised path |
| `Routes.RootedKeepsSuffix` | old-docs/scripts/generate-doc-pdf.js:19 | adding the leading `/` never changes how the route ends |
| `Routes.ContentFile` | old-docs/scripts/generate-doc-pdf.js:12-13 | the content file a route is served from starts with `pages` followed by the route and ends in `.mdx` |
| `Routes.RouteOfIndexFile` | old-docs/scripts/generate-doc-pdf.js:13-20 | a route ending in `/` is derived back from `pages<route>index.mdx` |
| `Routes.RouteOfPageFile` | old-docs/scripts/generate-doc-pdf.js:13-20 | a route not ending in `/` or `/index` is derived back from `pages<route>.mdx` |
| `Routes.RouteOfContentFile` | old-docs/scripts/generate-doc-pdf.js:13-20 | every well-formed route (leading `/`, no `\`, not ending in `/index`) is the route of its own content file |
| `Routes.NormalisedContentFile` | old-docs/scripts/generate-doc-pdf.js:15-16 | a `/`-separated path under `pages/` normalises to its part after `pages`, which starts with `/` |
| `Routes.ContentFileOfRoute` | old-docs/scripts/generate-doc-pdf.js:13-20 | a `/`-separated `.mdx` file under `pages/` with a non-empty base name is the content file of its own route |
| `Routes.ContentFileOfIndex` | old-docs/scripts/generate-doc-pdf.js:17-19 | the index-file half of `ContentFileOfRoute` |
| `Routes.ContentFileOfPage` | old-docs/scripts/generate-doc-pdf.js:18-19 | the page-file half of `ContentFileOfRoute` |
| `PdfExport.Sanitize` | old-docs/scripts/generate-doc-pdf.js:43-44 | the file name never contains `/`; route `/` maps to `home`; any other non-empty route gives a name exactly one character shorter |
| `PdfExport.SanitizeAt` | old-docs/scripts/generate-doc-pdf.js:44 | for a route other than `/`, name position i is route position i+1, with `/` turned into `_` |
| `PdfExport.SanitizeCollision` | old-docs/scripts/generate-doc-pdf.js:43-44 | among routes starting with `/` and free of `_`, two different routes share a name only when they are `/` and `/home` |
| `PdfExport.RootAndHomeCollide` | old-docs/scripts/generate-doc-pdf.js:43-44 | `/` and `/home` are both named `home` |
| `PdfExport.SeparatorAndUnderscoreCollide` | old-docs/scripts/generate-doc-pdf.js:44 | `/a/b` and `/a_b` are both named `a_b`, so the sanitiser is not injective |
| `PdfExport.PdfPath` | old-docs/scripts/generate-doc-pdf.js:43-45 | every rendered path starts with the temporary directory and a separator and ends in `.pdf` |
| `PdfExport.PdfPathShape` | old-docs/scripts/generate-doc-pdf.js:45 | after the temporary directory and its separator comes exactly the sanitised name with `.pdf`, holding no further `/` |
| `PdfExport.PdfPathsCollide` | old-docs/scripts/generate-doc-pdf.js:43-45 | two routes are printed to the same path exactly when their sanitised names are equal |
| `PdfExport.Page.constructor` | old-docs/scripts/generate-doc-pdf.js:29 | a new tab has visited nothing |
| `PdfExport.Page.Goto` | old-docs/scripts/generate-doc-pdf.js:41 | the tab's visits are the earlier ones followed by the new URL |
| `PdfExport.PdfMerger.constructor` | old-docs/scripts/generate-doc-pdf.js:33 | a new merger holds no files |
| `PdfExport.PdfMerger.Add` | old-docs/scripts/generate-doc-pdf.js:48 | the merger's files are the earlier ones followed by the new path |
| `PdfExport.RenderRoutes` | old-docs/scripts/generate-doc-pdf.js:38-49 | one visit and one merged file per route, in `routes` order: the i-th URL is `http://localhost:3000` + `routes[i]`, the i-th file is the sanitised path of `routes[i]` |
| `PdfExport.DistinctFilesUnlessHome` | old-docs/scripts/generate-doc-pdf.js:38-49 | for distinct `_`-free rooted routes, two routes share a merged path exactly when both `/` and `/home` are present |

## Left out

- Puppeteer (`old-docs/scripts/generate-doc-pdf.js:23-30`, `41`, `47`): launching the browser, the hard-coded Chrome path, the viewport, waiting for network idle, and printing a page to PDF are browser I/O. `Page` keeps only the order of the URLs the tab is sent to.
- `globby` (line 12): file-system discovery whose order is not visible here. Its result is the arbitrary input sequence of `DeriveRoutes`.
- `fs.existsSync` / `fs.mkdirSync` and `__dirname` (lines 8-9, 34-35): file-system calls. The temporary directory is a parameter of `RenderRoutes` and `PdfPath`.
- `PdfExport.Join`: `path.join` is modelled as `dir + "/" + name`, without the library's normalisation of `.`, `..` or doubled separators. On Windows, which the hard-coded Chrome path at lines 24-25 targets, `path.join` separates with `\` and the file system ignores case, so `/Home` and `/` also print to one file. `SanitizeCollision` and `DistinctFilesUnlessHome` speak of equal path strings, not of one file on a case-insensitive file system.
- `PDFMerger.save`, the output path, console logging, `browser.close` and `server.stop()` (lines 40, 52-59): I/O and teardown. `server` is never defined in the file, so line 59 would throw once the merged file has been written. Printing and saving are left out. When both `/` and `/home` are rendered, the second `page.pdf` writes over the first one's `home.pdf`, and the merger is handed that same path twice (`DistinctFilesUnlessHome`). Whether a page is then missing from the merged document depends on when `PDFMerger` reads an added file, which the model does not capture.
- `PdfExport.PdfMerger.Add`: line 48 calls `merger.add(pdfPath)` without `await`, unlike every other library call in the loop. The model treats the order of the `add` calls as the merge order, and does not model an asynchronous `add` finishing out of order or after `merger.save` starts.
- Failure of a navigation or a print (an exception that aborts the whole run) is not modelled, because it comes only from the browser calls left out above.
- `old-docs/theme.config.tsx`, `old-docs/pages/_document.tsx`, `old-docs/pages/_app.tsx`, `old-docs/pages/_meta.tsx` and `old-docs/next.config.js` are declarative site configuration and React components with no logic to model.
- The route derivation is not idempotent, and the model does not claim it is. A route that itself ends in `.mdx` changes when derived again. The round trip that does hold goes through `ContentFile` (`RouteOfContentFile`).
- The code removes only a trailing `/index.mdx`; a path ending in a bare `/index` keeps it. `^pages` has no word boundary, so `pagesfoo/x.mdx` gives `/foo/x`. The model follows the code in both cases.
