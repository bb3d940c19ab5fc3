# HTML export of ascii-image-converter, modelled in Dafny

The model covers `createHtmlToSave` in `aic_package/create_ascii_html.go`. That function:

1. Takes a grid of coloured characters (`AsciiChar`: a glyph `Simple` and an `RgbValue`).
2. Builds a self-contained HTML page. The page has a fixed header with a `#rrggbb` background literal. Each cell becomes one `<span>`, coloured inline when `colored` is set. Each row ends with `<br>`. A fixed trailer closes the page.
3. Asks the naming helper for a file name, using the suffix `-ascii-art.html`.
4. Makes sure the destination directory ends with the path separator.
5. Writes the page into that directory unless stat reports the directory missing.

Modules:

- `Wrappers` (`formatting.dfy`): `Option`.
- `Formatting` (`formatting.dfy`): Go's `%d` and `%02x` for every `int`, with the sign placed as Go places it. `ParseSigned` reads either back for every int, in base 10 or 16.
- `HtmlDocument` (`html_document.dfy`): the serialiser.
  - `Fragments` is the exact sequence of strings appended to the `strings.Builder`: the header, the cells, the `<br>`s and the trailer. `Document` is their concatenation.
  - `Builder` models the builder as a class. `WriteRows` holds the two nested loops and `BuildHtml` the whole build. Both are proved against `Document`.
  - `DecodeCell` reads a cell fragment back. It is the inverse used to show that glyphs and colours land verbatim.
- `SaveHtml` (`save_html.dfy`): the save step.
  - `NormaliseDir` adds the trailing separator.
  - `PlanSave` is the pure decision: abort with a result, or write to a target.
  - `FileSystem` is an abstract operating system: file contents by path, existing directories, and paths whose stat or write fails.
  - `CreateHtmlToSave` is the whole function, imperative, proved against `PlanSave` and `Document`.

Behaviour of the code worth knowing:

- **Empty save path.** Line 83 indexes the last byte of `saveHtmlPath`. An empty path therefore panics, but only after the naming helper has succeeded. The model gives this a result of its own, `IndexPanic`. The exporter appends the separator when it is missing, so a non-empty path without a trailing separator leads to the same outcome as the same path with one (`TrailingSeparatorIrrelevant`). The empty path is the exception: it panics, while the bare separator does not (`EmptyPathPanics`).
- **Existence check.** Line 91 writes whenever stat does NOT report "does not exist". A stat that fails for another reason, such as permission denied, still leads to a write attempt. `FileSystem.statFaults` models these cases.
- **Background literal.** For components in 0..255 the literal is `#` plus six hex digits, two per component (`BackgroundLiteralShape`). For other values `%02x` writes more digits or a minus sign, and `Hex2` models that. The literal then no longer has the `#rrggbb` form, though it can still be 7 characters long: `#-1-1-1` is one example.
- **Counting `<br>` and spans.** Glyphs are not escaped (`UnescapedGlyphsAmbiguous`). So the counts hold over the appended fragments (`FragmentCounts`), not over substrings of the page: a glyph may itself contain `<br>` or `<span>`.

## Model

| member | source | states |
|---|---|---|
| `Formatting.NatDigits` | aic_package/create_ascii_html.go:33 | the digits of a natural number in a base up to 16 are lower-case digits of that base, with no leading zero |
| `Formatting.NatDigitsRoundTrip` | aic_package/create_ascii_html.go:33 | reading the digits back gives the number again |
| `Formatting.FormatDecimal` | aic_package/create_ascii_html.go:59-61 | `%d` of an int: a minus sign exactly for negative values, then decimal digits with no leading zero, `0` for zero and never `-0` |
| `Formatting.DecimalRoundTrip` | aic_package/create_ascii_html.go:59-61 | reading `%d` back as a signed decimal gives the same int, negative values included |
| `Formatting.Hex2RoundTrip` | aic_package/create_ascii_html.go:33 | reading `%02x` back as a signed hex number gives the same int, for every int |
| `Formatting.Hex2` | aic_package/create_ascii_html.go:33 | `%02x` of any int is at least two characters wide |
| `Formatting.Hex2Byte` | aic_package/create_ascii_html.go:33 | for 0..255, `%02x` gives exactly two lower-case hex digits that denote the value |
| `HtmlDocument.BackgroundLiteral` | aic_package/create_ascii_html.go:33 | the background literal starts with `#` and is at least 7 characters long |
| `HtmlDocument.BackgroundLiteralShape` | aic_package/create_ascii_html.go:33 | for components in 0..255 the literal is `#` plus six lower-case hex digits, whose pairs denote red, green and blue in that order |
| `HtmlDocument.AlphaIgnored` | aic_package/create_ascii_html.go:33 | changing the fourth background component never changes the page |
| `HtmlDocument.DocumentLayout` | aic_package/create_ascii_html.go:36-75 | the page is the header with the literal in the `%s` slot, then the row fragments in order, then `</pre></body></html>`; an empty grid gives header plus trailer |
| `HtmlDocument.Document` | aic_package/create_ascii_html.go:31-75 | the page, as the concatenation of everything appended, always starts with the header and ends with the trailer |
| `HtmlDocument.Fragments` | aic_package/create_ascii_html.go:31-75 | the appends number the cells plus the rows plus two; the first is the header with the literal, the last is the trailer |
| `HtmlDocument.FragmentCounts` | aic_package/create_ascii_html.go:53-72 | the row fragments number the cells plus the rows; exactly one per row is `<br>`; all others are spans, so the spans number the cells |
| `HtmlDocument.FragmentAt` | aic_package/create_ascii_html.go:53-72 | row-major order: cell j of row i sits at fragment RowStart(i)+j, and the `<br>` of row i comes right after its last cell |
| `HtmlDocument.PlainSpan` | aic_package/create_ascii_html.go:63-67 | the monochrome span is span-shaped, is not a `<br>`, and decodes to its glyph, verbatim, with no colour attached |
| `HtmlDocument.ColoredSpan` | aic_package/create_ascii_html.go:58-62 | the coloured span is span-shaped, is not a `<br>`, and decodes to its glyph, verbatim, and to exactly its red, green and blue, in that order, in decimal |
| `HtmlDocument.CellHtml` | aic_package/create_ascii_html.go:58-68 | every cell fragment opens with `<span`, closes with `</span>`, is never a `<br>`, and decodes back to the cell's glyph, and to its colour exactly when `colored` is set |
| `HtmlDocument.MonochromeDocumentIgnoresColour` | aic_package/create_ascii_html.go:63-67 | in monochrome mode two grids with the same glyphs give the same page, whatever their colours |
| `HtmlDocument.UnescapedGlyphsAmbiguous` | aic_package/create_ascii_html.go:63-67 | glyphs are not escaped: one cell whose glyph holds `</span><span>` renders like two cells |
| `HtmlDocument.Builder.WriteString` | aic_package/create_ascii_html.go:31 | appending to the builder extends its text by exactly the appended string |
| `HtmlDocument.WriteRows` | aic_package/create_ascii_html.go:53-72 | the nested loops append exactly the row fragments of the grid to the builder, in order |
| `HtmlDocument.BuildHtml` | aic_package/create_ascii_html.go:31-75 | the built string is the page `Document` of the grid, the mode and the background |
| `SaveHtml.NormaliseDir` | aic_package/create_ascii_html.go:83-88 | the result ends with the separator; it is the path extended by at most one character; a path already ending with the separator is unchanged |
| `SaveHtml.NormaliseIdempotent` | aic_package/create_ascii_html.go:83-88 | normalising twice is normalising once |
| `SaveHtml.NormaliseAppendsOne` | aic_package/create_ascii_html.go:86-88 | a path without a trailing separator gets exactly one appended |
| `SaveHtml.PlanSave` | aic_package/create_ascii_html.go:78-101 | the decision never reports success without a write, and it panics exactly when the helper named the file and the path is empty |
| `SaveHtml.PlanSaveWrites` | aic_package/create_ascii_html.go:78-101 | a write is planned if and only if the helper named the file, the path is non-empty and stat does not report the normalised directory missing; the target is that directory followed by the file name |
| `SaveHtml.PlanSaveFailures` | aic_package/create_ascii_html.go:78-101 | the helper's error is returned unchanged, text included, whatever the path; an empty path panics; a missing directory gives the error `save path <dir> does not exist` with the normalised directory |
| `SaveHtml.DestinationMessageInjective` | aic_package/create_ascii_html.go:100 | the "does not exist" message determines its path: different paths give different messages |
| `SaveHtml.TrailingSeparatorIrrelevant` | aic_package/create_ascii_html.go:83-91 | for a non-empty path, adding the missing separator, or normalising first, leads to the same decision |
| `SaveHtml.EmptyPathPanics` | aic_package/create_ascii_html.go:83 | the empty path panics once the file is named, while the bare separator does not |
| `SaveHtml.FileSystem.Stat` | aic_package/create_ascii_html.go:91 | stat finds exactly the existing directories; it reports a fault with its cause, and "does not exist" exactly when the path is neither a directory nor a faulting path |
| `SaveHtml.FileSystem.WriteFile` | aic_package/create_ascii_html.go:92 | a successful write replaces the target's whole content and changes nothing else; a failed write returns its error and changes nothing |
| `SaveHtml.CreateHtmlToSave` | aic_package/create_ascii_html.go:30-102 | follows `PlanSave`: on a naming error, a panic or a missing directory nothing is written and nothing is printed. Otherwise exactly one write of the full page happens at the normalised directory plus the file name, overwriting earlier content. Its error is returned if it fails; on success the result is nil, with `Saved <path>` printed when `onlySave` is set |

## Left out

- `os.Stat` and `os.WriteFile` are I/O. They are modelled by `FileSystem`: a map of contents, a set of existing directories, and the paths whose stat or write fails. OS error kinds are reduced to "missing" versus "another error, carried as text".
- `FileSystem.WriteFile`: a failed write leaves the file map unchanged. A real `os.WriteFile` may have truncated the file before failing, and the model does not capture that.
- The 0666 permission bits are not modelled, because they only concern the operating system.
- `fmt.Println` on success is modelled as the returned `stdout` text (`Saved <path>` and a newline), not as an effect.
- A Go runtime panic is modelled as the result value `IndexPanic`, not as unwinding.
- The naming helper `createSaveFileName` is not part of this model. It is a function parameter; the model only shows that it is called with `-ascii-art.html`.
- `os.PathSeparator` depends on the platform, so it is the parameter `sep`.
- Go strings are byte strings; the model uses character sequences. Line 83 compares `string(lastByte)` with the separator, which agrees with comparing characters for an ASCII separator.
- `AsciiChar` fields other than `Simple` and `RgbValue`, and the image-to-ASCII pipeline that fills the grid, are not part of this model.
- The growth and allocation behaviour of `strings.Builder` is not modelled; only its text is.
- Concurrent exports to the same path are not modelled: the core is single-threaded and coordinates none.
- The element type of `RgbValue` is declared in `imgManip`, which is not part of this model. The components are plain ints, formatted with `%d` for every value, negative ones included.
