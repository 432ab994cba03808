# latex-formula-to-image, modelled in Dafny

`getformula.py` renders one LaTeX formula to a cropped PNG. It works in four steps:

1. It fills a fixed LaTeX document template with the formula.
2. It runs `pdflatex`.
3. It rasterises the PDF at 500 DPI.
4. It crops each page to the box around its non-white pixels, then saves the page as `formulas/formula-<n>.png`.

This project models the three computations inside `main`. Everything around them is file and process I/O.

- **Cropping** (`cropping.dfy`): the crop box of lines 65-66.
  - A page is a `Page` value: its width, its height and its RGB pixels in row-major order.
  - The pixel at `(x, y)` is read at flat index `x + y*width`.
  - The product is written as `Times`, which is repeated addition. This keeps the solver in linear arithmetic. `TimesIsProduct` proves `Times` equals `*`, and `Pixel` states its index with `*`.
  - `NonWhitePositions` is the filtered comprehension, with `x` as the outer loop.
  - `BoundingBox` takes Python's `min`/`max` of the x and y coordinates.
  - It returns `None` where the source would raise on `min([])`, i.e. on an all-white page.
- **Template** (`template.dfy`): the `%(formula)s` fill of lines 18-43.
  - `Format` models Python's `str % mapping` for the directives `%%` and `%(key)s`, including the errors those raise.
  - The template is the document text of lines 18-38, character for character.
- **OutputName** (`output_name.dfy`): the name `formula-<n>.png` of lines 60-61.
  - The name is a pure function of the count `n` of PNG files already in the output directory.
- **Wrappers** (`wrappers.dfy`): `Option` and `Result`.

The box is cropped with no inset. The all-white page is not guarded; the model returns `None` for it.

## Model

| member | source | states |
|---|---|---|
| `Cropping.TimesIsProduct` | getformula.py:65 | `Times(n, w)`, the repeated addition that sizes and indexes the pixel data, equals `n*w` |
| `Cropping.FlatIndexInBounds` | getformula.py:65 | for `x < width` and `y < height`, the index `x + y*width` is inside the `width*height` pixel data |
| `Cropping.FlatIndexInjective` | getformula.py:65 | distinct positions of the page are read at distinct flat indices: `x + y*w` determines `x` and `y` |
| `Cropping.Pixel` | getformula.py:65 | the pixel at `(x, y)` is element `x + y*width` of the pixel data, an index that is in range |
| `Cropping.NonWhite` | getformula.py:65 | the filter of the comprehension: holds exactly when element `x + y*width` of the pixel data, an index in range, differs from `(255,255,255)` (the product written as `Times`) |
| `Cropping.NonWhitePositions` | getformula.py:65 | the comprehension's list is in scan order (x outermost, then y, both increasing), so no position appears twice |
| `Cropping.PositionsMembers` | getformula.py:65 | `(x, y)` is in the comprehension's list iff it lies in `range(width) × range(height)` and its pixel differs from `(255,255,255)` |
| `Cropping.Xs` | getformula.py:66 | `[x for x,y in ps]` has one entry per position, and its values are exactly the first coordinates of the positions |
| `Cropping.Ys` | getformula.py:66 | `[y for x,y in ps]` has one entry per position, and its values are exactly the second coordinates of the positions |
| `Cropping.Min` | getformula.py:66 | Python's `min` of a non-empty list is an element of the list and is no larger than any element |
| `Cropping.Max` | getformula.py:66 | Python's `max` of a non-empty list is an element of the list and is no smaller than any element |
| `Cropping.BoundingBox` | getformula.py:65-66 | no box (`min` raises) iff every pixel is pure white; otherwise the box contains every non-white pixel, bounds included, and each of left, right, top and bottom is the coordinate of some non-white pixel |
| `Cropping.BoundingBoxInsidePage` | getformula.py:65-66 | the box lies in the page: `0 <= left <= right < width` and `0 <= top <= bottom < height` |
| `Cropping.TightBoxUnique` | getformula.py:66 | two boxes that both enclose the content and reach it on all four sides are equal, so the box is exactly `(min x, min y, max x, max y)` with inclusive maxima |
| `Cropping.BoundingBoxMinimal` | getformula.py:66 | every box that encloses all non-white pixels contains the computed box |
| `Cropping.CropAsWrittenDropsEdges` | getformula.py:66-67 | Pillow's crop treats right and bottom as exclusive, so with the box as written some non-white pixel of column `right` and some of row `bottom` are not kept |
| `Cropping.CropAsWrittenDotExample` | getformula.py:66-67 | on a 3×3 page whose only non-white pixel is the centre, the box is `(1,1,1,1)` and cropping to it keeps no pixel at all |
| `Cropping.CropRect` | getformula.py:66-67 | the corrected crop rectangle keeps exactly the pixels with `left <= x <= right` and `top <= y <= bottom` |
| `Cropping.CropRectKeepsContent` | getformula.py:66-67 | the corrected rectangle keeps every non-white pixel, is non-empty and inside the page, and lies within every rectangle that keeps all non-white pixels |
| `Template.Format` | getformula.py:43 | Python's `template % mapping`. `%%` gives `%`. `%(key)s` gives the mapping's value. A `%` at the end, or after `%(key)`, fails with `ValueError` "incomplete format". A `%(` without `)` fails with "incomplete format key". A missing key fails with `KeyError`, and the key it names is indeed absent. Any other directive fails as `UnsupportedDirective`. Every failure needs a `%` in the template |
| `Template.KeyEnd` | getformula.py:43 | the key of a `%(` directive ends at the first `)` after it; no `)` comes before that point |
| `Template.FormatPlainPrefix` | getformula.py:43 | text without `%` is copied unchanged by formatting, in front of whatever follows |
| `Template.FormatKeyed` | getformula.py:43 | `%(key)s` is replaced by the mapping's value verbatim, or formatting fails with `KeyError(key)` when the key is missing |
| `Template.FormatSingleKey` | getformula.py:43 | a template whose only `%` is a single `%(key)s` formats to the text before it, then the value, then the text after it; with the key missing it fails with `KeyError(key)` |
| `Template.HeadPlain` | getformula.py:18-35 | the template text before the placeholder contains no `%` |
| `Template.ClosingPlain` | getformula.py:35-38 | the template text after the placeholder contains no `%` |
| `Template.TemplateFill` | getformula.py:18-43 | with a `"formula"` entry in the mapping, the document is the template with `%(formula)s` replaced by that entry verbatim, and nothing else changes; without one, formatting fails with `KeyError('formula')` |
| `Template.RenderDocument` | getformula.py:42-43 | the text written to `formula.tex` is the head of the template, then the unescaped formula, then the closing |
| `Template.RenderDocumentInjective` | getformula.py:43 | different formulas give different documents |
| `OutputName.Decimal` | getformula.py:61 | `str(n)` is a non-empty string of decimal digits with no leading zero except in `"0"` |
| `OutputName.DecimalValue` | getformula.py:61 | reading `str(n)` back as decimal gives `n` |
| `OutputName.CanonicalIsDecimal` | getformula.py:61 | every canonical decimal numeral is the `str` of its value |
| `OutputName.FileName` | getformula.py:60-61 | the name begins with `formula-` and ends with `.png`, and it does not begin with `.`, so the `*.png` count of a later run includes it |
| `OutputName.FileNameRoundTrip` | getformula.py:61 | the index `n` is recovered from `formula-<n>.png` |
| `OutputName.ParseFileNameExact` | getformula.py:61 | a name that parses to `n` is exactly `formula-<n>.png` |
| `OutputName.FileNameInjective` | getformula.py:60-61 | different counts give different names |
| `OutputName.SequentialNaming` | getformula.py:60-61 | when the directory holds exactly the names of runs `0..n-1`, it holds `n` PNG files, run `n` writes a name not yet present, and afterwards the directory holds exactly the names of runs `0..n` |

## Findings

| source | as written | input that shows it | evidently intended | confidence | as-written member | corrected member |
|---|---|---|---|---|---|---|
| getformula.py:66-67 | the inclusive maxima `(max x, max y)` are passed as the right and lower bounds of Pillow's `Image.crop`, which excludes those bounds, so the last non-white column and row are cut off | a 3×3 page whose only non-white pixel is `(1,1)`: the box is `(1,1,1,1)`, and the crop keeps nothing | crop to `(min x, min y, max x + 1, max y + 1)` | medium; not executed; relies on Pillow's documented half-open crop box | `Cropping.CropAsWrittenDropsEdges`, `Cropping.CropAsWrittenDotExample` | `Cropping.CropRect`, `Cropping.CropRectKeepsContent` |

## Left out

- Argument parsing (getformula.py:40, 71-75). The model takes the formula string, or the argument mapping, as a parameter.
- Directory creation, writing `formula.tex`, and the deletion of the tex, log, aux and pdf files (getformula.py:14-15, 42-43, 52, 55-57, 69). These are filesystem I/O.
- The `pdflatex` subprocess and its exit-code check (getformula.py:45-53). This is an external process.
- Rasterisation with `convert_from_path` at 500 DPI (getformula.py:59). The rasterised page is an input of the model.
- Pillow's `crop` and `save` (getformula.py:67). Only the box handed to `crop` is modelled. For the finding above, only which pixel positions the crop keeps is modelled, not the cropped image.
- `glob.glob1` counting (getformula.py:60). The count is an input of `OutputName.FileName`.
- The page loop (getformula.py:63). Every page is written to the same file, so the last page wins; this overwrite is file I/O. The model computes the box of one page.
- Pixel modes other than RGB. The model assumes `getdata()` yields `(r, g, b)` triples, as it does for the RGB pages that pdf2image returns.
- Template.Format: only `%%` and `%(key)s` are modelled. Python also accepts flags, width, precision and other conversions after the key, and unkeyed directives, which it applies to the whole mapping. The model reports all of these as `UnsupportedDirective`. The template holds none of them.
- Template.KeyEnd: a key ends at the first `)`. Python counts nested parentheses inside a key. The template's only key, `formula`, has none.
- The unused imports `cv2` and `numpy` (getformula.py:2, 6).
