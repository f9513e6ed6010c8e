# clean_cell, verified

pdfplumber2excel pulls tables out of PDF files and writes them to CSV or
Excel. Before each table is written, every cell goes through a small text
normaliser, `clean_cell`. The repository has two versions of it, and they
behave differently:

- **extract.py** returns an empty or missing cell as it is. Otherwise it
  strips surrounding whitespace. A value wrapped in parentheses becomes `-`
  followed by what is inside. A value with a dot and no comma has every dot
  turned into a comma. Anything else is only stripped.
- **MOSAIC.py** returns a non-string cell as it is. Otherwise it strips the
  text and turns every dot into a comma, unconditionally. Only then does it
  apply the parenthesis rule.

This project models both as pure Dafny functions over a cell type
`Cell = Absent | Text(s)`. That type stands for the `None`-or-string values
the extraction library produces. Lifted over a whole table, the functions
model the cell-wise `applymap` / `map` calls. The proofs cover what each
variant does on every path: lengths, which characters stay at which index,
that no dot survives (MOSAIC.py), and idempotence. They also show exactly
when the two variants disagree.

Modules:

- `PyStr` (pystr.dfy): the Python string operations used by both variants.
  These are `isspace`, `strip`, one-character `replace`,
  the `startswith('(') and endswith(')')` test and the `[1:-1]` slice.
- `Cells` (cells.dfy): the cell type, Python truthiness of a cell, tables,
  and the cell-wise lift of a function over a table.
- `Extract` (extract.dfy): `clean_cell` of extract.py.
- `Mosaic` (mosaic.dfy): `clean_cell` of MOSAIC.py.
- `Variants` (variants.dfy): how the two variants relate.

Neither variant is a full number parser. Neither removes currency symbols,
tells American from European digit grouping, or checks that a value parses
as a number. For example, `(abc)` becomes `-abc`, and extract.py leaves
`1,234.50` unchanged.

## Model

| member | source | states |
|---|---|---|
| PyStr.Strip | extract.py:12 | `str.strip()`: the result is a slice of the input, has no whitespace at either end, and only whitespace lies outside it |
| PyStr.StripUnique | extract.py:12 | any trimmed slice with only whitespace around it is exactly what `strip` returns, so `strip` is fully pinned down by its contract |
| PyStr.StripAllWs | MOSAIC.py:66 | `strip` returns "" if and only if the input is all whitespace |
| PyStr.TrimmedStripFixed | MOSAIC.py:66 | a string with no whitespace at either end is left alone by `strip`, so `strip` is idempotent |
| PyStr.ReplaceChar | MOSAIC.py:68 | `str.replace(a, b)` for single characters: same length, each `a` becomes `b`, every other character stays at its index |
| PyStr.ReplaceCharRemoves | MOSAIC.py:68 | after `replace('.', ',')` no dot remains |
| PyStr.IsWs | extract.py:12 | the characters `strip` removes: the 29 code points of Python 3's `str.isspace`, none of which is a parenthesis, dot, comma, minus, digit or lower-case letter |
| PyStr.Wrapped | extract.py:15 | `startswith('(') and endswith(')')`: only a string of at least two characters can be wrapped, so a lone `"("` is not, as in Python |
| Cells.Falsy | extract.py:8 | defines `not value` for a cell: true of `None` and of `""`; what `clean_cell` does with such a cell is stated by `Extract.FalsyUnchanged` |
| PyStr.Interior | extract.py:16 | the `[1:-1]` slice of a parenthesised value is two characters shorter, and character k of it is character k+1 of the value |
| Extract.CleanCell | extract.py:6-23 | a missing cell stays missing and a text cell stays text |
| Cells.MapTable | extract.py:60 | the cell-wise `applymap` (and MOSAIC.py's `map`) keeps the table's shape and applies the function to each cell at its own position |
| Extract.FalsyUnchanged | extract.py:8-9 | a `None` or `""` cell is returned unchanged |
| Extract.ParenthesisedToNegative | extract.py:15-17 | a parenthesised stripped value becomes `-` plus its interior, one character shorter, with every inner character (dots included) unchanged |
| Extract.DotsBecomeCommas | extract.py:20-21 | outside parentheses, a value with a dot and no comma has each dot turned into a comma, other characters kept in place, the same length and no dot left |
| Extract.OtherwiseOnlyStripped | extract.py:20-23 | outside parentheses, a value with a comma or without a dot comes back only stripped |
| Extract.UnwrappedResultTrimmed | extract.py:12-23 | outside parentheses, the result has no whitespace at either end |
| Extract.BlankBecomesEmpty | extract.py:12-23 | a whitespace-only string becomes "" |
| Extract.Idempotent | extract.py:8-23 | cleaning twice equals cleaning once whenever the stripped value is not parenthesised |
| Extract.TableIdempotent | extract.py:60 | after `applymap(clean_cell)`, a table with no parenthesised stripped text is a fixed point of a second pass |
| Extract.ParenthesisedExamples | extract.py:15-17 | `(1.5)` becomes `-1.5` (the dot survives) and `(abc)` becomes `-abc` (no numeric check) |
| Extract.SecondPassExample | extract.py:20-21 | `-1.5` becomes `-1,5`, so the parenthesis rule is not idempotent |
| Extract.GroupedValueUnchanged | extract.py:20-23 | `1,234.50` contains a comma and is returned unchanged |
| Mosaic.CleanCell | MOSAIC.py:64-73 | a non-string cell stays as it is and a string cell stays a string |
| Mosaic.AbsentUnchanged | MOSAIC.py:65-73 | a non-string cell is returned unchanged |
| Mosaic.NoDotInResult | MOSAIC.py:68-72 | a string result never contains a dot, with or without commas |
| Mosaic.ParenthesisedToNegative | MOSAIC.py:68-71 | a parenthesised stripped value becomes `-` plus its interior with dots turned into commas, one character shorter than the stripped value |
| Mosaic.OtherwiseDotsBecomeCommas | MOSAIC.py:66-72 | outside parentheses the result is the stripped value with each dot turned into a comma: same length, every other character at its index |
| Mosaic.BlankBecomesEmpty | MOSAIC.py:66-72 | an empty or whitespace-only string becomes "" |
| Mosaic.DotFreeOnlyStripped | MOSAIC.py:66-72 | a dot-free string whose stripped form is not parenthesised is only stripped |
| Mosaic.ResultStripsUnwrapped | MOSAIC.py:66-72 | a result, once stripped, is never parenthesised again |
| Mosaic.SecondPassStrips | MOSAIC.py:66-72 | a second pass equals stripping the first result |
| Mosaic.Idempotent | MOSAIC.py:66-72 | cleaning twice equals cleaning once when the stripped input is not parenthesised |
| Mosaic.TableHasNoDots | MOSAIC.py:56 | after `map(clean_cell)` no text cell of the table contains a dot |
| Mosaic.ParenthesisedExample | MOSAIC.py:68-71 | dots are replaced before the parenthesis test, so `(1.5)` becomes `-1,5` |
| Mosaic.GroupedValueExample | MOSAIC.py:68 | `1,234.50` becomes `1,234,50` |
| Variants.AgreeWithoutDot | extract.py:15-23 | if the stripped text has no dot, both variants give the same result |
| Variants.AgreeOnDotsWithoutComma | extract.py:20-21 | on unparenthesised text with dots and no comma, both variants give the same result |
| Variants.DifferOnParenthesisedDot | extract.py:15-17 | on parenthesised text with a dot, extract.py keeps the dot, so its result differs from MOSAIC.py's |
| Variants.DifferOnDotAndComma | extract.py:20-23 | on unparenthesised text with a dot and a comma, extract.py only strips, so its result differs from MOSAIC.py's |
| Variants.DisagreeExactly | MOSAIC.py:64-73 | the variants differ on a text cell if and only if its stripped text has a dot and is parenthesised or has a comma |
| Variants.AgreeOnAbsent | MOSAIC.py:73 | both variants pass a missing cell through |
| Variants.GroupedValueDiffers | MOSAIC.py:68 | `1,234.50` stays `1,234.50` in extract.py and becomes `1,234,50` in MOSAIC.py |

## Left out

- PDF handling and output are not modelled: extract.py:26-104 and MOSAIC.py:15-58, 79-100. This covers pdfplumber, PyMuPDF, Tesseract OCR, FPDF, pandas DataFrame construction, CSV and Excel writing, folder listing, `os.rename` and console output. All of these are calls into foreign libraries or the file system. Only the cell-wise lift of `clean_cell` (extract.py:60, MOSAIC.py:56) is modelled.
- test.py and multi.py are not part of this model. They are folder loops around camelot, tabula and `pd.ExcelWriter`, with no logic of their own.
- Header stripping with `df.columns.str.strip()` (extract.py:57) is not modelled. It is a pandas call on column labels, not on cells.
- Cells are either missing or text. Other Python values a DataFrame could hold (numbers, NaN) are not modelled. For those, extract.py's `not value` test and MOSAIC.py's `isinstance` test would act differently.
- `PyStr.IsWs` lists by code point the 29 characters that Python 3's `str.isspace` accepts and `str.strip()` removes. The general lemmas use only two facts about this set: `strip` removes exactly these characters, and `(`, `)`, `.`, `,` and `-` are not among them. The example lemmas also need the first and last characters of their literals (digits, letters, parentheses, `-`) to be non-whitespace.
- Currency removal, American/European grouping, numeric parsing and number formatting are not modelled. Neither `clean_cell` does any of them.
