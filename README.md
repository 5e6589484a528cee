# Report-card comments and mark formatting

A model of the commenting and mark-formatting core of a school report-card generator.

The generator reads a student's row from a marks workbook. It renders a PDF report card containing:

- one remark per subject, in English except the Kiswahili slot, which gets a Kiswahili remark;
- an overall narrative comment chosen by the student's total score;
- the marks and class averages in display form.

The model covers the logic that decides what text and numbers appear on the card. Drawing the PDF is not modelled.

Modules:

- `PyText`: the Python string primitives the core relies on.
  - `str.strip()`, `int()` on a string and `str()` of an int.
  - `int()` truncation of a float, and the `in` test on strings.
  - Proved: `int(str(i)) == i`, and that `str(int(s))` drops only leading zeros.
- `Cells`: a workbook cell, which is `None`, text, an int or a float. Also the exceptions the core raises (`ValueError`, `IndexError`), and the subject-to-mark dictionary entry shared by the ranking and the formatter.
- `SubjectComments` (`comments.py`):
  - the coercion of a row of cells to marks;
  - the English and Kiswahili band tables;
  - the rescale of a last slot above 100 (÷11) and of a Kiswahili mark above 100 (÷5);
  - `generate_subject_comments`, with its two error paths.
- `Ranking`: `sorted(d.items(), key=mark, reverse=True)`, an insertion sort. It is proved to be ordered, a permutation and stable. The first- and last-ranked subjects are characterised in terms of the input order.
- `OverallComment` (`comments.py`):
  - the fourteen narratives as f-string templates (literal pieces and interpolated fields);
  - `generate_overall_comment`, including its nested helper for totals below 500;
  - a reference table of thresholds against which the `if`/`elif` chain is proved.
- `ReportFormat` (`pdf_generator.py`):
  - `format_mark` and `format_class_average` (its `.2f` formatting rounds half-even);
  - `get_subject_marks`, over a dictionary kept as a sequence of entries in insertion order;
  - the in-place `None`-to-zero pass of `generate_pdf`.

## Model

| member | source | states |
|---|---|---|
| SubjectComments.Coerce | comments.py:8-13 | A blank cell (`None`, `""`, `" "`) becomes 0. A number is kept. Text becomes the integer `int()` reads from it, or `ValueError` exactly when `int()` rejects it. `int()` skips the `isspace()` characters except U+001C..U+001F. |
| SubjectComments.CoerceOfPaddedText | comments.py:10-11 | A text cell holding `str(i)` padded with the whitespace `int()` skips becomes i. The same number behind a separator U+001C..U+001F gives `ValueError`. |
| SubjectComments.FormatStudentMarks | comments.py:3-15 | Fails with `ValueError` iff some cell fails to coerce. Otherwise returns a row of the same length whose i-th entry is the coerced i-th cell. |
| SubjectComments.BandOf | comments.py:35-49 | Each band, as an if-and-only-if over the mark. A zero mark is "no marks" (falsy). The other bands are [80,∞), [75,80), [60,75), [50,60), (0,50) and negatives. |
| SubjectComments.SwahiliBand | comments.py:66-86 | Each Kiswahili band, as an if-and-only-if over the mark. A mark above 100 is divided by 5 first, so there are second ranges: ≥400, [375,400), [300,375), [250,300) and (100,250). |
| SubjectComments.EnglishCommentOfBand | comments.py:34-49 | The English remark for a mark is a band's text iff the mark falls in that band; the seven texts are distinct. |
| SubjectComments.SwahiliCommentOfBand | comments.py:56-88 | The Kiswahili remark for a mark is a band's text iff the mark falls in that Kiswahili band; the seven texts are distinct. |
| SubjectComments.GeneralComments | comments.py:33-49 | One English remark per mark, in order: the remark of that mark's band. |
| SubjectComments.GenerateSubjectComments | comments.py:17-54 | `ValueError` iff a cell fails to coerce; otherwise `IndexError` iff the row has fewer than two cells. On success it returns one remark per cell, each equal to `SubjectRemark` of the coerced marks: the rescaled last slot, and the Kiswahili table at slot 1. |
| SubjectComments.OutOfRangeIsExcellent | comments.py:28-37 | A mark above 100 that is neither in the Kiswahili slot nor in the last slot is not rejected: it gets "Excellent". |
| SubjectComments.LastSlotBands | comments.py:28-49 | For an integer last-slot mark m in a row of three or more, the band as an if-and-only-if over m. Above 100 every threshold is scaled by eleven, e.g. "Excellent" iff 80≤m≤100 or m≥880. |
| SubjectComments.TwoCellSwahiliBands | comments.py:26-88 | In a two-cell row slot 1 is also the last slot. Its band, as an if-and-only-if over m, reflects both rescales (÷11 above 100, then ÷5 if still above 100). |
| PyText.ParseIntOfIntToString | comments.py:11 | `int(str(i)) == i` for every integer i. |
| PyText.ParseIntOfPadded | comments.py:11 | `int()` ignores whitespace around the number: `int(pre + str(i) + post) == i` whenever pre and post consist of whitespace `int()` skips. |
| PyText.TrimIntSpacePadding | comments.py:11 | What `int()` skips around a number is exactly the surrounding whitespace other than U+001C..U+001F: text that neither starts nor ends with such whitespace is recovered unchanged. |
| PyText.ParseIntRejectsSeparator | comments.py:11 | `str.strip()` removes a separator U+001C..U+001F, but `int()` rejects text that starts with one. |
| PyText.Strip | pdf_generator.py:214 | The result neither starts nor ends with whitespace. |
| PyText.StripDropsOnlySpace | pdf_generator.py:214 | `s.strip()` is a contiguous slice `s[k:k+n]` of s, and everything before and after that slice is whitespace. With `Strip`'s own contract, it is exactly s without its surrounding whitespace. |
| PyText.StripLeft | pdf_generator.py:214 | The result is a suffix of the input, and everything it drops is whitespace. |
| PyText.StripRight | pdf_generator.py:214 | The result is a prefix of the input, and everything it drops is whitespace. |
| PyText.Truncate | pdf_generator.py:441 | `int(x)` of a float rounds toward zero: it lies within one of x, on the side of zero. |
| Ranking.SortDescendingPermutes | comments.py:105-108 | The ranking is ordered from the highest mark down and is a permutation of the items. |
| Ranking.SortDescendingStable | comments.py:105-108 | For every mark, the items with that mark keep their input order (`sorted` is stable, and `reverse=True` preserves it). |
| Ranking.FirstRankedIsEarliestHighest | comments.py:105-110 | The first-ranked item is the earliest item carrying the highest mark. |
| Ranking.LastRankedIsLatestLowest | comments.py:105-112 | The last-ranked item is the latest item carrying the lowest mark. |
| OverallComment.GenerateOverallComment | comments.py:90-237 | `IndexError` iff there are fewer than two subjects (the second-ranked lookups). |
| OverallComment.OverallCommentFollowsTable | comments.py:115-237 | With two or more subjects, the comment is the template of the first band in the threshold table that the total reaches. The table is 1000, 900, 800, 700, 650, 600, 550, 500, 450, 400, 300, 200, 100, then "new start". A negative total gets the data-integrity message instead. |
| OverallComment.TableFrom500 | comments.py:121-175 | From 500 up, the table picks the same narrative as the `elif` chain. |
| OverallComment.TableBelow500 | comments.py:177-230 | From 0 to 499, the table picks the same narrative as the nested helper's `elif` chain. |
| OverallComment.CommentBelow500FollowsTable | comments.py:177-230 | For a total from 0 to 499, the nested helper's comment is the narrative the threshold table picks (400, 300, 200, 100, then "new start"), rendered with the student's fields. |
| OverallComment.NegativeTotalIsFlagged | comments.py:117-119 | A negative total yields exactly "Total marks for {name} is {total}. Please check the marks entered." |
| OverallComment.AboveMaximumIsNotFlagged | comments.py:117-126 | As written, a total above 1100 is not flagged: the comment starts "Outstanding job, ". |
| OverallComment.OverallCommentMentionsStudent | comments.py:118-228 | The comment is never empty and contains the student's name and the total. |
| OverallComment.TemplateOpening | comments.py:118-228 | Every template opens with non-empty text, then the name, then text, then the total. |
| OverallComment.NarrativeNamesRanked | comments.py:121-228 | Every narrative names the first-ranked and the last-ranked subject. |
| OverallComment.CommentNamesRanked | comments.py:110-228 | For a non-negative total, the comment contains the first-ranked and the last-ranked subject. |
| OverallComment.OverallCommentNamesExtremes | comments.py:105-228 | For a non-negative total, the comment names two subjects: the earliest-inserted one with the highest mark and the latest-inserted one with the lowest. |
| OverallComment.CheckMarksText | comments.py:118-119 | The data-integrity template renders to its text with the name and the total filled in. |
| OverallComment.CorrectedOverallCommentFlags | comments.py:117-119 | With the guard as intended, every total outside 0..1100 yields exactly the data-integrity message. Every other total gets the same comment as the code as written. |
| ReportFormat.FormatMark | pdf_generator.py:425-458 | A blank cell gives 0. An int passes through. A float is truncated toward zero. Text gives a non-negative result; an all-digit text gives its value; any other non-blank text that is neither `\d+` nor `\d+\.\d+` gives 0. |
| ReportFormat.FormatMarkOfDigits | pdf_generator.py:455-456 | The decimal rendering of n gives n, with or without a trailing newline (`$` matches before a final newline). |
| ReportFormat.FormatMarkOfDecimal | pdf_generator.py:451-452 | `digits.digits` gives its integer part. |
| ReportFormat.FormatMarkOfSigned | pdf_generator.py:447-458 | A string starting with "-" or "+" matches neither pattern and gives 0. |
| ReportFormat.FormatMarkIdempotent | pdf_generator.py:443-445 | Formatting an already formatted mark changes nothing. |
| ReportFormat.FormatClassAverage | pdf_generator.py:204-225 | The result is always digits, ".", two digits. Blank text and anything that is not `\d+` or `\d+\.\d+` give "0.00". |
| ReportFormat.ClassAverageOfNone | pdf_generator.py:214-218 | A missing average (`str(None)`) gives "0.00". |
| ReportFormat.ClassAverageOfNonDigit | pdf_generator.py:221-225 | Stripped text that does not start with a digit gives "0.00". |
| ReportFormat.ClassAverageOfInteger | pdf_generator.py:221-222 | An integer string gives its value without leading zeros, followed by ".00". |
| ReportFormat.DecimalClassAverage | pdf_generator.py:221-222 | `w.f` gives `FixedTwo(h)` where h hundredths is the nearest to the exact value w.f: within half a hundredth, and even on a tie. |
| ReportFormat.RoundHalfEvenNearest | pdf_generator.py:222 | The quotient `.2f` rounds to is within half of d of v/d, and even when v/d lies exactly half-way. |
| ReportFormat.ClassAverageOfShortDecimal | pdf_generator.py:221-222 | `a.b` with one or two fraction digits gives a (without leading zeros), ".", and b padded to two digits. |
| ReportFormat.ClassAverageIdempotent | pdf_generator.py:204-225 | Formatting a formatted average changes nothing. |
| ReportFormat.ClassAverageOfInt | pdf_generator.py:214-222 | `str(i)` of a non-negative int gives `str(i)` followed by ".00". A negative one gives "0.00". |
| ReportFormat.PutKeys | pdf_generator.py:615-619 | `d[k] = v` adds k at the end of the keys only when it is new. |
| ReportFormat.PutEntry | pdf_generator.py:615-619 | `d[k] = v` sets k's value to v and leaves every other entry where and as it was. |
| ReportFormat.BuildMarksKeys | pdf_generator.py:612-621 | The dictionary's keys are the subjects, each once, in the order of first occurrence. |
| ReportFormat.BuildMarksLastWins | pdf_generator.py:614-619 | Each subject's value is the formatted mark from the column of its last occurrence, three columns past its index. |
| ReportFormat.GetSubjectMarks | pdf_generator.py:600-621 | `IndexError` iff there is at least one subject and the row ends before the last subject's column. Otherwise it returns the dictionary `BuildMarks` describes. |
| ReportFormat.ReplaceNoneWithZero | pdf_generator.py:817-825 | In place: every `None` in the row becomes 0, every other cell is unchanged, and no `None` is left. |

## Left out

- The web layer (Flask), reading the workbook (openpyxl), drawing the PDF (ReportLab) and the charts (matplotlib) are not modelled. The model starts from a row of cells, a dictionary of subject marks and a name.
- The caller's title-casing and splitting of the student name is not modelled. The name is taken as given.
- Floats are exact reals.
  - Binary rounding, NaN and infinities are left out.
  - Remarks compare exact reals, which for integer marks agrees with Python's floats.
  - `format_mark` truncates an exact float.
- FormatClassAverage: `f"{float(s):.2f}"` rounds a binary double. The model rounds half-even on the exact decimal value. The two can differ for inputs such as "2.675", which is 2.67499… as a double.
  - An integer string above 2**53 also loses digits: "9007199254740993" gives "9007199254740992.00" in the source and "9007199254740993.00" in the model (ClassAverageOfInteger).
  - A `\d+` or `\d+\.\d+` string of about 1.8e308 or more becomes `inf` under `float()`, so the source returns "inf" (pdf_generator.py:222). The model returns the digits with two decimals, as FormatClassAverage states. ClassAverageIdempotent therefore does not hold for the source on such input: "inf" reformats to "0.00".
- FormatMarkOfDecimal: `int(float(s))` rounds s to a double before truncating. The model truncates the exact decimal. They differ when rounding crosses an integer: "0.99999999999999999" gives 1 in the source and 0 in the model.
  - A decimal string of about 1.8e308 or more becomes `inf` under `float()`, and `int(inf)` raises `OverflowError` (pdf_generator.py:452). FormatMark and FormatMarkOfDecimal return the whole part instead.
- Coerce: CPython 3.11 and later, and the security releases 3.7.14 to 3.10.7, limit `int()` on a string to 4300 digits by default. A text cell of more than 4300 digits raises `ValueError` at comments.py:11, where Coerce returns `Success`. ParseIntOfIntToString and ParseIntOfPadded hold for the source only within that limit. `str()` and f-strings of such an int raise `ValueError` too, where ClassAverageOfInt and NegativeTotalIsFlagged give text.
- FormatMark: the same limit makes `int(mark)` at pdf_generator.py:456 raise `ValueError` for an all-digit text of more than 4300 digits. FormatMark gives its value there.
- GenerateSubjectComments: `marks_list[-1] /= 11` (comments.py:29) and `marks /= 5` (comments.py:67) divide an int and raise `OverflowError` when the quotient is outside the float range. That happens for a last-slot mark of about 2e309 or more and a slot-1 mark of about 9e308 or more. A text cell of 310 digits reaches both through `int()`. GenerateSubjectComments returns remarks there.
- `int()` and `\d` accept non-ASCII Unicode digits, and `int()` accepts underscores between digits. Neither is modelled: only ASCII digits, surrounding whitespace and one sign are.
- GetSubjectMarks: `subjects` is annotated `str`, but the callers pass a list of subject names. It is modelled as a sequence of names.
- GenerateOverallComment: the total is an integer, as `format_mark` always yields one. The model writes it with `str(total)`. The source's `{total:.0f}` converts it to a float first. The two agree up to 2**53. Above that the source rounds (9007199254740993 prints as 9007199254740992). Above about 1.8e308 it raises `OverflowError`.
  - The nested helper runs for every total (comments.py:232), and its branches format `{total:.0f}` (its last branch at comments.py:225). So any total whose magnitude is about 1.8e308 or more raises `OverflowError`, negative ones included. NegativeTotalIsFlagged returns the data-integrity message for every negative total, so below about -1.8e308 it states what the source does not do.
- `_generate_swahili_comments(None)` would raise `TypeError`. It is reached only with coerced marks, which are never `None`, so that path is not modelled.
- The code has no range check that rejects marks and no name-abbreviation helper. Out-of-range marks are classified, not rejected.
- The test modules are not modelled.

## Findings

| source | as written | input that shows it | evidently intended | confidence | as-written member | corrected member |
|---|---|---|---|---|---|---|
| comments.py:117-126 | The out-of-range message for a total above 1100 is set, then overwritten by the `>= 1000` branch, because that branch is an `if`, not an `elif`. | total 1200 with two or more subjects: the comment starts "Outstanding job, " | A total above the 1100 maximum gets the data-integrity message, as a negative total does | high (not executed) | OverallComment.AboveMaximumIsNotFlagged | OverallComment.CorrectedOverallCommentFlags |
