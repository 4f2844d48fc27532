# edit4config in Dafny

A verified model of `edit4config`, a configuration editor for
indentation-structured router configurations (Nokia SR OS, Cisco IOS
style). Each line of a configuration is paired with the path of its
parent lines. Equal lines under the same parent give equal records, which
are told apart only by their position. The edits work on that sequence of
`[path, line]` records:

- delete a block of consecutive records
- delete a range from a start record to an end record
- add a block after or before an anchor block
- replace one record

Every edit request is given in a compact form, one `seg,seg,...,value`
line per record. The editor converts these lines back into records,
restoring indentation at `step_space` spaces per level.

The project has seven files:

- `text.dfy` (module `Text`): the string operations the editor relies on,
  with their Python meaning. These are `strip`, `lstrip`, `rstrip`,
  `split`, `join`, `count` and `splitlines`.
- `records.dfy` (module `Records`): the record, and the errors the editor
  raises.
- `path_index.dfy` (module `PathIndex`): the linearisation
  `_config_with_parent`. It has two parts:
  - a reference definition, `Build`, that states every line's path
    directly through the ancestor relation;
  - the nested-loop algorithm, `ConfigWithParent`, over an array of paths,
    proved equal to `Build`.
- `convert.dfy` (module `Convert`): the compact format, covering
  `_ec_text_convert` and `cli_convert`.
- `edit_spec.dfy` (module `EditSpec`): for every editing operation, a
  function that says what records it leaves, plus the lemmas about those
  functions.
- `edit_config.dfy` (module `Editor`): the class `EditConfig`. It has the
  mutable field `cwp` ("config with parents"), and its methods update
  `cwp` in place with the loops of the original. Each method's
  postcondition ties the new `cwp` to the `EditSpec` function of the old
  one, including the error outcomes.
- `card_example.dfy` (module `Examples`): worked examples on the
  configuration `configure / card 1 / mda 1 / no shutdown`.

Modelling choices:

- `re.match` (an anchored regular-expression match) is a parameter
  `m: Matcher`, a function from pattern and subject to `bool`. Every
  property about regular-expression mode holds for every matcher.
- Python exceptions become values. `Error` has four cases:
  - `TabCharacter`: the `SystemError` raised on a tab.
  - `EmptySeparator`: the `ValueError` of `str.split('')`.
  - `NoPatternLine`: the `IndexError` of `[0]` on an empty converted
    request, or on the empty list of stripped pattern lines in
    `cwp_serial_check` (line 152).
  - `EndLineNotFound`: the `ValueError` of `list.index` in the literal
    range delete.
- An editing method returns `Outcome` (`Pass` or `Fail(error)`). On
  failure, `cwp` keeps whatever the method had already changed, as the
  Python does. The literal range delete with `multiple_match` can fail
  after removing some ranges.
- Whitespace is the space character and the newline, and `splitlines`
  splits at `'\n'` only.
- The regular-expression mode of `delete_between_lines` takes the first
  start match it meets, because of the `start_line is None` test at line
  210. A later start match before the end does not restart the range. The
  method's docstring (line 194) says the same: first match only,
  non-greedy. `RegexRange` models this.

## Model

| member | source | states |
|---|---|---|
| PathIndex.ConfigWithParent | src/edit4config/edit4config.py:32-86 | The nested scans over the array of paths return exactly `Build`. A tab gives `TabCharacter`. Otherwise there is one record per non-blank right-stripped line, and its path is the separator-joined ancestor tokens. |
| PathIndex.ScanFrom | src/edit4config/edit4config.py:66-83 | The inner scan of one non-comment line extends the paths of the lines that follow it until a non-comment line indented no deeper. A comment line inherits the scanning line's path, or its text when that path is empty. |
| PathIndex.ScanLine | src/edit4config/edit4config.py:69-83 | One step of the inner scan: a comment inherits, a deeper line appends the token, any other line stops the scan. |
| PathIndex.AncestorRule | src/edit4config/edit4config.py:61-83 | A non-comment line's path holds exactly the earlier non-comment lines indented less than every non-comment line after them up to the line, in order. The leads along a path strictly increase and stay below the line's own lead. |
| PathIndex.AncestorsExact | src/edit4config/edit4config.py:61-83 | The ancestor list holds exactly the earlier lines whose scan reaches the line, in increasing order. |
| PathIndex.CommentFollowsNearestLine | src/edit4config/edit4config.py:70-76 | A comment line's path is the path of the nearest preceding non-comment line. When that path is empty it is that line's stripped text. |
| PathIndex.LeadingCommentPath | src/edit4config/edit4config.py:61-64 | A comment line preceded only by comments has the empty path. |
| PathIndex.PathsAvoidComments | src/edit4config/edit4config.py:62-64 | Every line on a path is an earlier non-comment line, so comment lines never appear in a path. |
| PathIndex.LastReacherIsNearest | src/edit4config/edit4config.py:68-76 | The last scan to reach a comment line is that of the nearest preceding non-comment line. |
| PathIndex.PrepareKeeps | src/edit4config/edit4config.py:56-59 | The blank-line filter yields non-blank, right-stripped lines, never more than it was given, and adds no character. |
| PathIndex.PrepareFixed | src/edit4config/edit4config.py:58-59 | Lines already non-blank and right-stripped pass the filter unchanged. |
| PathIndex.PreparedTextRoundTrip | src/edit4config/edit4config.py:56-59 | Joining the prepared lines with newlines and splitting again gives them back, and no tab appears. |
| PathIndex.BuildRoundTrip | src/edit4config/edit4config.py:51-59 | On tab-free text, building succeeds with one record per non-blank right-stripped line, in order. Joining the values and splitting them again gives exactly those lines (the `cwp_to_text` view at lines 133-135). |
| PathIndex.ReparseIdempotent | src/edit4config/edit4config.py:127-131 | Rebuilding from the text view of a built configuration gives the same records. |
| Convert.EcTextConvert | src/edit4config/edit4config.py:89-111 | It fails with `EmptySeparator` exactly when the separator is empty and the stripped text has a line. Otherwise it yields one record per line of the stripped text, the k-th being that line's `ConvertLine` record. What such a record holds is stated by `ConvertLineRebuilds`, `ConvertLineDepth` and `ConvertLineComment`. |
| Convert.ConvertLineRebuilds | src/edit4config/edit4config.py:95-98 | A compact line is its record's path, then the separator (when there is more than one segment), then the last segment. |
| Convert.ConvertLineDepth | src/edit4config/edit4config.py:102-108 | With a one-character separator, a non-comment value is the stripped last segment behind `step_space` spaces per path segment. A line with no path still gets one level. |
| Convert.ConvertLineComment | src/edit4config/edit4config.py:104-108 | A value starting with a comment prefix gets no indentation. |
| Convert.CompactLineRoundTrip | src/edit4config/edit4config.py:97-108 | Reading back `tokens,value` restores the joined path and indents the stripped value once per token (not at all for a comment), provided the separator occurs in no token and not in the value. |
| Convert.CliRecordRoundTrip | src/edit4config/edit4config.py:114-125 | The compact line `cli_convert` writes for a built record reads back, through `_ec_text_convert`'s line rule, as that record's path with the stripped line indented once per ancestor. |
| Convert.WithPathSelects | src/edit4config/edit4config.py:122-123 | `cli_convert` keeps exactly the records whose path is not blank, in their order. Each kept record appears as often as in the input, and there are no more of them than there are records. |
| Convert.CompactLines | src/edit4config/edit4config.py:122-125 | One line per record of `WithPath(recs)`, the k-th being `path + sep + strip(value)` of the k-th such record. Which records those are, with counts and order, is stated by `WithPathSelects`. |
| Convert.CliConvert | src/edit4config/edit4config.py:114-125 | `cli_convert` fails with `TabCharacter` exactly when the text holds a tab (from `_config_with_parent`). Its lines are those of `CompactLines`, described by `WithPathSelects` and `CliRecordRoundTrip`. |
| EditSpec.FirstHit | src/edit4config/edit4config.py:170-190 | The first index from which the window test holds: it holds there, it holds at no earlier index, and `None` means it holds nowhere. |
| EditSpec.DeleteRange | src/edit4config/edit4config.py:178 | `del cwp[i:i+n]` removes `n` records, or the rest of the list when fewer than `n` follow. |
| EditSpec.DeleteSerialKeepsOrder | src/edit4config/edit4config.py:166-190 | A serial delete only leaves records out, and the rest keep their order. |
| EditSpec.DeleteSerialOnce | src/edit4config/edit4config.py:166-190 | Without `multiple_match` the result is unchanged when no window passes, or else the original with just the first passing window cut out. |
| EditSpec.LiteralDeleteSerialOnce | src/edit4config/edit4config.py:184-190 | In literal mode the original is the result with the block put back at the first index where it occurs exactly, or the block occurs nowhere and nothing changes. |
| EditSpec.DeleteSerialExhaustive | src/edit4config/edit4config.py:166-190 | With `multiple_match` the restart-from-zero loop leaves no window that passes the test. |
| EditSpec.DeleteSerialIdempotent | src/edit4config/edit4config.py:166-190 | Deleting all windows a second time changes nothing. |
| EditSpec.FirstMatch | src/edit4config/edit4config.py:208-218 | The first index from `from` whose record matches, and none before it. |
| EditSpec.IndexFrom | src/edit4config/edit4config.py:231-233 | `list.index` on a slice: the first index at or after `from` holding the record, and none before it. |
| EditSpec.RegexRange | src/edit4config/edit4config.py:207-220 | A range found lies inside the records, with start no later than end. |
| EditSpec.RegexRangeExact | src/edit4config/edit4config.py:207-225 | A regular-expression scan finds a range exactly when a start match is followed, at or after it, by an end match. The range runs from the first start match to the first end match from there, which may be the same line. |
| EditSpec.DeleteBetweenRegexKeepsOrder | src/edit4config/edit4config.py:203-225 | A regular-expression range delete only leaves records out. |
| EditSpec.DeleteBetweenRegexExhaustive | src/edit4config/edit4config.py:203-225 | With `multiple_match` no start match is left with an end match at or after it. |
| EditSpec.LiteralBetweenAbsent | src/edit4config/edit4config.py:229 | Without the start record, the literal range delete changes nothing and succeeds. |
| EditSpec.LiteralBetweenFound | src/edit4config/edit4config.py:229-238 | Without `multiple_match`, exactly the records from the first start record to the first end record at or after it are removed. |
| EditSpec.LiteralBetweenMissingEnd | src/edit4config/edit4config.py:231-233 | A start record with no end record at or after it is `EndLineNotFound`, and nothing is removed. |
| EditSpec.LiteralBetweenExhaustive | src/edit4config/edit4config.py:229-238 | With `multiple_match`, success leaves no start record. Failure is `EndLineNotFound` at a first start record with no end after it, keeping the ranges already removed. Either way records are only left out. |
| EditSpec.PointsIncrease | src/edit4config/edit4config.py:252-276 | The collected insertion points strictly increase, and none precedes the anchor of the scan's start. |
| EditSpec.PointsSingle | src/edit4config/edit4config.py:266-276 | Without `multiple_match` there is at most one point: the first passing window's `iline + len` (after) or `iline` (before). |
| EditSpec.PointsAll | src/edit4config/edit4config.py:254-276 | With `multiple_match` the points are the anchors of exactly the windows that pass the test. |
| EditSpec.Insert | src/edit4config/edit4config.py:284 | Slice assignment `s[x:x] = add` grows the list by `len(add)`. |
| EditSpec.SplicedLength | src/edit4config/edit4config.py:279-286 | Splicing at `k` points grows the list by `k * len(add_list)`. |
| EditSpec.SplicedKeepsOrder | src/edit4config/edit4config.py:279-286 | Splicing removes nothing: the original records keep their order. |
| EditSpec.InsertStep | src/edit4config/edit4config.py:281-286 | Inserting at a point shifted by `change_line_number` is splicing at the original-index point, when no earlier point lies beyond it. |
| EditSpec.AddOnce | src/edit4config/edit4config.py:254-286 | Without `multiple_match` an add changes nothing when no window passes. Otherwise it puts one copy of the block at the first window's anchor. |
| EditSpec.ReplaceIndicesSound | src/edit4config/edit4config.py:348-362 | Every collected index holds a record that passes the replace test. |
| EditSpec.ReplaceIndicesAll | src/edit4config/edit4config.py:348-362 | With `multiple_match` every record that passes the test is collected. |
| EditSpec.ReplaceIndicesFirst | src/edit4config/edit4config.py:349-362 | Without `multiple_match` at most one index is collected: the first that passes, and none if no record passes. |
| EditSpec.Overwrite | src/edit4config/edit4config.py:364-365 | Overwriting the collected indices keeps the length of the list. |
| EditSpec.ReplaceEffect | src/edit4config/edit4config.py:348-365 | Replacement keeps the length. With `multiple_match` every passing record becomes the new record and the others stay. Without it, the first passing record does, or nothing changes. |
| EditSpec.SelectExact | src/edit4config/edit4config.py:137-142 | The search result holds exactly the left-stripped records matching both patterns, in their order. Each appears as often as among the left-stripped records. |
| EditSpec.PatternLines | src/edit4config/edit4config.py:146-147 | There are no more pattern lines than input lines. |
| EditSpec.PatternLinesMembers | src/edit4config/edit4config.py:146-147 | A string is a pattern line exactly when it is the stripped text of some input line that is not blank. |
| EditSpec.PatternLinesSingle | src/edit4config/edit4config.py:146-147 | One line gives its stripped text when that is not blank, and nothing otherwise. |
| EditSpec.PatternLinesAppend | src/edit4config/edit4config.py:146-147 | The pattern lines of two texts laid end to end are those of the first followed by those of the second. With `PatternLinesSingle` this fixes the order and the count of the pattern lines. |
| EditSpec.CompactTexts | src/edit4config/edit4config.py:149 | One compact text per record. |
| EditSpec.ScanTextsExists | src/edit4config/edit4config.py:150-156 | The serial scan answers whether some index starts a window whose pattern lines all match. |
| EditSpec.SerialCheckExact | src/edit4config/edit4config.py:144-156 | With no pattern line it is `False` on empty records and `IndexError` otherwise. Else it is `True` exactly when some window matches. |
| Editor.FirstLine | src/edit4config/edit4config.py:197-200 | `_ec_text_convert(...)[0]`: an empty request is `NoPatternLine` (the `IndexError` of `[0]`). An empty separator on a non-empty request is `EmptySeparator`. Otherwise it is the record of the first line of the stripped request. |
| Editor.FindSerial | src/edit4config/edit4config.py:170-190 | The `for` scan of `delete_serial_lines` returns the first index passing the window test. |
| Editor.FindRange | src/edit4config/edit4config.py:207-225 | The regular-expression `for` scan of `delete_between_lines` returns the first start match and the first end match from it. |
| Editor.CollectPoints | src/edit4config/edit4config.py:252-276 | The first loop of the add methods collects exactly the points of the reference definition. |
| Editor.CollectReplace | src/edit4config/edit4config.py:348-362 | The first loop of `replace_line` collects exactly the indices of the reference definition, with duplicates when both tests pass. |
| Editor.UpdateKeepsLines | src/edit4config/edit4config.py:127-131 | When every line is non-blank, right-stripped and free of newlines and tabs, `cwp_update` succeeds and keeps every line in order. Only the paths are derived again. |
| Editor.EditConfig.constructor | src/edit4config/edit4config.py:22-25 | The four dataclass fields plus the records. |
| Editor.EditConfig.Create | src/edit4config/edit4config.py:27-29 | Construction fails with `TabCharacter` exactly when the text holds a tab. Otherwise `cwp` is the built records, and splitting `cwp_to_text` gives the text's non-blank right-stripped lines. |
| Editor.EditConfig.CwpToText | src/edit4config/edit4config.py:133-135 | Splitting the text view at newlines gives the lines back when none holds a newline and the last is not empty. |
| Editor.EditConfig.CwpUpdate | src/edit4config/edit4config.py:127-131 | `cwp` becomes the build of the old text view. A tab in it fails with `TabCharacter` and changes nothing. |
| Editor.EditConfig.CwpSearch | src/edit4config/edit4config.py:137-142 | Exactly the left-stripped records matching both patterns, in order, each as often as it occurs. |
| Editor.EditConfig.CwpSerialCheck | src/edit4config/edit4config.py:144-156 | `True` exactly when some window of compact texts matches the pattern lines. With no pattern line it is `False` on empty records and `IndexError` otherwise. |
| Editor.EditConfig.DeleteSerialLines | src/edit4config/edit4config.py:158-190 | A conversion error or an empty block on non-empty records fails with nothing changed. Otherwise `cwp` becomes `DeleteSerial` of the old records. |
| Editor.EditConfig.DeleteSerialRanges | src/edit4config/edit4config.py:167-190 | The `while cont` loop leaves `cwp` equal to `DeleteSerial` of the old records: one cut without `multiple_match`, otherwise cuts until no window passes. |
| Editor.EditConfig.DeleteBetweenLines | src/edit4config/edit4config.py:192-238 | The start line is converted before the end line, and either failing leaves `cwp` unchanged. Regular-expression mode gives `DeleteBetweenRegex` of the old records. Literal mode gives `DeleteBetweenLiteral`, records and outcome. |
| Editor.EditConfig.DeleteRegexRanges | src/edit4config/edit4config.py:203-225 | The regular-expression `while cont` loop leaves `cwp` equal to `DeleteBetweenRegex` of the old records. |
| Editor.EditConfig.DeleteLiteralRanges | src/edit4config/edit4config.py:227-238 | The `while start_with in self.cwp` loop leaves the records and outcome of `DeleteBetweenLiteral` of the old records, including the `EndLineNotFound` failure after earlier cuts. |
| Editor.EditConfig.AddLines | src/edit4config/edit4config.py:240-335 | The block is converted before the anchor, and either failing leaves `cwp` unchanged. An empty anchor on non-empty records fails. Otherwise `cwp` is the old records spliced with the block at the collected points. |
| Editor.EditConfig.InsertAt | src/edit4config/edit4config.py:278-286 | The running-offset loop leaves `cwp` spliced with the block at every point, in original-index space. |
| Editor.EditConfig.AddAfterLines | src/edit4config/edit4config.py:240-286 | The contract of `AddLines`, with the points after each window. |
| Editor.EditConfig.AddBeforeLines | src/edit4config/edit4config.py:288-335 | The contract of `AddLines`, with the points at each window. |
| Editor.EditConfig.ReplaceLine | src/edit4config/edit4config.py:337-365 | The old line is converted before the new one, and either failing leaves `cwp` unchanged. Otherwise `cwp` is `Replace` of the old records. |
| Editor.EditConfig.OverwriteAt | src/edit4config/edit4config.py:363-365 | The loop over the collected line numbers leaves `cwp` equal to `Overwrite` of the old records. |
| Examples.CardBuild | src/edit4config/edit4config.py:32-86 | The card configuration builds to `("", "configure")`, `("configure", " card 1")`, `("configure,card 1", "  mda 1")` and `("configure,card 1,mda 1", "   no shutdown")`. |
| Examples.CardDeleteRequest | src/edit4config/edit4config.py:89-111 | `configure,card 1,mda 1,no shutdown` converts, at one space per level, to the last card record. |
| Examples.CardDeleteLast | src/edit4config/edit4config.py:166-190 | A literal serial delete of that record leaves the first three records. |
| Examples.CardSearch | src/edit4config/edit4config.py:137-142 | With prefix matching, a search for that path and `no shut` returns the one record, its value left-stripped. |

## Left out

- Regular expressions. `re.match` is the parameter `m`, so there is no
  pattern syntax, no compilation error and no f-string interpolation of
  the pattern. The examples use plain prefix matching, which is what an
  anchored match of a pattern without metacharacters does.
- `numpy` (lines 12 and 58-59). The object array is only a container; the
  imperative linearisation uses a Dafny `array` of paths, and the records
  are a `seq`.
- Unicode whitespace and line boundaries. `strip`, `lstrip`, `rstrip` and
  `splitlines` know only the space and `'\n'`, so `'\r'`, form feeds and
  the other Unicode boundaries are not modelled.
- Aliasing of inner lists. Line 73 shares a path list between records, and
  line 284 and line 365 share record lists. Nothing later changes an inner
  list in place, so records are values here.
- Default arguments: those of the dataclass (`comment_tuple = ()`,
  `sep = ','`), `regex_match=False` and `multiple_match=False` on the four
  editors (lines 158, 192, 240, 288, 337), and `path=''`, `value=''` on
  `cwp_search` (line 137). Every Dafny method takes each argument
  explicitly, so no behaviour is lost.
- Convert.CompactLineRoundTrip, Convert.CliRecordRoundTrip: proved only for
  a one-character separator that occurs in no token. A multi-character
  separator is modelled exactly by `Split` and `Count`, but no round trip
  is claimed for it.
- Convert.ConvertLineDepth: stated for a one-character separator only, for
  the same reason.
