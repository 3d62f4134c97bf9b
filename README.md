# Rime dictionary editor — a Dafny model of its core

RimeDictEditor is a small Swing desktop program that edits a Rime input-method
dictionary (`*.dict.yaml`). The dictionary is a table of three text columns:
- the word, in Chinese characters;
- its pinyin key, in lower-case letters and spaces;
- a decimal weight.

This project models the parts of `RimeDictEditor.java` that decide what ends
up in the table and in the file:

- **Loading a file** (`loadFileContent`). Each line is kept or skipped by
  itself. A line is skipped when it starts with `#` or is blank after
  `trim()`. A line whose Java `split("\t")` gives exactly three fields becomes
  a row. All other lines are skipped. The table is cleared before the read.
- **Saving** (`saveFile`). There is no current file → the save-as dialog
  takes over. Otherwise the table must pass `validateData`. Then a fixed
  header is written, followed by one `word\tkey\tweight\n` line per row.
- **The save validation** (`validateData`). Rows are checked in order, and
  the fields in each row in the order word, key, weight. Each field is first
  tested for being blank after `trim()`, then tested raw against its
  character class. The first failure stops the scan.
- **The three cell editors** (`stopCellEditing`):
  - Word and weight: the trimmed text is tested, but the raw text is stored.
  - Key: the text is lower-cased and trimmed, and that normalised value is
    both tested and stored.
- **Add row** (`addNewRow`): appends `新词条 / pinyin / 10000`.
- **Delete row** (`deleteSelectedRow`): removes the selected row, unless
  nothing is selected or a cell is being edited.
- **Save as** (`saveAsFile`): adds `.dict.yaml` unless the name already ends
  in it. The result becomes the current file before the overwrite question is
  asked.

## Layout

- `wrappers.dfy` — `Option`.
- `strings.dfy` — the Java `String` operations the editor relies on:
  - `trim()`, which removes characters up to U+0020 from both ends;
  - `toLowerCase()`, on ASCII letters;
  - `split("\t")`, including its rule that trailing empty fields are
    discarded;
  - `String.join`, `startsWith` and `endsWith`;
  - the lemmas that relate these operations to each other.
- `fields.dfy` — the row value and the three field kinds:
  - the regex classes `[一-龥]+`, `[a-z\s]+` and `\d+`;
  - the per-field check of `validateData`;
  - the outcome of finishing a cell edit.
- `validation.dfy` — the first-failure validation as a specification
  function, with its lemmas.
- `codec.dfy` — the line parser and the serializer, with the round trip.
- `editor.dfy` — class `DictEditor`:
  - the fields `rows` and `currentFile`;
  - the button and cell-editor operations as methods, each proved against
    the specification functions above.

The verdict of a failed validation carries the 1-based line number, the
field and the kind of failure: blank, or outside the class. It does not carry
the message text shown in the dialog.

## Model

| member | source | states |
|---|---|---|
| Strings.TrimSpec | RimeDictEditor.java:198 | `trim()` gives a contiguous slice of the string. Everything cut off on either side is at most U+0020. A non-empty result starts and ends with a character above U+0020. The result is empty exactly when every character is at most U+0020. |
| Strings.SplitRecoversFields | RimeDictEditor.java:200 | `split("\t")` returns exactly the fields joined with tabs, even with any number of tabs after them, provided the last field is non-empty and no field contains a tab. |
| Strings.SplitLosesOnlySeparators | RimeDictEditor.java:200 | Re-joining the fields of `split("\t")` with tabs gives a prefix of the line. The rest of the line is tabs only. |
| Codec.Parse | RimeDictEditor.java:197-207 | A file never yields more rows than it has lines. |
| Codec.ParseConcat | RimeDictEditor.java:197-207 | The rows of a file are the rows of its first part followed by the rows of the rest: the parser keeps no state between lines. |
| Codec.ParseLineSound | RimeDictEditor.java:198-206 | A kept line does not start with `#` and is not blank. It is the row's three fields joined by tabs, followed only by tabs. No field contains a tab, and the weight is non-empty. |
| Codec.ParseLineComplete | RimeDictEditor.java:198-206 | Any three tab-free fields with a non-empty last field, joined by tabs and followed by any number of tabs, are read back as exactly that row, provided the line does not start with `#` and is not blank. The word itself may be empty. |
| Codec.LineWithoutTabSkipped | RimeDictEditor.java:200-201 | A line without a tab never becomes a row. This is the only reason the header lines are skipped. |
| Codec.TrailingTabShortLine | RimeDictEditor.java:200-201 | `a\tb\t` is skipped: its trailing empty field is dropped, and two fields remain. |
| Codec.TrailingTabsKept | RimeDictEditor.java:200-206 | `a\tb\tc\t\t` is read as the row `(a, b, c)`: its trailing empty fields are dropped, and three fields remain. |
| Codec.HeaderParsesEmpty | RimeDictEditor.java:225-227 | No line of the header that save writes becomes a row when the file is opened again. |
| Codec.BodySnoc | RimeDictEditor.java:230-235 | Writing one more row extends the written text by that row's `word\tkey\tweight\n` line. |
| Codec.SerializeLines | RimeDictEditor.java:225-235 | When no row's line holds a newline, the saved text, cut at newlines, is the header's nine lines, then one `word\tkey\tweight` line per row in table order, then the empty remainder after the final newline. |
| Codec.StorableReadsBack | RimeDictEditor.java:198-206 | The line written for a row that keeps its shape parses back to that same row. A row keeps its shape when its fields hold no tab, newline or carriage return, its weight is non-empty, and its line is not blank and does not start with `#`. |
| Codec.ReadBack | RimeDictEditor.java:225-234 | When no row's line holds a newline, reading back a saved file yields exactly what its row lines parse to: the header adds nothing, and neither does the empty remainder after the last newline. |
| Codec.RoundTrip | RimeDictEditor.java:225-234 | Reading back the text that save writes for storable rows gives exactly those rows, in order. |
| Codec.ValidRowStorable | RimeDictEditor.java:279-304 | A row that passes the save validation, and whose key holds no tab, newline or carriage return, is storable. |
| Codec.ValidatedRoundTrip | RimeDictEditor.java:221-234 | Whenever save writes a file for a table whose keys hold no tab, newline or carriage return, opening that file again restores the table exactly. |
| Codec.TabbedKeyLineSkipped | RimeDictEditor.java:200-201 | The saved line of a row whose key has a tab inside it splits into four fields and is skipped on reading. |
| Codec.UnreadableRowLost | RimeDictEditor.java:225-234 | A row whose saved line the parser skips is missing from the file read back. |
| Codec.TabbedKeyIsLost | RimeDictEditor.java:225-234 | A row whose key has a tab inside it is written, but the file read back does not contain it. |
| Codec.TabbedKeyPasses | RimeDictEditor.java:292 | The one-row table (你, a<TAB>b, 1) passes the save validation, because `\s` in the key class admits the tab. |
| Codec.CarriageReturnKeyPasses | RimeDictEditor.java:292 | The one-row table (你, a<CR>b, 1) passes the save validation too, although its key holds a character at which `readLine` ends a line. |
| Codec.ParsedRowStorable | RimeDictEditor.java:198-206 | Every row parsed from a line that `readLine` can return (no newline or carriage return) has the storable shape. |
| Codec.ReparseIsStable | RimeDictEditor.java:197-207 | Writing out a table just loaded from a file and then loading the result gives the same table. This holds for the writer even when the table would not pass validation, though save itself refuses such a table. |
| Fields.FieldFlawMeaning | RimeDictEditor.java:279-304 | Word and weight pass their check exactly when they match their class. The key passes exactly when it matches `[a-z\s]+` and holds a letter. The check reports "blank" exactly when every character is at most U+0020. |
| Fields.RowFlaw | RimeDictEditor.java:279-304 | A row's first failure is the word's if the word fails. Otherwise it is the key's if the key fails, then the weight's. There is no failure exactly when all three fields pass. |
| Fields.DefaultRow | RimeDictEditor.java:163 | The row that Add appends passes the save validation. |
| Fields.CommitEdit | RimeDictEditor.java:122-159 | A key edit is accepted exactly when the lower-cased, trimmed text matches `[a-z\s]+`, and that value is stored. A word or weight edit is accepted exactly when the trimmed text matches its class, and the text as typed is stored. |
| Fields.KeyEditIdempotent | RimeDictEditor.java:138-143 | Re-committing a stored key is accepted and stores the same key. |
| Fields.KeyEditExample | RimeDictEditor.java:138-143 | Typing `HAO Mi` stores `hao mi`. |
| Fields.WeightEditExample | RimeDictEditor.java:152-156 | Typing `12a` as a weight is refused. |
| Fields.WordEditAcceptsWhatSaveRefuses | RimeDictEditor.java:124-130 | ` 你好` is accepted by the word editor and stored as typed, but the save validation rejects that word as outside its class. |
| Fields.WeightEditAcceptsWhatSaveRefuses | RimeDictEditor.java:151-157 | `12 ` is accepted by the weight editor and stored as typed, but the save validation rejects that weight as outside its class. |
| Validation.ValidatePassIff | RimeDictEditor.java:273-307 | Validation passes exactly when every row passes all three field checks. |
| Validation.ValidateFailIsFirst | RimeDictEditor.java:273-307 | A reported failure names a row that exists (1-based). Every earlier row passes. The named field of that row fails with the reported kind. The fields before it in the same row pass. |
| Validation.ValidateAppendPassing | RimeDictEditor.java:162-163 | Appending a passing row does not change the verdict. |
| Validation.RemovePreservesPass | RimeDictEditor.java:169-174 | Removing any row from a table that passes leaves a table that passes. |
| Editor.WithDictSuffix | RimeDictEditor.java:256-258 | The chosen name always ends in `.dict.yaml`. It is kept when it already does, and otherwise extended by the suffix. |
| Editor.WithDictSuffixIdempotent | RimeDictEditor.java:256-258 | Applying the suffix rule twice is the same as applying it once. |
| Editor.DictEditor.constructor | RimeDictEditor.java:34 | The editor starts with an empty table and no current file. |
| Editor.DictEditor.Load | RimeDictEditor.java:193-213 | The table becomes exactly the rows parsed from the file's lines, replacing whatever was there. If the file cannot be opened, the table is empty. |
| Editor.DictEditor.Open | RimeDictEditor.java:187-190 | The chosen file becomes the current file, and the table is loaded from it. |
| Editor.DictEditor.AddRow | RimeDictEditor.java:162-163 | The default row is appended after the existing rows, and the validation verdict is unchanged. |
| Editor.DictEditor.DeleteRow | RimeDictEditor.java:169-174 | With a selection and no edit in progress, exactly the selected row is removed. Otherwise nothing changes. A table that passed validation still passes. |
| Editor.DictEditor.EditCell | RimeDictEditor.java:122-159 | The edit is accepted exactly when the cell editor accepts it. An accepted edit stores the committed value in that one cell. A refused edit changes nothing. An accepted key is always savable. |
| Editor.DictEditor.ValidateData | RimeDictEditor.java:273-307 | Returns the verdict of the first-failure validation of the current table. |
| Editor.DictEditor.SaveFile | RimeDictEditor.java:215-235 | No current file → save-as is needed. A failing table → refused with the first failure, and nothing is written. A passing table → its serialization is written to the current file. |
| Editor.DictEditor.WriteRows | RimeDictEditor.java:230-235 | Writes, after the given header, one line per row of the table: the row's fields joined by tabs. |
| Editor.DictEditor.SaveAs | RimeDictEditor.java:254-269 | A dismissed dialog changes nothing. Otherwise the suffixed name becomes the current file. The save stops if the user declines to overwrite an existing file, and goes ahead as a save to that file otherwise. |

## Behaviour worth knowing

- A file that cannot be opened leaves the table empty, not as it was: the table
  is cleared (line 194) before the file is opened.
- Lines are not trimmed before they are classified. The `#` test and the
  split are done on the raw line, and the fields are kept untrimmed.
- The `---` … `...` header block is not recognised. Its lines are skipped
  only because they contain no tab, so a header line with exactly three
  tab-separated fields would become a row.
- The class tests of the save validation apply to the raw field. The word and
  weight editors test the trimmed text but store the raw text. As a result,
  an edit those editors accept can still be refused by the next save (see
  `Fields.WordEditAcceptsWhatSaveRefuses`).
- Because `\s` includes the tab, the newline and the carriage return, the key class
  `[a-z\s]+` admits characters the file format uses as separators. The key
  editor trims only the ends of a key, so a key such as `a<TAB>b` is accepted
  and passes the save validation. Its saved line has four fields, and the row
  is lost when the file is opened again (`Codec.TabbedKeyPasses`,
  `Codec.TabbedKeyIsLost`). A key such as `a<CR>b` is accepted in the same
  way (`Codec.CarriageReturnKeyPasses`). `readLine` ends a line at the
  carriage return, so the saved line comes back as two lines of two fields
  each, and the row is lost as well. The model keeps this behaviour as
  written.

## Left out

- The Swing user interface: the window, buttons, the title bar, and row
  selection and scrolling after an add. Dialog answers are parameters of the
  operations.
- File I/O. A read is given as its lines (`None` when it fails), and a save
  returns the text it would write.
  - An `IOException` during a write is not modelled. Neither is the partial
    file such a write could leave behind.
- `readLine` line terminators. The round-trip lemmas read a saved text back by
  cutting it at `\n` only. They exclude `\r` from the rows instead of
  modelling `readLine` ending a line at `\r` or `\r\n`. `Load` takes the lines
  as `readLine` returns them.
- Message texts of the error and success dialogs. A refused save reports
  the row, field and kind of failure instead.
- Codec.ValidatedRoundTrip: requires keys without a tab, newline or carriage
  return. The save validation alone does not guarantee a round trip (see
  `Codec.TabbedKeyIsLost` and `Codec.CarriageReturnKeyPasses`).
- Editor.DictEditor.Load: a read that fails part-way is not modelled. In the
  program, `readLine` can throw after some lines, and the rows appended
  before that stay in the table. The model has only a read that succeeds and
  a file that cannot be opened.
- Editor.DictEditor.SaveFile: when there is no current file, the model
  returns `NeedsName` instead of running the save-as dialog from inside the
  save; `SaveAs` models that dialog separately.
- Strings.ToLower: folds ASCII letters only. Locale-dependent and non-ASCII
  case mappings of Java's `toLowerCase()` are not modelled.
- Text is a sequence of Unicode scalar values, not Java's UTF-16 code units.
  Every character the classes accept is in the Basic Multilingual Plane.
- `null` cells are not modelled, since the table only ever holds strings.
- `parts[1].replace(' ', ' ')` replaces a space with a space, so it is left
  out as the identity.
- Editor.WithDictSuffix: tests the suffix on the whole path rather than on
  `File.getName()`. The two agree for any path, because the suffix contains
  no separator.
- The file-chooser filter, the starting directory of the dialogs, and the
  `main` entry point.
