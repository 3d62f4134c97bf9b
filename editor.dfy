/**
 * The editing session: the table of rows the window shows and the file it
 * was opened from or last saved to, with the operations behind the Open,
 * Save, Add and Delete buttons and the cell editors. Dialog answers and the
 * contents of the file read are passed in as parameters; the text a save
 * would write is returned.
 */
module Editor {
  import opened Wrappers
  import opened Strings
  import opened Fields
  import opened Validation
  import opened Codec

  /** The file name suffix of a Rime dictionary. */
  const DictSuffix: string := ".dict.yaml"

  /**
   * The name a save-as choice is turned into: kept when it already ends in
   * the dictionary suffix, otherwise extended with it. The result always
   * ends in the suffix, so applying the rule again changes nothing.
   */
  function WithDictSuffix(path: string): (r: string)
    ensures EndsWith(r, DictSuffix)
    ensures EndsWith(path, DictSuffix) ==> r == path
    ensures r == path || r == path + DictSuffix
  {
    if EndsWith(path, DictSuffix) then path
    else
      var r := path + DictSuffix;
      assert r[|r| - |DictSuffix|..] == DictSuffix;
      r
  }

  /** The save-as name rule is idempotent. */
  lemma WithDictSuffixIdempotent(path: string)
    ensures WithDictSuffix(WithDictSuffix(path)) == WithDictSuffix(path)
  {
  }

  /** A row with one field replaced. */
  function WithField(r: Row, f: Field, v: string): Row {
    match f
    case Word => r.(word := v)
    case Key => r.(key := v)
    case Weight => r.(weight := v)
  }

  lemma ParseNext(lines: seq<string>, i: nat)
    requires i < |lines|
    ensures Parse(lines[..i + 1]) == Parse(lines[..i]) + RowsOf(ParseLine(lines[i]))
  {
    assert lines[..i + 1] == lines[..i] + [lines[i]];
    ParseConcat(lines[..i], [lines[i]]);
  }

  /** Writing row `i` after the rows before it extends the written text by that row's line. */
  lemma WriteRow(prefix: string, text: string, rows: seq<Row>, i: nat)
    requires i < |rows| && text == prefix + Body(rows[..i])
    ensures text + RowText(rows[i]) + "\n" == prefix + Body(rows[..i + 1])
  {
    BodySnoc(rows[..i], rows[i]);
    assert rows[..i + 1] == rows[..i] + [rows[i]];
  }

  /** What pressing Save (or confirming Save As) leads to. */
  datatype SaveOutcome =
    | NeedsName                         // no current file: the save-as dialog is shown instead
    | Refused(verdict: Verdict)         // the table failed validation: nothing is written
    | Written(path: string, text: string) // `text` is written to the file at `path`
    | Cancelled                         // the dialog was dismissed or overwriting was declined

  /** The outcome of a save to a known file, decided by the table alone. */
  function SaveTo(path: string, rows: seq<Row>): SaveOutcome {
    if Validate(rows).Fail? then Refused(Validate(rows)) else Written(path, Serialize(rows))
  }

  class DictEditor {
    /** The rows of the table, in display order. */
    var rows: seq<Row>
    /** The file opened or last chosen for saving. */
    var currentFile: Option<string>

    constructor ()
      ensures rows == [] && currentFile == None
    {
      rows := [];
      currentFile := None;
    }

    /**
     * Fills the table from the lines of a file (`read`), or leaves it empty
     * when the file cannot be read (`read == None`): the table is cleared
     * before reading, so earlier rows never survive a load.
     */
    method Load(read: Option<seq<string>>)
      modifies this`rows
      ensures rows == if read.Some? then Parse(read.value) else []
    {
      rows := [];
      if read.Some? {
        var lines := read.value;
        var i := 0;
        while i < |lines|
          invariant 0 <= i <= |lines|
          invariant rows == Parse(lines[..i])
        {
          var line := lines[i];
          ghost var before := rows;
          if !(StartsWith(line, "#") || Trim(line) == []) {
            var parts := Split(line, '\t');
            if |parts| == 3 {
              rows := rows + [Row(parts[0], parts[1], parts[2])];
            }
          }
          assert rows == before + RowsOf(ParseLine(line));
          ParseNext(lines, i);
          i := i + 1;
        }
        assert lines[..|lines|] == lines;
      }
    }

    /**
     * Opening a file chosen in the open dialog: it becomes the current file,
     * even if reading it then fails, and the table is reloaded from it.
     */
    method Open(path: string, read: Option<seq<string>>)
      modifies this
      ensures currentFile == Some(path)
      ensures rows == if read.Some? then Parse(read.value) else []
    {
      currentFile := Some(path);
      Load(read);
    }

    /** Appends the default row at the end; the verdict of the save validation does not change. */
    method AddRow()
      modifies this`rows
      ensures rows == old(rows) + [DefaultRow()]
      ensures Validate(rows) == Validate(old(rows))
    {
      ValidateAppendPassing(rows, DefaultRow());
      rows := rows + [DefaultRow()];
    }

    /**
     * Removes the selected row, unless nothing is selected (`selected == -1`)
     * or a cell is being edited. A table that passed validation still does.
     */
    method DeleteRow(selected: int, editing: bool)
      requires -1 <= selected < |rows|
      modifies this`rows
      ensures if selected != -1 && !editing
        then rows == old(rows)[..selected] + old(rows)[selected + 1..]
        else rows == old(rows)
      ensures Validate(old(rows)) == Pass ==> Validate(rows) == Pass
    {
      if selected != -1 && !editing {
        if Validate(rows) == Pass {
          RemovePreservesPass(rows, selected);
        }
        rows := rows[..selected] + rows[selected + 1..];
      }
    }

    /**
     * Finishing an edit of the cell in column `f` of row `row` with the typed
     * `text`. An accepted edit stores the committed value in that cell and
     * changes nothing else; a refused one leaves the table as it was.
     */
    method EditCell(row: nat, f: Field, text: string) returns (accepted: bool)
      requires row < |rows|
      modifies this`rows
      ensures accepted <==> CommitEdit(f, text).Accepted?
      ensures accepted ==> rows == old(rows)[row := WithField(old(rows)[row], f, CommitEdit(f, text).stored)]
      ensures !accepted ==> rows == old(rows)
      ensures accepted && f == Key ==> FieldFlaw(Key, rows[row].key) == None
    {
      var value: string;
      if f == Key {
        value := Trim(ToLower(text));
      } else {
        value := Trim(text);
      }
      if !Matches(f, value) {
        return false;
      }
      var stored := if f == Key then value else text;
      rows := rows[row := WithField(rows[row], f, stored)];
      accepted := true;
    }

    /**
     * The save validation: rows in order, fields in the order word, key,
     * weight, each first tested for being blank after trim() and then against
     * its class; the first failure is returned with its 1-based row number.
     */
    method ValidateData() returns (v: Verdict)
      ensures v == Validate(rows)
    {
      var i := 0;
      while i < |rows|
        invariant 0 <= i <= |rows|
        invariant ValidateFrom(rows, i) == Validate(rows)
      {
        var word, key, weight := rows[i].word, rows[i].key, rows[i].weight;
        if Trim(word) == [] {
          return Fail(i + 1, Word, Blank);
        }
        if !Matches(Word, word) {
          return Fail(i + 1, Word, OutsideClass);
        }
        if Trim(key) == [] {
          return Fail(i + 1, Key, Blank);
        }
        if !Matches(Key, key) {
          return Fail(i + 1, Key, OutsideClass);
        }
        if Trim(weight) == [] {
          return Fail(i + 1, Weight, Blank);
        }
        if !Matches(Weight, weight) {
          return Fail(i + 1, Weight, OutsideClass);
        }
        i := i + 1;
      }
      return Pass;
    }

    /**
     * The Save button. Without a current file the save-as dialog takes over.
     * Otherwise the table is validated first, and only a table that passes
     * is written: the fixed header, then one line per row in table order.
     */
    method SaveFile() returns (out: SaveOutcome)
      ensures currentFile.None? ==> out == NeedsName
      ensures currentFile.Some? && Validate(rows).Fail? ==> out == Refused(Validate(rows))
      ensures currentFile.Some? && Validate(rows) == Pass ==> out == Written(currentFile.value, Serialize(rows))
    {
      if currentFile.None? {
        return NeedsName;
      }
      var verdict := ValidateData();
      if verdict.Fail? {
        return Refused(verdict);
      }
      var text := WriteRows(Header);
      return Written(currentFile.value, text);
    }

    /** The writing loop of a save: after `header`, each row's fields joined by tabs, one line per row. */
    method WriteRows(header: string) returns (text: string)
      ensures text == header + Body(rows)
    {
      text := header;
      var i := 0;
      while i < |rows|
        invariant 0 <= i <= |rows|
        invariant text == header + Body(rows[..i])
      {
        WriteRow(header, text, rows, i);
        text := text + JoinOn([rows[i].word, rows[i].key, rows[i].weight], '\t') + "\n";
        i := i + 1;
      }
      assert rows[..|rows|] == rows;
    }

    /**
     * Save As, with the dialog's answers as parameters: `choice` is the chosen
     * path (None when the dialog is dismissed), `fileExists` whether a file of
     * the suffixed name exists, and `overwrite` the answer to the overwrite
     * question. The suffixed name becomes the current file before that
     * question is asked, so it stays current even when overwriting is declined.
     */
    method SaveAs(choice: Option<string>, fileExists: bool, overwrite: bool) returns (out: SaveOutcome)
      modifies this`currentFile
      ensures choice.None? ==> out == Cancelled && currentFile == old(currentFile)
      ensures choice.Some? ==> currentFile == Some(WithDictSuffix(choice.value))
      ensures choice.Some? && fileExists && !overwrite ==> out == Cancelled
      ensures choice.Some? && !(fileExists && !overwrite) ==> out == SaveTo(currentFile.value, rows)
    {
      if choice.None? {
        return Cancelled;
      }
      currentFile := Some(WithDictSuffix(choice.value));
      if fileExists && !overwrite {
        return Cancelled;
      }
      out := SaveFile();
    }
  }
}
