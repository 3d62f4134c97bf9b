/**
 * The dictionary file format: a permissive line parser that keeps the lines
 * splitting into exactly three tab-separated fields, and a serializer that
 * writes a fixed header followed by one tab-separated line per row.
 */
module Codec {
  import opened Wrappers
  import opened Strings
  import opened Fields
  import opened Validation

  // ------------------------------------------------------------------ parse

  /** The row a data line of the file stands for, or None for a line that is skipped. */
  function ParseLine(line: string): Option<Row> {
    if StartsWith(line, "#") || Trim(line) == [] then None
    else
      var parts := Split(line, '\t');
      if |parts| == 3 then Some(Row(parts[0], parts[1], parts[2])) else None
  }

  function RowsOf(o: Option<Row>): seq<Row> {
    if o.Some? then [o.value] else []
  }

  /** The rows read from the lines of a file, in file order. */
  function Parse(lines: seq<string>): (rows: seq<Row>)
    ensures |rows| <= |lines|
  {
    if lines == [] then [] else RowsOf(ParseLine(lines[0])) + Parse(lines[1..])
  }

  /** Parsing works line by line: the rows of two pieces of a file are the rows of each, in order. */
  lemma {:induction false} ParseConcat(a: seq<string>, b: seq<string>)
    ensures Parse(a + b) == Parse(a) + Parse(b)
  {
    if a != [] {
      assert (a + b)[1..] == a[1..] + b;
      ParseConcat(a[1..], b);
    } else {
      assert a + b == b;
    }
  }

  /** The text of a data line without its terminator: the fields joined by tabs. */
  function RowText(r: Row): string {
    JoinOn([r.word, r.key, r.weight], '\t')
  }

  lemma RowTextShape(r: Row)
    ensures RowText(r) == r.word + ['\t'] + r.key + ['\t'] + r.weight
  {
    var parts := [r.word, r.key, r.weight];
    assert parts[1..] == [r.key, r.weight];
    assert [r.key, r.weight][1..] == [r.weight];
    assert JoinOn([r.weight], '\t') == r.weight;
    assert JoinOn([r.key, r.weight], '\t') == r.key + ['\t'] + r.weight;
    assert JoinOn(parts, '\t') == r.word + ['\t'] + (r.key + ['\t'] + r.weight);
  }

  /**
   * A kept line is neither a comment nor blank, and it is the kept row's
   * fields joined by tabs, followed by nothing but tabs; the fields hold no
   * tab and the weight is not empty. No field is trimmed or checked.
   */
  lemma ParseLineSound(line: string, r: Row)
    requires ParseLine(line) == Some(r)
    ensures !StartsWith(line, "#") && Trim(line) != []
    ensures '\t' !in r.word && '\t' !in r.key && '\t' !in r.weight && r.weight != []
    ensures RowText(r) <= line && forall i :: |RowText(r)| <= i < |line| ==> line[i] == '\t'
  {
    var parts := Split(line, '\t');
    assert parts == [r.word, r.key, r.weight];
    SplitLosesOnlySeparators(line, '\t');
    assert '\t' in line;
    assert parts[2] != [];
  }

  /**
   * Conversely, a line that is neither a comment nor blank, made of three
   * tab-free fields with a non-empty last one, joined by tabs and followed by
   * any number of tabs, is kept as exactly those fields.
   */
  lemma ParseLineComplete(r: Row, n: nat)
    requires '\t' !in r.word && '\t' !in r.key && '\t' !in r.weight && r.weight != []
    requires !StartsWith(RowText(r) + Repeat('\t', n), "#")
    requires Trim(RowText(r) + Repeat('\t', n)) != []
    ensures ParseLine(RowText(r) + Repeat('\t', n)) == Some(r)
  {
    SplitRecoversFields([r.word, r.key, r.weight], n, '\t');
  }

  /**
   * A line without a tab is never kept. This is the only reason the lines of
   * a `---` ... `...` header block (`name:`, `version:`, `sort:`) are skipped:
   * the block itself is not recognised.
   */
  lemma LineWithoutTabSkipped(line: string)
    requires '\t' !in line
    ensures ParseLine(line) == None
  {
    NoTabSplit(line);
  }

  /** Trailing empty fields are discarded before counting: `a\tb\t` has two fields and is skipped. */
  lemma TrailingTabShortLine()
    ensures ParseLine("a\tb\t") == None
  {
    assert "a\tb\t" == JoinOn(["a", "b"], '\t') + Repeat('\t', 1);
    SplitRecoversFields(["a", "b"], 1, '\t');
  }

  /** Trailing empty fields are discarded before counting: `a\tb\tc\t\t` has three fields and is kept. */
  lemma TrailingTabsKept()
    ensures ParseLine("a\tb\tc\t\t") == Some(Row("a", "b", "c"))
  {
    var r := Row("a", "b", "c");
    RowTextShape(r);
    assert "a\tb\tc\t\t" == RowText(r) + Repeat('\t', 2);
    assert "a\tb\tc\t\t"[0] == 'a';
    TrimSpec("a\tb\tc\t\t");
    ParseLineComplete(r, 2);
  }

  // -------------------------------------------------------------- serialize

  /** The lines of the header written before the rows, the same whatever file was loaded. */
  const HeaderLines: seq<string> := [
    "# Rime dictionary", "# encoding: utf-8", "",
    "---", "name: custom_simple", "version: \"2024.1.0\"", "sort: by_weight", "...", ""]

  /**
   * The header text: each header line followed by a line break, that is
   * "# Rime dictionary\n# encoding: utf-8\n\n---\nname: custom_simple\n"
   * "version: \"2024.1.0\"\nsort: by_weight\n...\n\n".
   */
  const Header: string := Terminated(HeaderLines, '\n')

  /** The data lines of a table, in table order. */
  function RowLines(rows: seq<Row>): (ls: seq<string>)
    ensures |ls| == |rows|
  {
    if rows == [] then [] else [RowText(rows[0])] + RowLines(rows[1..])
  }

  lemma {:induction false} RowLinesSnoc(rows: seq<Row>, r: Row)
    ensures RowLines(rows + [r]) == RowLines(rows) + [RowText(r)]
  {
    if rows == [] {
      assert [] + [r] == [r];
    } else {
      assert (rows + [r])[1..] == rows[1..] + [r];
      RowLinesSnoc(rows[1..], r);
    }
  }

  /** The rows part of a saved file: one terminated line per row. */
  function Body(rows: seq<Row>): string {
    Terminated(RowLines(rows), '\n')
  }

  /** Writing one more row appends its line and a line break. */
  lemma BodySnoc(rows: seq<Row>, r: Row)
    ensures Body(rows + [r]) == Body(rows) + RowText(r) + "\n"
  {
    RowLinesSnoc(rows, r);
    TerminatedSnoc(RowLines(rows), RowText(r), '\n');
  }

  /** The text of a saved file. */
  function Serialize(rows: seq<Row>): string {
    Header + Body(rows)
  }

  lemma HeaderLinesNoNewline()
    ensures forall i :: 0 <= i < |HeaderLines| ==> '\n' !in HeaderLines[i]
  {
    forall i | 0 <= i < |HeaderLines| ensures '\n' !in HeaderLines[i] {
      var l := HeaderLines[i];
      assert forall j :: 0 <= j < |l| ==> l[j] != '\n';
    }
  }


  lemma HeaderLinesNoTab()
    ensures forall i :: 0 <= i < |HeaderLines| ==> '\t' !in HeaderLines[i]
  {
    forall i | 0 <= i < |HeaderLines| ensures '\t' !in HeaderLines[i] {
      var l := HeaderLines[i];
      assert forall j :: 0 <= j < |l| ==> l[j] != '\t';
    }
  }



  /** Neither a tab nor a line terminator. */
  predicate NoBreak(s: string) {
    '\t' !in s && NoLineEnd(s)
  }

  /**
   * No character at which `BufferedReader.readLine` ends a line: neither a
   * line feed nor a carriage return. Every line it returns has this shape.
   */
  predicate NoLineEnd(s: string) {
    '\n' !in s && '\r' !in s
  }

  /**
   * The saved text, cut at its line breaks, is the header's lines, then each
   * row's fields joined by tabs in table order, then the empty remainder after
   * the final line break.
   */
  lemma SerializeLines(rows: seq<Row>)
    requires forall i :: 0 <= i < |rows| ==> '\n' !in RowText(rows[i])
    ensures SplitOn(Serialize(rows), '\n') == HeaderLines + (RowLines(rows) + [[]])
  {
    SplitAfterHeader(Body(rows));
    SplitBody(rows);
  }

  lemma SplitAfterHeader(tail: string)
    ensures SplitOn(Header + tail, '\n') == HeaderLines + SplitOn(tail, '\n')
  {
    HeaderLinesNoNewline();
    SplitTerminated(HeaderLines, tail, '\n');
  }

  lemma SplitBody(rows: seq<Row>)
    requires forall i :: 0 <= i < |rows| ==> '\n' !in RowText(rows[i])
    ensures SplitOn(Body(rows), '\n') == RowLines(rows) + [[]]
  {
    RowLinesAt(rows);
    SplitTerminated(RowLines(rows), [], '\n');
    assert Body(rows) + [] == Body(rows);
  }

  lemma {:induction false} RowLinesAt(rows: seq<Row>)
    ensures forall i :: 0 <= i < |rows| ==> RowLines(rows)[i] == RowText(rows[i])
  {
    if rows != [] {
      RowLinesAt(rows[1..]);
    }
  }

  // ------------------------------------------------------------- round trip

  /** A row whose data line reads back as the same row. */
  predicate Storable(r: Row) {
    NoBreak(r.word) && NoBreak(r.key) && NoBreak(r.weight) && r.weight != [] &&
    !StartsWith(RowText(r), "#") && Trim(RowText(r)) != []
  }

  /** Every row of the table is storable. */
  predicate AllStorable(rows: seq<Row>) {
    forall i :: 0 <= i < |rows| ==> Storable(rows[i])
  }

  lemma StorableReadsBack(r: Row)
    requires Storable(r)
    ensures ParseLine(RowText(r)) == Some(r)
  {
    assert RowText(r) + Repeat('\t', 0) == RowText(r);
    ParseLineComplete(r, 0);
  }

  /** The header contributes no rows: none of its lines holds a tab. */
  lemma HeaderParsesEmpty()
    ensures Parse(HeaderLines) == []
  {
    HeaderLinesNoTab();
    forall i | 0 <= i < |HeaderLines| ensures ParseLine(HeaderLines[i]) == None {
      LineWithoutTabSkipped(HeaderLines[i]);
    }
    ParseLinesNone(HeaderLines);
  }

  lemma NoTabSplit(line: string)
    requires '\t' !in line
    ensures |Split(line, '\t')| == 1
  {
  }

  lemma {:induction false} ParseLinesNone(lines: seq<string>)
    requires forall i :: 0 <= i < |lines| ==> ParseLine(lines[i]) == None
    ensures Parse(lines) == []
  {
    if lines != [] {
      ParseLinesNone(lines[1..]);
    }
  }

  lemma {:induction false} ParseRowLines(rows: seq<Row>)
    requires AllStorable(rows)
    ensures Parse(RowLines(rows)) == rows
  {
    if rows != [] {
      StorableReadsBack(rows[0]);
      ParseRowLines(rows[1..]);
      ParseConcat([RowText(rows[0])], RowLines(rows[1..]));
    }
  }

  /**
   * Saving then reading back: the lines of the saved text parse to exactly
   * the saved rows, in order, whenever every row is storable.
   */
  lemma RoundTrip(rows: seq<Row>)
    requires AllStorable(rows)
    ensures Parse(SplitOn(Serialize(rows), '\n')) == rows
  {
    forall i | 0 <= i < |rows| ensures '\n' !in RowText(rows[i]) {
      RowTextShape(rows[i]);
    }
    ReadBack(rows);
    ParseRowLines(rows);
  }

  /** Reading a saved file back parses exactly its row lines. */
  lemma ReadBack(rows: seq<Row>)
    requires forall i :: 0 <= i < |rows| ==> '\n' !in RowText(rows[i])
    ensures Parse(SplitOn(Serialize(rows), '\n')) == Parse(RowLines(rows))
  {
    SerializeLines(rows);
    ParseAfterHeader(RowLines(rows) + [[]]);
    ParseConcat(RowLines(rows), [[]]);
    assert ParseLine([]) == None;
  }

  /** Whatever follows the header parses as if the header were not there. */
  lemma ParseAfterHeader(lines: seq<string>)
    ensures Parse(HeaderLines + lines) == Parse(lines)
  {
    HeaderParsesEmpty();
    ParseConcat(HeaderLines, lines);
  }

  /**
   * A row that passes the save validation is storable once its key holds no
   * tab or line terminator; the word and weight classes exclude them already.
   */
  lemma ValidRowStorable(r: Row)
    requires RowFlaw(r) == None && NoBreak(r.key)
    ensures Storable(r)
  {
    FieldFlawMeaning(Word, r.word);
    FieldFlawMeaning(Weight, r.weight);
    RowTextShape(r);
    var line := RowText(r);
    assert line[0] == r.word[0];
    assert !IsTrimmable(line[0]);
    TrimSpec(line);
    assert NoBreak(r.word) by {
      assert forall i :: 0 <= i < |r.word| ==> IsHanzi(r.word[i]);
    }
    assert NoBreak(r.weight) by {
      assert forall i :: 0 <= i < |r.weight| ==> IsDigit(r.weight[i]);
    }
  }

  /**
   * A table that passes the save validation and whose keys hold no tab or
   * line terminator reads back, after saving, as the same table. The key class
   * `[a-z\s]+` does admit them: see TabbedKeyIsLost and CarriageReturnKeyPasses.
   */
  lemma ValidatedRoundTrip(rows: seq<Row>)
    requires Validate(rows) == Pass
    requires forall i :: 0 <= i < |rows| ==> NoBreak(rows[i].key)
    ensures Parse(SplitOn(Serialize(rows), '\n')) == rows
  {
    ValidatePassIff(rows);
    forall i | 0 <= i < |rows| ensures Storable(rows[i]) {
      ValidRowStorable(rows[i]);
    }
    RoundTrip(rows);
  }

  /** Four fields joined by tabs. */
  lemma JoinFour(a: string, b: string, c: string, d: string)
    ensures JoinOn([a, b, c, d], '\t') == a + ['\t'] + b + ['\t'] + c + ['\t'] + d
  {
    assert [a, b, c, d][1..] == [b, c, d];
    assert [b, c, d][1..] == [c, d];
    assert [c, d][1..] == [d];
    assert JoinOn([d], '\t') == d;
    assert JoinOn([c, d], '\t') == c + ['\t'] + d;
    assert JoinOn([b, c, d], '\t') == b + ['\t'] + (c + ['\t'] + d);
  }

  /**
   * A key with a tab inside it (which `[a-z\s]+` accepts, `\s` including the
   * tab) turns the row's saved line into four fields, so the line is skipped
   * when the file is read.
   */
  lemma TabbedKeyLineSkipped(w: string, k1: string, k2: string, g: string)
    requires '\t' !in w && '\t' !in k1 && '\t' !in k2 && '\t' !in g && g != []
    ensures ParseLine(RowText(Row(w, k1 + ['\t'] + k2, g))) == None
  {
    var line := RowText(Row(w, k1 + ['\t'] + k2, g));
    RowTextShape(Row(w, k1 + ['\t'] + k2, g));
    JoinFour(w, k1, k2, g);
    assert line == JoinOn([w, k1, k2, g], '\t') + Repeat('\t', 0);
    SplitRecoversFields([w, k1, k2, g], 0, '\t');
  }

  /** A row whose saved line the parser skips is missing from the file read back. */
  lemma UnreadableRowLost(r: Row)
    requires ParseLine(RowText(r)) == None && '\n' !in RowText(r)
    ensures Parse(SplitOn(Serialize([r]), '\n')) == []
  {
    ReadBack([r]);
    assert RowLines([r]) == [RowText(r)];
  }

  /**
   * A row whose key has a tab inside it is written, but the file read back
   * does not contain it: its line splits into four fields.
   */
  lemma TabbedKeyIsLost(w: string, k1: string, k2: string, g: string)
    requires NoBreak(w) && NoBreak(k1) && NoBreak(k2) && NoBreak(g) && g != []
    ensures Parse(SplitOn(Serialize([Row(w, k1 + ['\t'] + k2, g)]), '\n')) == []
  {
    var r := Row(w, k1 + ['\t'] + k2, g);
    TabbedKeyLineSkipped(w, k1, k2, g);
    RowTextShape(r);
    UnreadableRowLost(r);
  }

  /**
   * Such a key passes the save validation: the one-row table
   * (你, a<TAB>b, 1) is accepted by save, so it is written and then lost.
   */
  lemma TabbedKeyPasses()
    ensures Validate([Row("你", "a\tb", "1")]) == Pass
  {
    var r := Row("你", "a\tb", "1");
    assert FieldFlaw(Word, "你") == None;
    assert FieldFlaw(Key, "a\tb") == None;
    assert FieldFlaw(Weight, "1") == None;
    assert RowFlaw(r) == None;
    ValidatePassIff([r]);
  }

  /**
   * A carriage return inside a key passes the save validation as well, and
   * `readLine` ends a line there, so such a row is not storable: it is one of
   * the keys the validated round trip has to exclude.
   */
  lemma CarriageReturnKeyPasses()
    ensures Validate([Row("你", "a\rb", "1")]) == Pass
    ensures !NoBreak("a\rb")
  {
    var r := Row("你", "a\rb", "1");
    assert FieldFlaw(Word, "你") == None;
    assert FieldFlaw(Key, "a\rb") == None;
    assert FieldFlaw(Weight, "1") == None;
    assert RowFlaw(r) == None;
    ValidatePassIff([r]);
    assert "a\rb"[1] == '\r';
  }

  /** Every row the parser produces from lines `readLine` can return is storable. */
  lemma {:induction false} ParsedRowsStorable(lines: seq<string>)
    requires forall i :: 0 <= i < |lines| ==> NoLineEnd(lines[i])
    ensures AllStorable(Parse(lines))
  {
    if lines != [] {
      ParsedRowsStorable(lines[1..]);
      var line := lines[0];
      if ParseLine(line).Some? {
        ParsedRowStorable(line, ParseLine(line).value);
      }
    }
  }

  lemma ParsedRowStorable(line: string, r: Row)
    requires NoLineEnd(line) && ParseLine(line) == Some(r)
    ensures Storable(r)
  {
    ParseLineSound(line, r);
    var t := RowText(r);
    RowTextShape(r);
    PrefixKeepsNoBreak(t, line);
    PrefixKeepsNonBlank(t, line);
    assert t[0] == line[0];
  }

  /** A prefix of a line without line terminators has none either. */
  lemma PrefixKeepsNoBreak(t: string, line: string)
    requires t <= line && NoLineEnd(line)
    ensures NoLineEnd(t)
  {
  }

  /** A prefix of a non-blank line whose rest is tabs is itself non-blank. */
  lemma PrefixKeepsNonBlank(t: string, line: string)
    requires t <= line && Trim(line) != []
    requires forall i :: |t| <= i < |line| ==> line[i] == '\t'
    ensures Trim(t) != []
  {
    TrimSpec(line);
    TrimSpec(t);
    if Trim(t) == [] {
      forall i | 0 <= i < |line| ensures IsTrimmable(line[i]) {
        if i < |t| {
          assert line[i] == t[i];
        }
      }
    }
  }

  /**
   * Saving a parsed file and reading it back gives the same rows: the
   * parser only keeps rows that survive the save format.
   */
  lemma ReparseIsStable(lines: seq<string>)
    requires forall i :: 0 <= i < |lines| ==> NoLineEnd(lines[i])
    ensures Parse(SplitOn(Serialize(Parse(lines)), '\n')) == Parse(lines)
  {
    ParsedRowsStorable(lines);
    RoundTrip(Parse(lines));
  }
}
