/**
 * One dictionary entry (a table row of word, phonetic key and weight), the
 * character class each field must match, the per-field check that the save
 * validation applies, and the per-column edit commit rules.
 */
module Fields {
  import opened Wrappers
  import opened Strings

  /** One row of the editor's table, fields in column order. */
  datatype Row = Row(word: string, key: string, weight: string)

  /** The three columns. */
  datatype Field = Word | Key | Weight

  function FieldOf(r: Row, f: Field): string {
    match f
    case Word => r.word
    case Key => r.key
    case Weight => r.weight
  }

  /** A character of the regex class `[一-龥]`. */
  predicate IsHanzi(c: char) {
    '\U{4E00}' <= c <= '\U{9FA5}'
  }

  /** A character of the regex class `\s` without UNICODE_CHARACTER_CLASS: ` \t\n\x0B\f\r`. */
  predicate IsRegexSpace(c: char) {
    c == ' ' || c == '\t' || c == '\n' || c == '\U{000B}' || c == '\U{000C}' || c == '\r'
  }

  /** A character of the regex class `[a-z\s]`. */
  predicate IsKeyChar(c: char) {
    'a' <= c <= 'z' || IsRegexSpace(c)
  }

  /** A character of the regex class `\d` without UNICODE_CHARACTER_CLASS: ASCII digits. */
  predicate IsDigit(c: char) {
    '0' <= c <= '9'
  }

  /** The character class of each column. */
  predicate InClass(f: Field, c: char) {
    match f
    case Word => IsHanzi(c)
    case Key => IsKeyChar(c)
    case Weight => IsDigit(c)
  }

  /** `value.matches("[class]+")`: a whole-string match of one or more characters of the column's class. */
  predicate Matches(f: Field, v: string) {
    |v| > 0 && forall i :: 0 <= i < |v| ==> InClass(f, v[i])
  }

  /** Why a field is refused by the save validation. */
  datatype Flaw =
    | Blank        // empty after trim()
    | OutsideClass // does not match the column's class

  /**
   * The save-time test of one field: first emptiness after `trim()`, then the
   * class match on the value as stored (not trimmed).
   */
  function FieldFlaw(f: Field, v: string): Option<Flaw> {
    if Trim(v) == [] then Some(Blank)
    else if !Matches(f, v) then Some(OutsideClass)
    else None
  }

  /**
   * What the save-time field test accepts, without reference to trim(): a
   * word or weight passes exactly when it matches its class; a key passes
   * exactly when it matches its class and holds at least one letter. The
   * test reports a blank field exactly when every character is trimmable.
   */
  lemma FieldFlawMeaning(f: Field, v: string)
    ensures f != Key ==> (FieldFlaw(f, v) == None <==> Matches(f, v))
    ensures f == Key ==> (FieldFlaw(Key, v) == None <==> Matches(Key, v) && HasLetter(v))
    ensures FieldFlaw(f, v) == Some(Blank) <==> forall i :: 0 <= i < |v| ==> IsTrimmable(v[i])
  {
    TrimSpec(v);
    if Matches(f, v) && f != Key {
      assert !IsTrimmable(v[0]);
    }
    if f == Key && Matches(Key, v) && HasLetter(v) {
      var i :| 0 <= i < |v| && 'a' <= v[i] <= 'z';
      assert !IsTrimmable(v[i]);
    }
    if f == Key && Matches(Key, v) && Trim(v) != [] {
      var t := Trim(v);
      var a := |v| - |TrimStart(v)|;
      assert t[0] == v[a] && !IsTrimmable(v[a]) && IsKeyChar(v[a]);
    }
  }

  /** The string holds at least one ASCII lower-case letter. */
  predicate HasLetter(v: string) {
    exists i :: 0 <= i < |v| && 'a' <= v[i] <= 'z'
  }

  /**
   * The first flaw of a row in column order word, key, weight, tagged with
   * its column; None when all three fields pass.
   */
  function RowFlaw(r: Row): (flaw: Option<(Field, Flaw)>)
    ensures flaw == None <==>
      FieldFlaw(Word, r.word) == None && FieldFlaw(Key, r.key) == None && FieldFlaw(Weight, r.weight) == None
    ensures flaw.Some? ==> FieldFlaw(flaw.value.0, FieldOf(r, flaw.value.0)) == Some(flaw.value.1)
    ensures flaw.Some? && flaw.value.0 != Word ==> FieldFlaw(Word, r.word) == None
    ensures flaw.Some? && flaw.value.0 == Weight ==> FieldFlaw(Key, r.key) == None
  {
    if FieldFlaw(Word, r.word).Some? then Some((Word, FieldFlaw(Word, r.word).value))
    else if FieldFlaw(Key, r.key).Some? then Some((Key, FieldFlaw(Key, r.key).value))
    else if FieldFlaw(Weight, r.weight).Some? then Some((Weight, FieldFlaw(Weight, r.weight).value))
    else None
  }

  /** The row the Add button appends: 新词条 / pinyin / 10000. It passes the save validation. */
  function DefaultRow(): (r: Row)
    ensures RowFlaw(r) == None
  {
    DefaultWordPasses();
    DefaultKeyPasses();
    DefaultWeightPasses();
    Row("新词条", "pinyin", "10000")
  }

  lemma DefaultWordPasses() ensures FieldFlaw(Word, "新词条") == None {}
  lemma DefaultKeyPasses() ensures FieldFlaw(Key, "pinyin") == None {}
  lemma DefaultWeightPasses() ensures FieldFlaw(Weight, "10000") == None {}

  /** The outcome of finishing a cell edit. */
  datatype Commit =
    | Accepted(stored: string) // the editor closes and `stored` becomes the cell's value
    | Rejected                 // the editor stays open and the cell keeps its prior value

  /**
   * The column editors' `stopCellEditing`. The key editor lowercases and trims
   * the text, tests it, and stores the normalised value. The word and weight
   * editors test the trimmed text but store the text as typed.
   */
  function CommitEdit(f: Field, text: string): (c: Commit)
    ensures f == Key ==> (c.Accepted? <==> FieldFlaw(Key, Trim(ToLower(text))) == None)
    ensures f == Key && c.Accepted? ==> c.stored == Trim(ToLower(text)) && FieldFlaw(Key, c.stored) == None
    ensures f != Key ==> (c.Accepted? <==> FieldFlaw(f, Trim(text)) == None)
    ensures f != Key && c.Accepted? ==> c.stored == text
  {
    match f
    case Key =>
      var v := Trim(ToLower(text));
      TrimSpec(ToLower(text));
      FieldFlawMeaning(Key, v);
      if Matches(Key, v) then Accepted(v) else Rejected
    case _ =>
      var v := Trim(text);
      FieldFlawMeaning(f, v);
      if Matches(f, v) then Accepted(text) else Rejected
  }

  /** A key edit accepted once is accepted again, unchanged: normalisation is idempotent. */
  lemma KeyEditIdempotent(text: string)
    requires CommitEdit(Key, text).Accepted?
    ensures CommitEdit(Key, CommitEdit(Key, text).stored) == CommitEdit(Key, text)
  {
    var v := Trim(ToLower(text));
    ToLowerTrim(text);
    ToLowerTwice(Trim(text));
    assert ToLower(v) == v;
    TrimSpec(ToLower(text));
    TrimFixed(v);
  }

  /**
   * The word editor accepts a word with a leading blank and stores it as
   * typed; the save validation then refuses the stored value, because its
   * class test is on the untrimmed value.
   */
  lemma WordEditAcceptsWhatSaveRefuses()
    ensures CommitEdit(Word, " 你好") == Accepted(" 你好")
    ensures FieldFlaw(Word, " 你好") == Some(OutsideClass)
  {
    assert " 你好" == [' '] + "你好";
    assert TrimStart(" 你好") == TrimStart("你好");
    TrimFixed("你好");
    assert !IsHanzi(" 你好"[0]);
  }

  /** The same holds of the weight editor and a weight with a trailing blank. */
  lemma WeightEditAcceptsWhatSaveRefuses()
    ensures CommitEdit(Weight, "12 ") == Accepted("12 ")
    ensures FieldFlaw(Weight, "12 ") == Some(OutsideClass)
  {
    assert "12 " == "12" + [' '];
    assert TrimEnd("12 ") == TrimEnd("12");
    TrimFixed("12");
    assert !IsDigit("12 "[2]);
  }

  /** The key editor folds case and strips blanks: "HAO Mi" is stored as "hao mi". */
  lemma KeyEditExample()
    ensures CommitEdit(Key, "HAO Mi") == Accepted("hao mi")
  {
    LowerHaoMi();
    TrimFixed("hao mi");
    assert Matches(Key, "hao mi");
  }

  lemma LowerHaoMi()
    ensures ToLower("HAO Mi") == "hao mi"
  {
    var s, r := "HAO Mi", ToLower("HAO Mi");
    assert r[0] == LowerChar(s[0]) == 'h';
    assert r[1] == LowerChar(s[1]) == 'a';
    assert r[2] == LowerChar(s[2]) == 'o';
    assert r[3] == LowerChar(s[3]) == ' ';
    assert r[4] == LowerChar(s[4]) == 'm';
    assert r[5] == LowerChar(s[5]) == 'i';
  }

  /** The weight editor refuses a value with a letter in it. */
  lemma WeightEditExample()
    ensures CommitEdit(Weight, "12a") == Rejected
  {
    TrimFixed("12a");
    assert !IsDigit("12a"[2]);
  }
}
