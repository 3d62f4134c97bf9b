/**
 * The whole-table check run before every save: rows are examined in order,
 * and within a row the word, then the key, then the weight; the first field
 * that fails stops the check and is reported with its 1-based row number.
 */
module Validation {
  import opened Wrappers
  import opened Fields

  /** The outcome of the save-time check. */
  datatype Verdict =
    | Pass
    | Fail(line: nat, field: Field, flaw: Flaw) // `line` counts rows from 1

  /** The check started at row index `i`. */
  function ValidateFrom(rows: seq<Row>, i: nat): Verdict
    requires i <= |rows|
    decreases |rows| - i
  {
    if i == |rows| then Pass
    else match RowFlaw(rows[i])
      case Some(flaw) => Fail(i + 1, flaw.0, flaw.1)
      case None => ValidateFrom(rows, i + 1)
  }

  /** The check over the whole table. */
  function Validate(rows: seq<Row>): Verdict {
    ValidateFrom(rows, 0)
  }

  /** Every row from index `i` on passes. */
  predicate AllPassFrom(rows: seq<Row>, i: nat) {
    forall j :: i <= j < |rows| ==> RowFlaw(rows[j]) == None
  }

  lemma {:induction false} ValidateFromPass(rows: seq<Row>, i: nat)
    requires i <= |rows|
    ensures ValidateFrom(rows, i) == Pass <==> AllPassFrom(rows, i)
    decreases |rows| - i
  {
    if i < |rows| && RowFlaw(rows[i]) == None {
      ValidateFromPass(rows, i + 1);
    }
  }

  lemma {:induction false} ValidateFromFail(rows: seq<Row>, i: nat, n: nat, f: Field, w: Flaw)
    requires i <= |rows| && ValidateFrom(rows, i) == Fail(n, f, w)
    ensures i < n <= |rows| && RowFlaw(rows[n - 1]) == Some((f, w))
    ensures forall j :: i <= j < n - 1 ==> RowFlaw(rows[j]) == None
    decreases |rows| - i
  {
    if RowFlaw(rows[i]) == None {
      ValidateFromFail(rows, i + 1, n, f, w);
    }
  }

  /**
   * The check passes exactly when every row passes all three field tests;
   * in particular an empty table always passes.
   */
  lemma ValidatePassIff(rows: seq<Row>)
    ensures Validate(rows) == Pass <==> forall j :: 0 <= j < |rows| ==> RowFlaw(rows[j]) == None
  {
    ValidateFromPass(rows, 0);
  }

  /**
   * A failure names the first failing row (1-based) and, within it, the first
   * failing field in the order word, key, weight; every earlier row passes.
   */
  lemma ValidateFailIsFirst(rows: seq<Row>, n: nat, f: Field, w: Flaw)
    requires Validate(rows) == Fail(n, f, w)
    ensures 1 <= n <= |rows|
    ensures forall j :: 0 <= j < n - 1 ==> RowFlaw(rows[j]) == None
    ensures FieldFlaw(f, FieldOf(rows[n - 1], f)) == Some(w)
    ensures f != Word ==> FieldFlaw(Word, rows[n - 1].word) == None
    ensures f == Weight ==> FieldFlaw(Key, rows[n - 1].key) == None
  {
    ValidateFromFail(rows, 0, n, f, w);
  }

  /** Appending a row that passes leaves the verdict unchanged. */
  lemma {:induction false} ValidateAppendPassing(rows: seq<Row>, r: Row)
    requires RowFlaw(r) == None
    ensures Validate(rows + [r]) == Validate(rows)
  {
    var ext := rows + [r];
    forall i | 0 <= i <= |rows| ensures ValidateFrom(ext, i) == ValidateFrom(rows, i) {
      ValidateFromAppend(rows, r, i);
    }
  }

  lemma {:induction false} ValidateFromAppend(rows: seq<Row>, r: Row, i: nat)
    requires RowFlaw(r) == None && i <= |rows|
    ensures ValidateFrom(rows + [r], i) == ValidateFrom(rows, i)
    decreases |rows| - i
  {
    var ext := rows + [r];
    if i == |rows| {
      assert ext[i] == r;
      assert ValidateFrom(ext, i + 1) == Pass;
    } else {
      assert ext[i] == rows[i];
      ValidateFromAppend(rows, r, i + 1);
    }
  }

  /** Removing one row from a table that passes leaves a table that passes. */
  lemma RemovePreservesPass(rows: seq<Row>, k: nat)
    requires k < |rows| && Validate(rows) == Pass
    ensures Validate(rows[..k] + rows[k + 1..]) == Pass
  {
    var rest := rows[..k] + rows[k + 1..];
    ValidatePassIff(rows);
    ValidatePassIff(rest);
    forall j | 0 <= j < |rest| ensures RowFlaw(rest[j]) == None {
      if j < k { assert rest[j] == rows[j]; } else { assert rest[j] == rows[j + 1]; }
    }
  }
}
