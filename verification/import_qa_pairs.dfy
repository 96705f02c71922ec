/**
 * The import script: load the cleaned question/answer table into the
 * curated `qa_pairs` cache, row by row, trimming both cells.
 */
module QaImport {
  import opened Wrappers
  import opened Text
  import Crud

  /** A parsed CSV cell: text, or the NaN that the CSV reader produces for an
      empty cell. */
  datatype Cell = Str(value: string) | NaN

  datatype CsvRow = CsvRow(question: Cell, answer: Cell)

  /** A row whose two cells can be stripped. */
  predicate Complete(row: CsvRow) {
    row.question.Str? && row.answer.Str?
  }

  /** The index of the first row with a NaN cell, or the length when there is none. */
  function FirstIncomplete(csv: seq<CsvRow>): (n: nat)
    ensures n <= |csv|
    ensures forall k :: 0 <= k < n ==> Complete(csv[k])
    ensures n < |csv| ==> !Complete(csv[n])
  {
    if |csv| == 0 || !Complete(csv[0]) then 0 else 1 + FirstIncomplete(csv[1..])
  }

  /** The cache row a complete CSV row becomes under id `id`: both cells stripped. */
  function StoredRow(row: CsvRow, id: int): Crud.Row
    requires Complete(row)
  {
    Crud.Row(id, Strip(row.question.value), Strip(row.answer.value))
  }

  /** A stored question or answer carries no surrounding whitespace and is the
      trim of its CSV cell. */
  lemma StoredRowIsStripped(row: CsvRow, id: int)
    requires Complete(row)
    ensures IsStripped(StoredRow(row, id).question) && IsStripped(StoredRow(row, id).answer)
    ensures exists i: nat, j: nat :: TrimOf(row.question.value, StoredRow(row, id).question, i, j)
    ensures exists i: nat, j: nat :: TrimOf(row.answer.value, StoredRow(row, id).answer, i, j)
  {
    StripIsTrim(row.question.value);
    StripIsTrim(row.answer.value);
  }

  /** Every row of `csv` is complete. */
  predicate AllComplete(csv: seq<CsvRow>) {
    forall k :: 0 <= k < |csv| ==> Complete(csv[k])
  }

  /** The cache rows that importing complete CSV rows appends, in file order,
      ids counted from `firstId`. */
  function ImportedRows(csv: seq<CsvRow>, firstId: int): (rows: seq<Crud.Row>)
    requires AllComplete(csv)
    ensures |rows| == |csv|
  {
    if |csv| == 0 then []
    else ImportedRows(csv[..|csv| - 1], firstId) + [StoredRow(csv[|csv| - 1], firstId + |csv| - 1)]
  }

  /** Row `k` of the import is CSV row `k` stored under id `firstId + k`. */
  lemma {:induction false} ImportedRowAt(csv: seq<CsvRow>, firstId: int, k: nat)
    requires AllComplete(csv) && k < |csv|
    ensures ImportedRows(csv, firstId)[k] == StoredRow(csv[k], firstId + k)
  {
    var init := csv[..|csv| - 1];
    if k < |init| {
      ImportedRowAt(init, firstId, k);
    }
  }

  /** The import does not deduplicate: two equal CSV rows become two rows with
      the same question and answer under different ids. */
  lemma ImportKeepsRepeats(csv: seq<CsvRow>, firstId: int, i: nat, j: nat)
    requires AllComplete(csv) && i < j < |csv| && csv[i] == csv[j]
    ensures var rows := ImportedRows(csv, firstId);
      && rows[i].question == rows[j].question && rows[i].answer == rows[j].answer
      && rows[i].id < rows[j].id
  {
    ImportedRowAt(csv, firstId, i);
    ImportedRowAt(csv, firstId, j);
  }

  /** Importing one more row appends it under the next id. */
  lemma ImportedRowsStep(csv: seq<CsvRow>, firstId: int, k: nat)
    requires k < |csv| && AllComplete(csv[..k + 1])
    ensures AllComplete(csv[..k])
    ensures ImportedRows(csv[..k + 1], firstId) == ImportedRows(csv[..k], firstId) + [StoredRow(csv[k], firstId + k)]
  {
    assert csv[..k + 1][..k] == csv[..k];
  }

  /** `import_qa_pairs`: one insert-and-commit per CSV row, in file order.
      Stripping a NaN cell raises, which ends the import: the rows before it
      stay committed and `failedRow` names the row that raised. */
  method ImportQaPairs(db: Crud.Session, csv: seq<CsvRow>) returns (failedRow: Option<nat>)
    requires db.Valid()
    modifies db
    ensures db.Valid()
    ensures failedRow == if FirstIncomplete(csv) < |csv| then Some(FirstIncomplete(csv)) else None
    ensures AllComplete(csv[..FirstIncomplete(csv)])
    ensures db.qaPairs == old(db.qaPairs) + ImportedRows(csv[..FirstIncomplete(csv)], old(db.nextQaPairId))
    ensures db.nextQaPairId == old(db.nextQaPairId) + FirstIncomplete(csv)
    ensures db.answeredQuestions == old(db.answeredQuestions)
    ensures db.nextAnsweredQuestionId == old(db.nextAnsweredQuestionId)
  {
    ghost var before := db.qaPairs;
    ghost var firstId := db.nextQaPairId;
    ghost var n := FirstIncomplete(csv);
    var k := 0;
    while k < |csv| && Complete(csv[k])
      invariant 0 <= k <= n
      invariant db.Valid()
      invariant AllComplete(csv[..k])
      invariant db.qaPairs == before + ImportedRows(csv[..k], firstId)
      invariant db.nextQaPairId == firstId + k
      invariant db.answeredQuestions == old(db.answeredQuestions)
      invariant db.nextAnsweredQuestionId == old(db.nextAnsweredQuestionId)
    {
      var question := Strip(csv[k].question.value);
      var answer := Strip(csv[k].answer.value);
      assert k < n;
      var row := db.AddQaPair(question, answer);
      assert AllComplete(csv[..k + 1]);
      ImportedRowsStep(csv, firstId, k);
      k := k + 1;
    }
    assert k == n;
    failedRow := if k < |csv| then Some(k) else None;
  }

  /** Cells that differ only in surrounding whitespace are stored identically. */
  lemma PaddedCellsStoreEqual(a: string, b: string, i: nat, j: nat, r: string)
    requires TrimOf(a, r, i, j)
    requires exists i2: nat, j2: nat :: TrimOf(b, r, i2, j2)
    ensures Strip(a) == Strip(b)
  {
    TrimIsUnique(a, r, i, j);
    var i2: nat, j2: nat :| TrimOf(b, r, i2, j2);
    TrimIsUnique(b, r, i2, j2);
  }
}
