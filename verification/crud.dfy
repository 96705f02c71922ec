/**
 * The two tables of the answer database and the operations on them: the
 * curated `qa_pairs` table that serves as the answer cache, and the
 * `answered_questions` log of questions answered by generation.
 */
module Crud {
  import opened Wrappers
  import opened Text

  /** A row of either table: an auto-incremented id, a question and its answer. */
  datatype Row = Row(id: int, question: string, answer: string)

  /** Ids grow strictly along the table and are all below the next id the
      table's sequence will hand out. */
  predicate IdsFresh(table: seq<Row>, nextId: int) {
    (forall i, j :: 0 <= i < j < |table| ==> table[i].id < table[j].id)
    && (forall i :: 0 <= i < |table| ==> table[i].id < nextId)
  }

  /** The cache matches a row when the lower-cased question equals the
      lower-cased input; nothing else (such as whitespace) is normalised. */
  predicate Matches(row: Row, question: string) {
    Lower(row.question) == Lower(question)
  }

  /** What the lookup may return: nothing when no row matches, otherwise the
      answer of some matching row (the query has no ORDER BY). */
  ghost predicate IsLookupResult(table: seq<Row>, question: string, answer: Option<string>) {
    match answer
    case None => forall i :: 0 <= i < |table| ==> !Matches(table[i], question)
    case Some(a) => exists i :: 0 <= i < |table| && Matches(table[i], question) && table[i].answer == a
  }

  /** How the database server treats one insert: stored and read back, the
      commit failing, or the commit succeeding and the refresh failing. */
  datatype WriteOutcome = Stored | CommitFails | RefreshFails

  /** An open database session over both tables. */
  class Session {
    var qaPairs: seq<Row>
    var answeredQuestions: seq<Row>
    var nextQaPairId: int
    var nextAnsweredQuestionId: int

    ghost predicate Valid()
      reads this
    {
      IdsFresh(qaPairs, nextQaPairId) && IdsFresh(answeredQuestions, nextAnsweredQuestionId)
    }

    /** A freshly created schema: both tables empty, both sequences starting at 1. */
    constructor ()
      ensures Valid()
      ensures qaPairs == [] && answeredQuestions == []
      ensures nextQaPairId == 1 && nextAnsweredQuestionId == 1
    {
      qaPairs := [];
      answeredQuestions := [];
      nextQaPairId := 1;
      nextAnsweredQuestionId := 1;
    }

    /** `add_qa_pair`: insert and commit one curated pair; the new row, with its
        fresh id, is returned. */
    method AddQaPair(question: string, answer: string) returns (row: Row)
      requires Valid()
      modifies this
      ensures Valid()
      ensures row == Row(old(nextQaPairId), question, answer)
      ensures forall r :: r in old(qaPairs) ==> r.id < row.id
      ensures qaPairs == old(qaPairs) + [row]
      ensures nextQaPairId == old(nextQaPairId) + 1
      ensures answeredQuestions == old(answeredQuestions)
      ensures nextAnsweredQuestionId == old(nextAnsweredQuestionId)
    {
      row := Row(nextQaPairId, question, answer);
      qaPairs := qaPairs + [row];
      nextQaPairId := nextQaPairId + 1;
    }

    /** `add_answered_question`: insert, commit and refresh one generated pair.
        The database server decides the outcome: the commit may fail (the call
        raises and nothing is stored), or the commit may succeed and the
        refresh fail (the call raises although the row is stored). */
    method AddAnsweredQuestion(question: string, answer: string, outcome: WriteOutcome) returns (row: Option<Row>)
      requires Valid()
      modifies this
      ensures Valid()
      ensures row.Some? <==> outcome == Stored
      ensures row.Some? ==> row.value == Row(old(nextAnsweredQuestionId), question, answer)
      ensures outcome != CommitFails ==>
        && answeredQuestions == old(answeredQuestions) + [Row(old(nextAnsweredQuestionId), question, answer)]
        && nextAnsweredQuestionId == old(nextAnsweredQuestionId) + 1
      ensures outcome == CommitFails ==>
        answeredQuestions == old(answeredQuestions) && nextAnsweredQuestionId == old(nextAnsweredQuestionId)
      ensures qaPairs == old(qaPairs) && nextQaPairId == old(nextQaPairId)
    {
      row := None;
      if outcome != CommitFails {
        var r := Row(nextAnsweredQuestionId, question, answer);
        answeredQuestions := answeredQuestions + [r];
        nextAnsweredQuestionId := nextAnsweredQuestionId + 1;
        if outcome == Stored {
          row := Some(r);
        }
      }
    }

    /** `get_answer_from_qa_pairs`: the answer of some row whose question equals
        the input up to case, or `None` when there is no such row. Reads only. */
    method GetAnswerFromQaPairs(question: string) returns (answer: Option<string>)
      ensures answer.None? <==> forall i :: 0 <= i < |qaPairs| ==> !Matches(qaPairs[i], question)
      ensures answer.Some? ==> exists i :: 0 <= i < |qaPairs| && Matches(qaPairs[i], question) && qaPairs[i].answer == answer.value
    {
      if i :| 0 <= i < |qaPairs| && Matches(qaPairs[i], question) {
        answer := Some(qaPairs[i].answer);
      } else {
        answer := None;
      }
    }
  }

  /** Two inputs with the same lower-casing admit exactly the same lookup results. */
  lemma LookupIsCaseInsensitive(table: seq<Row>, q1: string, q2: string, answer: Option<string>)
    requires Lower(q1) == Lower(q2)
    ensures IsLookupResult(table, q1, answer) <==> IsLookupResult(table, q2, answer)
  {
  }

  /** Looking up the lower-cased input is the same as looking up the input. */
  lemma LookupOfLowered(table: seq<Row>, question: string, answer: Option<string>)
    ensures IsLookupResult(table, Lower(question), answer) <==> IsLookupResult(table, question, answer)
  {
    LowerIdempotent(question);
  }

  /** When all rows matching the input agree on the answer, the lookup is
      deterministic: any two admissible results are equal. */
  lemma LookupDeterminedWhenAnswersAgree(table: seq<Row>, question: string, a1: Option<string>, a2: Option<string>)
    requires forall i, j ::
      0 <= i < |table| && 0 <= j < |table| && Matches(table[i], question) && Matches(table[j], question) ==>
        table[i].answer == table[j].answer
    requires IsLookupResult(table, question, a1) && IsLookupResult(table, question, a2)
    ensures a1 == a2
  {
  }

  /** An upper-case spelling of a stored Cyrillic question finds its answer. */
  lemma UpperCaseQuestionHitsCache()
    ensures IsLookupResult([Row(1, "Как вернуть заказ?", "Через приложение в разделе Возвраты.")],
                           "КАК ВЕРНУТЬ ЗАКАЗ?", Some("Через приложение в разделе Возвраты."))
  {
    var table := [Row(1, "Как вернуть заказ?", "Через приложение в разделе Возвраты.")];
    var stored := "Как вернуть заказ?";
    var asked := "КАК ВЕРНУТЬ ЗАКАЗ?";
    assert Lower(stored) == Lower(asked) by {
      assert |stored| == |asked| == 18;
      forall k | 0 <= k < 18 ensures LowerChar(stored[k]) == LowerChar(asked[k]) {
      }
    }
    assert Matches(table[0], asked);
  }

  /** Matching does not trim: a leading space turns the same question into a miss. */
  lemma LeadingSpaceMissesCache()
    ensures IsLookupResult([Row(1, "Как вернуть заказ?", "Через приложение в разделе Возвраты.")],
                           " Как вернуть заказ?", None)
  {
    var stored := "Как вернуть заказ?";
    var asked := " Как вернуть заказ?";
    assert |Lower(stored)| != |Lower(asked)|;
  }
}
