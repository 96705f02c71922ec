/**
 * Merging the cleaned question/answer pairs into the knowledge base: each
 * pair becomes one extra chunk whose text holds both the question and the
 * answer.
 */
module PrepareData {
  import opened Wrappers
  import opened CleanData

  const QueryLabel: string := "Query: "
  const AnswerLabel: string := "\n\nAnswer: "

  /** Id of the chunk made from the first QA pair; the i-th gets `FirstQaChunkId + i`. */
  const FirstQaChunkId: int := 2000

  /** Document number all QA chunks are filed under. */
  const QaDocumentId: int := 14

  /** The text of a QA chunk: the question after a "Query: " label, then the
      answer after an "Answer: " label on a new paragraph. */
  function Combine(question: string, answer: string): (r: string)
    ensures |r| == |QueryLabel| + |question| + |AnswerLabel| + |answer|
    ensures r[..|QueryLabel|] == QueryLabel
    ensures r[|QueryLabel|..|QueryLabel| + |question|] == question
    ensures r[|QueryLabel| + |question|..|QueryLabel| + |question| + |AnswerLabel|] == AnswerLabel
    ensures r[|r| - |answer|..] == answer
  {
    QueryLabel + question + AnswerLabel + answer
  }

  /** The chunk made from the `i`-th QA pair. */
  function QaChunk(i: nat, pair: QaRecord): KbChunk {
    KbChunk(FirstQaChunkId + i, Combine(pair.question, pair.answer), QaDocumentId, Some(0))
  }

  /** The rows appended for the QA pairs, one per pair, in QA order. */
  function NewRows(pairs: seq<QaRecord>): (r: seq<KbChunk>)
    ensures |r| == |pairs|
    ensures forall i :: 0 <= i < |pairs| ==> r[i] == QaChunk(i, pairs[i])
  {
    seq(|pairs|, i requires 0 <= i < |pairs| => QaChunk(i, pairs[i]))
  }

  /** The combined knowledge base: the original chunks, unchanged, followed by one
      chunk per QA pair with ids 2000, 2001, ..., document 14 and part 0. */
  function PrepareKnowledgeBase(chunks: seq<KbChunk>, pairs: seq<QaRecord>): (r: seq<KbChunk>)
    ensures |r| == |chunks| + |pairs|
    ensures r[..|chunks|] == chunks
    ensures forall i :: 0 <= i < |pairs| ==>
      var c := r[|chunks| + i];
      c.id == FirstQaChunkId + i && c.documentId == QaDocumentId && c.partId == Some(0)
      && c.chunk == QueryLabel + pairs[i].question + AnswerLabel + pairs[i].answer
  {
    chunks + NewRows(pairs)
  }

  predicate DistinctIds(chunks: seq<KbChunk>) {
    forall i, j :: 0 <= i < j < |chunks| ==> chunks[i].id != chunks[j].id
  }

  /** When every original chunk id is distinct and below 2000, the combined
      knowledge base still has distinct ids. */
  lemma PreparedIdsDistinct(chunks: seq<KbChunk>, pairs: seq<QaRecord>)
    requires DistinctIds(chunks)
    requires forall c :: c in chunks ==> c.id < FirstQaChunkId
    ensures DistinctIds(PrepareKnowledgeBase(chunks, pairs))
  {
    var r := PrepareKnowledgeBase(chunks, pairs);
    forall i, j | 0 <= i < j < |r| ensures r[i].id != r[j].id {
      if j < |chunks| {
        assert r[i] == chunks[i] && r[j] == chunks[j];
      } else if i < |chunks| {
        assert r[i] == chunks[i] && r[i] in chunks;
      }
    }
  }
}
