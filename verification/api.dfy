/**
 * The `/get_answer/` endpoint: answer from the curated cache when a pair
 * matches, otherwise generate an answer, log it and return it; every failure
 * after the cache miss becomes an HTTP 500.
 */
module Api {
  import opened Wrappers
  import Crud
  import Rag

  /** The detail of the 500 response when the generated answer cannot be logged. */
  const WriteFailureDetail := "Failed to add answered question to the database"

  const InternalServerError := 500

  /** The endpoint's outcome: the JSON body `{question, answer}` or an HTTP error. */
  datatype Response = Answer(question: string, answer: string) | HttpError(statusCode: int, detail: string)

  /** `return_answer`. `rag` stands for the retrieval pipeline as it behaves
      on this request, and `write` for the database server's treatment of the
      log insert; `pipelineCalls` lists the questions the pipeline was run on. */
  method ReturnAnswer(db: Crud.Session, question: string, rag: Rag.Pipeline, write: Crud.WriteOutcome)
      returns (response: Response, pipelineCalls: seq<string>)
    requires db.Valid()
    modifies db
    ensures db.Valid()
    ensures db.qaPairs == old(db.qaPairs) && db.nextQaPairId == old(db.nextQaPairId)
    // Cache hit: the cached answer, without touching the pipeline or the log.
    ensures response.Answer? && pipelineCalls == [] ==>
      && response.question == question
      && Crud.IsLookupResult(db.qaPairs, question, Some(response.answer))
    ensures (exists i :: 0 <= i < |db.qaPairs| && Crud.Matches(db.qaPairs[i], question)) <==> pipelineCalls == []
    ensures pipelineCalls == [] ==> response.Answer? && db.answeredQuestions == old(db.answeredQuestions)
    // Cache miss: the pipeline runs once on the question as given.
    ensures pipelineCalls != [] ==> pipelineCalls == [question]
    ensures pipelineCalls != [] && Rag.GetAnswer(rag, question).Failure? ==>
      && response == HttpError(InternalServerError, Rag.GetAnswer(rag, question).error)
      && db.answeredQuestions == old(db.answeredQuestions)
    ensures pipelineCalls != [] && Rag.GetAnswer(rag, question).Success? && write == Crud.Stored ==>
      response == Answer(question, Rag.GetAnswer(rag, question).value)
    ensures pipelineCalls != [] && Rag.GetAnswer(rag, question).Success? && write != Crud.Stored ==>
      response == HttpError(InternalServerError, WriteFailureDetail)
    // The log gains the generated pair exactly when its commit goes through,
    // even when the refresh after it fails.
    ensures pipelineCalls != [] && Rag.GetAnswer(rag, question).Success? && write != Crud.CommitFails ==>
      db.answeredQuestions == old(db.answeredQuestions)
        + [Crud.Row(old(db.nextAnsweredQuestionId), question, Rag.GetAnswer(rag, question).value)]
    ensures pipelineCalls != [] && Rag.GetAnswer(rag, question).Success? && write == Crud.CommitFails ==>
      db.answeredQuestions == old(db.answeredQuestions)
    ensures db.nextAnsweredQuestionId == old(db.nextAnsweredQuestionId)
      + (if pipelineCalls != [] && Rag.GetAnswer(rag, question).Success? && write != Crud.CommitFails then 1 else 0)
  {
    var cached := db.GetAnswerFromQaPairs(question);
    if cached.Some? {
      return Answer(question, cached.value), [];
    }
    pipelineCalls := [question];
    var generated := Rag.GetAnswer(rag, question);
    if generated.Failure? {
      return HttpError(InternalServerError, generated.error), pipelineCalls;
    }
    var logged := db.AddAnsweredQuestion(question, generated.value, write);
    if logged.None? {
      return HttpError(InternalServerError, WriteFailureDetail), pipelineCalls;
    }
    response := Answer(question, generated.value);
  }

  /** The log of answered questions is never read back: asking the same
      uncached question twice runs the pipeline twice and logs two rows, one
      per generated answer. Sampling may make the pipeline answer differently
      on the two requests, so each request has its own pipeline behaviour. */
  method AskTwice(db: Crud.Session, question: string, rag1: Rag.Pipeline, rag2: Rag.Pipeline)
      returns (first: Response, second: Response, calls: seq<string>)
    requires db.Valid()
    requires forall i :: 0 <= i < |db.qaPairs| ==> !Crud.Matches(db.qaPairs[i], question)
    requires Rag.GetAnswer(rag1, question).Success? && Rag.GetAnswer(rag2, question).Success?
    modifies db
    ensures calls == [question, question]
    ensures first == Answer(question, Rag.GetAnswer(rag1, question).value)
    ensures second == Answer(question, Rag.GetAnswer(rag2, question).value)
    ensures db.answeredQuestions == old(db.answeredQuestions)
      + [Crud.Row(old(db.nextAnsweredQuestionId), question, Rag.GetAnswer(rag1, question).value),
         Crud.Row(old(db.nextAnsweredQuestionId) + 1, question, Rag.GetAnswer(rag2, question).value)]
    ensures db.qaPairs == old(db.qaPairs) && db.nextQaPairId == old(db.nextQaPairId)
    ensures db.nextAnsweredQuestionId == old(db.nextAnsweredQuestionId) + 2
    ensures db.Valid()
  {
    var calls1, calls2;
    first, calls1 := ReturnAnswer(db, question, rag1, Crud.Stored);
    assert calls1 == [question];
    second, calls2 := ReturnAnswer(db, question, rag2, Crud.Stored);
    assert calls2 == [question];
    calls := calls1 + calls2;
  }
}
