/**
 * The retrieval-augmented answer pipeline: the question is embedded (with a
 * fixed instruction prefix), the nearest knowledge-base documents are
 * retrieved, a chat prompt is rendered from a fixed template, and the
 * language model's first reply, stripped, is the answer. Embedder,
 * retriever and language model are opaque: each is a function that either
 * returns its output or raises with a message.
 */
module Rag {
  import opened Wrappers
  import opened Text

  /** A dense query vector; its numeric content is not modelled. */
  type Embedding = seq<real>

  /** A retrieved knowledge-base passage. */
  datatype Document = Document(content: string)

  /** The four components, wired in this order and built once: the text
      embedder (its instruction prefix and its model), the retriever, the
      prompt builder's template and the language model. Each model either
      returns its output or raises with a message. */
  datatype Pipeline = Pipeline(
    embedderPrefix: string,
    embed: string -> Result<Embedding, string>,
    retrieve: Embedding -> Result<seq<Document>, string>,
    template: PromptTemplate,
    generate: string -> Result<seq<string>, string>)

  /** The instruction the text embedder puts in front of every question. */
  const EmbedderPrefix: string :=
    "Instruct: Given a question, retrieve relevant documents that best answer the question\nQuery: "

  /** The assistant's role and rules, in the system turn of the template. */
  const SystemPrompt: string :=
    "Ты — Помощник, русскоязычный автоматический ассистент. "
    + "Ты работаешь в технической поддержке компании Wildberries, крупного российского маркетплейса. "
    + "Ты помогаешь сотрудникам пунктов выдачи заказов (ПВЗ), отвечая на их вопросы. "
    + "Ответь на вопрос сотрудника ПВЗ, используя вспомогательную информацию из базы знаний. "
    + "Отвечай последовательно и по существу. "
    + "Не предоставляй нерелевантную или слишком общую информацию, давай такой ответ, который прямо отвечает на поставленный вопрос, при этом следи, чтобы релевантная информация была передана полностью. "
    + "Отвечай только на основе вспомогательной информации из базы знаний. "
    + "Вежливо отказывайся отвечать на вопросы, которые никак не связаны с Wildberries."

  /** Everything of the template before the documents. */
  const Preamble: string :=
    "<|begin_of_text|><|start_header_id|>system<|end_header_id|>\n\n" + SystemPrompt
    + "<|eot_id|><|start_header_id|>user<|end_header_id|>\n\nВспомогательная информация из базы знаний:\n"

  /** Template text between the last document and the question. */
  const QuestionLabel: string := "\n\nВопрос: "

  /** Rendered text after the question: the end of the user turn and the
      header of the assistant turn the model is to complete. The template
      source ends with two line breaks; the template engine drops the final
      one, as Jinja does by default. */
  const AssistantHeader: string := "<|eot_id|><|start_header_id|>assistant<|end_header_id|>\n"

  /** Indentation the template puts before each document's content. */
  const DocumentIndent: string := "\n    "

  /** The message of the `IndexError` raised by `replies[0]` on an empty reply list. */
  const IndexErrorMessage: string := "list index out of range"

  /** The prompt template: the fixed text around the documents and the question. */
  datatype PromptTemplate = PromptTemplate(preamble: string, questionLabel: string, assistantHeader: string)

  /** The template the prompt builder is configured with. */
  const Template := PromptTemplate(Preamble, QuestionLabel, AssistantHeader)

  /** The application's pipeline: its embedder prefix and template are the
      constants above. */
  predicate IsAppPipeline(p: Pipeline) {
    p.embedderPrefix == EmbedderPrefix && p.template == Template
  }

  /** One pass of the template's loop: the indented content of one document. */
  function DocumentBlock(d: Document): string {
    DocumentIndent + d.content + "\n"
  }

  /** The template's loop over the documents, in the order they were retrieved. */
  function DocumentsBlock(docs: seq<Document>): string {
    if |docs| == 0 then "" else DocumentBlock(docs[0]) + DocumentsBlock(docs[1..])
  }

  /** The prompt builder: template `t` rendered for a question and the
      retrieved documents. */
  function Render(t: PromptTemplate, question: string, docs: seq<Document>): string {
    t.preamble + DocumentsBlock(docs) + t.questionLabel + question + t.assistantHeader
  }

  /** Where the content of the `i`-th document starts in the rendered prompt. */
  function DocumentOffset(t: PromptTemplate, docs: seq<Document>, i: nat): nat
    requires i < |docs|
  {
    |t.preamble| + |DocumentsBlock(docs[..i])| + |DocumentIndent|
  }

  /** Where the question starts in the rendered prompt. */
  function QuestionOffset(t: PromptTemplate, docs: seq<Document>): nat {
    |t.preamble| + |DocumentsBlock(docs)| + |t.questionLabel|
  }

  lemma {:induction false} DocumentsBlockConcat(a: seq<Document>, b: seq<Document>)
    ensures DocumentsBlock(a + b) == DocumentsBlock(a) + DocumentsBlock(b)
  {
    if |a| == 0 {
      assert a + b == b;
    } else {
      assert (a + b)[1..] == a[1..] + b;
      DocumentsBlockConcat(a[1..], b);
    }
  }

  /** The prompt opens with the preamble, holds the question verbatim after
      all documents, and closes with the assistant header. */
  lemma RenderLayout(t: PromptTemplate, question: string, docs: seq<Document>)
    ensures var prompt := Render(t, question, docs);
      && prompt[..|t.preamble|] == t.preamble
      && QuestionOffset(t, docs) + |question| + |t.assistantHeader| == |prompt|
      && prompt[QuestionOffset(t, docs)..QuestionOffset(t, docs) + |question|] == question
      && prompt[|prompt| - |t.assistantHeader|..] == t.assistantHeader
  {
    var prompt := Render(t, question, docs);
    var o := QuestionOffset(t, docs);
    assert prompt == (t.preamble + DocumentsBlock(docs) + t.questionLabel) + question + t.assistantHeader;
    assert prompt[o..o + |question|] == question;
  }

  /** Every retrieved document's content appears verbatim in the prompt,
      between the preamble and the question. */
  lemma RenderContainsDocument(t: PromptTemplate, question: string, docs: seq<Document>, i: nat)
    requires i < |docs|
    ensures var o := DocumentOffset(t, docs, i);
      && |t.preamble| <= o
      && o + |docs[i].content| <= QuestionOffset(t, docs)
      && Render(t, question, docs)[o..o + |docs[i].content|] == docs[i].content
  {
    var c := docs[i].content;
    assert docs == docs[..i] + docs[i..];
    DocumentsBlockConcat(docs[..i], docs[i..]);
    assert docs[i..][0] == docs[i] && docs[i..][1..] == docs[i + 1..];
    var before := t.preamble + DocumentsBlock(docs[..i]) + DocumentIndent;
    var after := "\n" + DocumentsBlock(docs[i + 1..]) + (t.questionLabel + question + t.assistantHeader);
    assert DocumentsBlock(docs[i..]) == DocumentIndent + c + "\n" + DocumentsBlock(docs[i + 1..]);
    assert Render(t, question, docs) == before + c + after by {
      ConcatAssoc(t.preamble, DocumentsBlock(docs[..i]), DocumentIndent, c, DocumentsBlock(docs[i + 1..]),
        t.questionLabel + question + t.assistantHeader);
    }
    assert (before + c + after)[|before|..|before| + |c|] == c;
  }

  lemma ConcatAssoc(a: string, b: string, ind: string, c: string, d: string, e: string)
    ensures a + (b + (ind + c + "\n" + d)) + e == (a + b + ind) + c + ("\n" + d + e)
  {
  }

  /** Documents appear in retrieval order: an earlier document's content ends
      before a later one's begins. */
  lemma RenderKeepsRetrievalOrder(t: PromptTemplate, docs: seq<Document>, i: nat, j: nat)
    requires i < j < |docs|
    ensures DocumentOffset(t, docs, i) + |docs[i].content| < DocumentOffset(t, docs, j)
  {
    assert docs[..j] == docs[..i] + docs[i..j];
    DocumentsBlockConcat(docs[..i], docs[i..j]);
    assert docs[i..j][0] == docs[i];
  }

  /** The text the embedder encodes: the instruction prefix, then the question as given. */
  function EmbedderInput(p: Pipeline, question: string): (r: string)
    ensures |r| == |p.embedderPrefix| + |question|
    ensures r[..|p.embedderPrefix|] == p.embedderPrefix && r[|p.embedderPrefix|..] == question
  {
    p.embedderPrefix + question
  }

  /** Embedder, retriever and prompt builder in sequence: the prompt for
      `question`, or the message of the first stage that raised. */
  function BuildPrompt(p: Pipeline, question: string): (r: Result<string, string>)
    ensures p.embed(EmbedderInput(p, question)).Failure? ==> r == Failure(p.embed(EmbedderInput(p, question)).error)
    ensures p.embed(EmbedderInput(p, question)).Success? && p.retrieve(p.embed(EmbedderInput(p, question)).value).Failure? ==>
      r == Failure(p.retrieve(p.embed(EmbedderInput(p, question)).value).error)
    ensures r.Success? <==>
      p.embed(EmbedderInput(p, question)).Success? && p.retrieve(p.embed(EmbedderInput(p, question)).value).Success?
    ensures r.Success? ==>
      r.value == Render(p.template, question, p.retrieve(p.embed(EmbedderInput(p, question)).value).value)
  {
    match p.embed(EmbedderInput(p, question))
    case Failure(e) => Failure(e)
    case Success(vector) =>
      match p.retrieve(vector)
      case Failure(e) => Failure(e)
      case Success(docs) => Success(Render(p.template, question, docs))
  }

  /** `get_answer`: run the pipeline and return the first reply without its
      surrounding whitespace. A stage that raises makes the whole call raise
      with its message; an empty reply list raises an `IndexError`. */
  function GetAnswer(p: Pipeline, question: string): (r: Result<string, string>)
    ensures r.Success? ==> IsStripped(r.value)
    ensures BuildPrompt(p, question).Failure? ==> r == Failure(BuildPrompt(p, question).error)
    ensures BuildPrompt(p, question).Success? ==>
      var replies := p.generate(BuildPrompt(p, question).value);
      && (replies.Failure? ==> r == Failure(replies.error))
      && (replies.Success? && |replies.value| == 0 ==> r == Failure(IndexErrorMessage))
      && (replies.Success? && |replies.value| > 0 ==>
            r.Success? && exists i: nat, j: nat :: TrimOf(replies.value[0], r.value, i, j))
  {
    match BuildPrompt(p, question)
    case Failure(e) => Failure(e)
    case Success(prompt) =>
      match p.generate(prompt)
      case Failure(e) => Failure(e)
      case Success(replies) =>
        if |replies| == 0 then Failure(IndexErrorMessage)
        else
          StripIsTrim(replies[0]);
          Success(Strip(replies[0]))
  }

  /** The one question string reaches both the embedder (after its prefix) and
      the prompt (after all documents). */
  lemma QuestionReachesEmbedderAndPrompt(p: Pipeline, question: string)
    requires BuildPrompt(p, question).Success?
    ensures EmbedderInput(p, question)[|p.embedderPrefix|..] == question
    ensures exists docs ::
      && BuildPrompt(p, question).value == Render(p.template, question, docs)
      && Render(p.template, question, docs)[QuestionOffset(p.template, docs)..QuestionOffset(p.template, docs) + |question|] == question
  {
    var docs := p.retrieve(p.embed(EmbedderInput(p, question)).value).value;
    RenderLayout(p.template, question, docs);
  }

  /** In the application's pipeline every prompt opens with the system turn and
      ends with the header of the assistant turn the model completes. */
  lemma AppPromptFraming(p: Pipeline, question: string)
    requires IsAppPipeline(p) && BuildPrompt(p, question).Success?
    ensures var prompt := BuildPrompt(p, question).value;
      && prompt[..|Preamble|] == Preamble
      && prompt[|prompt| - |AssistantHeader|..] == AssistantHeader
  {
    var docs := p.retrieve(p.embed(EmbedderInput(p, question)).value).value;
    RenderLayout(p.template, question, docs);
  }
}
