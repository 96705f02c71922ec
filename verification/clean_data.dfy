/**
 * The offline cleaning of the spreadsheet data: removing duplicated
 * question/answer pairs and duplicated knowledge-base chunks, filling the
 * missing part numbers, and replacing markup tags in chunk text by line
 * breaks.
 */
module CleanData {
  import opened Wrappers
  import opened Frames

  /** One row of the QA-pairs sheet. */
  datatype QaRecord = QaRecord(id: int, question: string, answer: string)

  /** One row of the knowledge-base sheet; an empty `part_id` cell is `None`. */
  datatype KbChunk = KbChunk(id: int, chunk: string, documentId: int, partId: Option<int>)

  function Question(r: QaRecord): string { r.question }
  function Id(r: QaRecord): int { r.id }
  function ChunkText(c: KbChunk): string { c.chunk }
  function ChunkId(c: KbChunk): int { c.id }

  /** `len(group["answer"].unique()) > 1`: the group holds two different answers. */
  predicate HasSeveralAnswers(group: seq<QaRecord>) {
    exists x, y :: x in group && y in group && x.answer != y.answer
  }

  /** Two rows of `rows` ask `q` and answer it differently. */
  ghost predicate AnswersDiffer(rows: seq<QaRecord>, q: string) {
    exists x, y :: x in rows && y in rows && x.question == q && y.question == q && x.answer != y.answer
  }

  /** The rows of questions asked more than once whose answers differ (the `grouped` frame). */
  function ConflictingRows(rows: seq<QaRecord>): (g: seq<QaRecord>)
    ensures forall x :: x in g <==> x in rows && Occurrences(rows, Question, x.question) >= 2 && AnswersDiffer(rows, x.question)
  {
    var duplicateQuestions := Duplicated(rows, Question);
    var g := FilterGroups(duplicateQuestions, Question, HasSeveralAnswers);
    forall x ensures x in g <==> x in rows && Occurrences(rows, Question, x.question) >= 2 && AnswersDiffer(rows, x.question) {
      if x in duplicateQuestions {
        var group := Group(duplicateQuestions, Question, x.question);
        assert forall y :: y in group <==> y in rows && y.question == x.question;
        if AnswersDiffer(rows, x.question) {
          var y, z :| y in rows && z in rows && y.question == x.question && z.question == x.question && y.answer != z.answer;
          assert y in group && z in group;
        }
      }
    }
    g
  }

  /** The cleaned QA table: unique questions kept, for a repeated question with
      conflicting answers only its latest row, sorted by id. */
  function DedupQaPairs(rows: seq<QaRecord>): (r: seq<QaRecord>)
    ensures SortedBy(r, Id)
  {
    var grouped := ConflictingRows(rows);
    var groupedSorted := SortBy(grouped, Id);
    var cleaned := KeepLast(groupedSorted, Question);
    var singles := DropAllDuplicates(rows, Question);
    SortBy(singles + cleaned, Id)
  }

  /** Every row of the cleaned table is a row of the input, unchanged. */
  lemma DedupRowsFromInput(rows: seq<QaRecord>, x: QaRecord)
    requires x in DedupQaPairs(rows)
    ensures x in rows
  {
    var grouped := ConflictingRows(rows);
    var groupedSorted := SortBy(grouped, Id);
    var cleaned := KeepLast(groupedSorted, Question);
    var singles := DropAllDuplicates(rows, Question);
    assert x in multiset(singles + cleaned);
    if x in cleaned {
      assert x in multiset(groupedSorted);
    }
  }

  /** How often question `q` occurs in the cleaned table: once if it was asked
      once, or asked repeatedly with conflicting answers; never otherwise. */
  lemma DedupQuestionCount(rows: seq<QaRecord>, q: string)
    ensures Occurrences(DedupQaPairs(rows), Question, q) ==
      if Occurrences(rows, Question, q) == 1 || (Occurrences(rows, Question, q) >= 2 && AnswersDiffer(rows, q)) then 1 else 0
  {
    var cleaned := KeepLast(SortBy(ConflictingRows(rows), Id), Question);
    var singles := DropAllDuplicates(rows, Question);
    OccurrencesPermutation(DedupQaPairs(rows), singles + cleaned, Question, q);
    OccurrencesConcat(singles, cleaned, Question, q);
    ConflictingCount(rows, q);
  }

  /** The `cleaned` frame holds one row for each question asked repeatedly
      with conflicting answers, and none for any other question. */
  lemma ConflictingCount(rows: seq<QaRecord>, q: string)
    ensures Occurrences(KeepLast(SortBy(ConflictingRows(rows), Id), Question), Question, q) ==
      if Occurrences(rows, Question, q) >= 2 && AnswersDiffer(rows, q) then 1 else 0
  {
    var grouped := ConflictingRows(rows);
    var groupedSorted := SortBy(grouped, Id);
    OccurrencesPermutation(groupedSorted, grouped, Question, q);
    KeepLastCount(groupedSorted, Question, q);
    OccurrencesPositive(grouped, Question, q);
    if Occurrences(rows, Question, q) >= 2 && AnswersDiffer(rows, q) {
      OccurrencesPositive(rows, Question, q);
      var i :| 0 <= i < |rows| && rows[i].question == q;
      assert rows[i] in grouped;
    }
  }

  /** The cleaned table never asks the same question twice. */
  lemma DedupUniqueQuestions(rows: seq<QaRecord>, q: string)
    ensures Occurrences(DedupQaPairs(rows), Question, q) <= 1
  {
    DedupQuestionCount(rows, q);
  }

  /** A row whose question is asked only once survives unchanged. */
  lemma DedupKeepsSingles(rows: seq<QaRecord>, x: QaRecord)
    requires x in rows && Occurrences(rows, Question, x.question) == 1
    ensures x in DedupQaPairs(rows)
  {
    var grouped := ConflictingRows(rows);
    var cleaned := KeepLast(SortBy(grouped, Id), Question);
    var singles := DropAllDuplicates(rows, Question);
    assert x in singles;
    SortByMembers(singles + cleaned, Id, x);
  }

  /** A question asked repeatedly, always with the same answer, disappears entirely. */
  lemma DedupDropsRepeatedAgreeing(rows: seq<QaRecord>, q: string)
    requires Occurrences(rows, Question, q) >= 2 && !AnswersDiffer(rows, q)
    ensures forall x :: x in DedupQaPairs(rows) ==> x.question != q
  {
    DedupQuestionCount(rows, q);
    var r := DedupQaPairs(rows);
    OccurrencesPositive(r, Question, q);
    assert forall i :: 0 <= i < |r| ==> r[i].question != q;
  }

  /** A question asked repeatedly with conflicting answers keeps exactly one row,
      and that row carries the largest id among the rows asking it. */
  lemma DedupKeepsLatest(rows: seq<QaRecord>, q: string)
    requires Occurrences(rows, Question, q) >= 2 && AnswersDiffer(rows, q)
    ensures Occurrences(DedupQaPairs(rows), Question, q) == 1
    ensures forall x, y :: x in DedupQaPairs(rows) && x.question == q && y in rows && y.question == q ==> y.id <= x.id
  {
    DedupQuestionCount(rows, q);
    forall x, y | x in DedupQaPairs(rows) && x.question == q && y in rows && y.question == q
      ensures y.id <= x.id
    {
      LatestSurvivor(rows, x, y);
    }
  }

  lemma LatestSurvivor(rows: seq<QaRecord>, x: QaRecord, y: QaRecord)
    requires x in DedupQaPairs(rows) && y in rows && y.question == x.question
    requires Occurrences(rows, Question, x.question) >= 2
    ensures y.id <= x.id
  {
    var grouped := ConflictingRows(rows);
    var groupedSorted := SortBy(grouped, Id);
    ConflictingSurvivor(rows, x);
    SortByMembers(grouped, Id, x);
    SortByMembers(grouped, Id, y);
    KeepLastOfSortedIsLatest(groupedSorted, Question, Id, x, y);
  }

  /** A row that survives for a repeated question comes from the `cleaned` frame. */
  lemma ConflictingSurvivor(rows: seq<QaRecord>, x: QaRecord)
    requires x in DedupQaPairs(rows)
    requires Occurrences(rows, Question, x.question) >= 2
    ensures x in KeepLast(SortBy(ConflictingRows(rows), Id), Question)
  {
    var cleaned := KeepLast(SortBy(ConflictingRows(rows), Id), Question);
    var singles := DropAllDuplicates(rows, Question);
    SortByMembers(singles + cleaned, Id, x);
  }

  /** `drop_duplicates(subset=["chunk"], keep="first").sort_values("id")`. */
  function DedupChunks(chunks: seq<KbChunk>): (r: seq<KbChunk>)
    ensures SortedBy(r, ChunkId)
  {
    SortBy(KeepFirst(chunks, ChunkText), ChunkId)
  }

  /** Each chunk text of the input occurs exactly once after deduplication. */
  lemma DedupChunksCount(chunks: seq<KbChunk>, t: string)
    ensures Occurrences(DedupChunks(chunks), ChunkText, t) == if Occurrences(chunks, ChunkText, t) > 0 then 1 else 0
  {
    OccurrencesPermutation(DedupChunks(chunks), KeepFirst(chunks, ChunkText), ChunkText, t);
    KeepFirstCount(chunks, ChunkText, t);
  }

  /** The row kept for a chunk text is the first input row with that text. */
  lemma DedupChunksKeepsFirst(chunks: seq<KbChunk>, x: KbChunk)
    requires x in DedupChunks(chunks)
    ensures exists j :: 0 <= j < |chunks| && chunks[j] == x && Occurrences(chunks[..j], ChunkText, x.chunk) == 0
  {
    assert x in multiset(KeepFirst(chunks, ChunkText));
    KeepFirstIsFirst(chunks, ChunkText, x);
  }

  /** `fillna(0)` on one `part_id` cell. */
  function FillPartId(partId: Option<int>): (r: int)
    ensures partId.Some? ==> r == partId.value
    ensures partId.None? ==> r == 0
  {
    partId.GetOr(0)
  }

  /** `replace(to_replace="/n", value="\n", regex=False)` on one cell: only a cell
      that is exactly "/n" changes. */
  function ReplaceSlashN(cell: string): (r: string)
    ensures cell == "/n" ==> r == "\n"
    ensures cell != "/n" ==> r == cell
  {
    if cell == "/n" then "\n" else cell
  }

  /** `t` is one match of the pattern `<[^>]+>`. */
  predicate IsTag(t: string) {
    |t| >= 3 && t[0] == '<' && t[|t| - 1] == '>' && forall k :: 1 <= k < |t| - 1 ==> t[k] != '>'
  }

  /** Some substring of `s` matches `<[^>]+>`. */
  ghost predicate ContainsTag(s: string) {
    exists i, j :: 0 <= i < j <= |s| && IsTag(s[i..j])
  }

  predicate NoGt(s: string) {
    forall k :: 0 <= k < |s| ==> s[k] != '>'
  }

  /** Index of the first '>' in `s` at or after `from`. */
  function FindGt(s: string, from: nat): (r: Option<nat>)
    requires from <= |s|
    ensures r.Some? ==> from <= r.value < |s| && s[r.value] == '>' && NoGt(s[from..r.value])
    ensures r.None? ==> NoGt(s[from..])
    decreases |s| - from
  {
    if from == |s| then None
    else if s[from] == '>' then Some(from)
    else
      var r := FindGt(s, from + 1);
      assert r.Some? ==> s[from..r.value] == [s[from]] + s[from + 1..r.value];
      assert r.None? ==> s[from..] == [s[from]] + s[from + 1..];
      r
  }

  /** Length of the match of `<[^>]+>` at the very start of `s`, or 0 when no match starts there. */
  function TagLength(s: string): (n: nat)
    ensures n <= |s|
    ensures n > 0 ==> IsTag(s[..n])
    ensures forall j :: 0 < j <= |s| && IsTag(s[..j]) ==> n == j
  {
    if |s| >= 3 && s[0] == '<' && s[1] != '>' then
      match FindGt(s, 2)
      case Some(k) =>
        assert forall j :: 0 < j <= |s| && IsTag(s[..j]) ==> j == k + 1 by {
          forall j | 0 < j <= |s| && IsTag(s[..j]) ensures j == k + 1 {
            assert s[j - 1] == '>' by { assert s[..j][j - 1] == s[j - 1]; }
            assert forall i :: 1 <= i < j - 1 ==> s[i] != '>' by {
              forall i | 1 <= i < j - 1 ensures s[i] != '>' { assert s[..j][i] == s[i]; }
            }
            assert forall i :: 2 <= i < k ==> s[i] != '>' by {
              forall i | 2 <= i < k ensures s[i] != '>' { assert s[2..k][i - 2] == s[i]; }
            }
          }
        }
        assert forall i :: 1 <= i < k ==> s[..k + 1][i] == s[i];
        assert forall i :: 2 <= i < k ==> s[i] == s[2..k][i - 2];
        k + 1
      case None =>
        assert forall j :: 0 < j <= |s| ==> !IsTag(s[..j]) by {
          forall j | 0 < j <= |s| ensures !IsTag(s[..j]) {
            if j >= 3 { assert s[..j][j - 1] == s[2..][j - 3]; }
          }
        }
        0
    else
      assert forall j :: 0 < j <= |s| ==> !IsTag(s[..j]) by {
        forall j | 0 < j <= |s| ensures !IsTag(s[..j]) {
          if j >= 3 { assert s[..j][0] == s[0] && s[..j][1] == s[1]; }
        }
      }
      0
  }

  /** `pattern.sub("\n", s)` for the pattern `<[^>]+>`: scanning left to right,
      each match is replaced by one newline and every other character is kept. */
  function ReplaceTags(s: string): (r: string)
    ensures |r| <= |s|
    ensures NoGt(s) ==> NoGt(r)
    ensures |s| > 0 && s[0] == '>' ==> |r| > 0 && r[0] == '>'
    decreases |s|
  {
    if |s| == 0 then ""
    else
      var n := TagLength(s);
      if n > 0 then "\n" + ReplaceTags(s[n..])
      else
        assert NoGt(s) ==> NoGt(s[1..]);
        [s[0]] + ReplaceTags(s[1..])
  }

  /** After the replacement no substring matches the pattern any more. */
  lemma {:induction false} ReplaceTagsLeavesNoTag(s: string)
    ensures !ContainsTag(ReplaceTags(s))
    decreases |s|
  {
    if |s| > 0 {
      var n := TagLength(s);
      var tail := if n > 0 then s[n..] else s[1..];
      ReplaceTagsLeavesNoTag(tail);
      var r := ReplaceTags(s);
      var rest := ReplaceTags(tail);
      FirstStepCannotOpenTag(s);
      forall i, j | 0 <= i < j <= |r| ensures !IsTag(r[i..j]) {
        NoTagAcross(r[0], rest, i, j);
      }
    }
  }

  /** One step of the scan emits one character; when that character is '<',
      the rest of the output either starts with '>' or holds no '>' at all. */
  lemma FirstStepCannotOpenTag(s: string)
    requires |s| > 0
    ensures var n := TagLength(s);
      var rest := ReplaceTags(if n > 0 then s[n..] else s[1..]);
      var r := ReplaceTags(s);
      && |r| == 1 + |rest| && r == [r[0]] + rest
      && (r[0] != '<' || (|rest| > 0 && rest[0] == '>') || NoGt(rest))
  {
    var n := TagLength(s);
    if n == 0 && s[0] == '<' && |s| >= 2 && s[1] != '>' {
      if |s| >= 3 {
        NoGtAfterUnclosedTag(s);
      }
      assert s[1..] == [s[1]] + s[2..];
      assert NoGt(s[1..]);
    }
  }

  /** A character put in front of tag-free text creates no tag unless it is
      '<' and some '>' follows it after at least one other character. */
  lemma NoTagAcross(c: char, rest: string, i: nat, j: nat)
    requires !ContainsTag(rest)
    requires c != '<' || (|rest| > 0 && rest[0] == '>') || NoGt(rest)
    requires i < j <= 1 + |rest|
    ensures !IsTag(([c] + rest)[i..j])
  {
    var r := [c] + rest;
    if i > 0 {
      assert r[1..] == rest;
      assert r[i..j] == r[1..][i - 1..j - 1];
    } else if c == '<' && j >= 3 {
      if |rest| > 0 && rest[0] == '>' {
        assert r[i..j][1] == rest[0];
      } else {
        assert r[i..j][j - 1] == rest[j - 2];
      }
    } else {
      assert r[i..j][0] == c;
    }
  }

  /** When `s` opens a tag that never closes, no '>' follows its second character. */
  lemma NoGtAfterUnclosedTag(s: string)
    requires |s| >= 3 && s[0] == '<' && s[1] != '>' && TagLength(s) == 0
    ensures NoGt(s[2..])
  {
    assert FindGt(s, 2).None?;
  }

  /** Text without any match of the pattern is left exactly as it is. */
  lemma {:induction false} ReplaceTagsKeepsTagFreeText(s: string)
    requires !ContainsTag(s)
    ensures ReplaceTags(s) == s
    decreases |s|
  {
    if |s| > 0 {
      var n := TagLength(s);
      assert s[..n] == s[0..n];
      assert !IsTag(s[0..n]);
      forall i, j | 0 <= i < j <= |s| - 1 ensures !IsTag(s[1..][i..j]) {
        assert s[1..][i..j] == s[i + 1..j + 1];
      }
      ReplaceTagsKeepsTagFreeText(s[1..]);
    }
  }

  /** No match of the pattern starts before position `n` of `s`. */
  ghost predicate NoTagStartsBefore(s: string, n: nat) {
    forall k, m {:trigger IsTag(s[k..m])} :: 0 <= k < n && k < m <= |s| ==> !IsTag(s[k..m])
  }

  /** The leftmost match `t` becomes one newline; the text `u` before it is
      kept as is, and the scan resumes right after the match. */
  lemma ReplaceTagsSplit(u: string, t: string, v: string)
    requires IsTag(t) && NoTagStartsBefore(u + t + v, |u|)
    ensures ReplaceTags(u + t + v) == u + "\n" + ReplaceTags(v)
  {
    var s := u + t + v;
    assert s[|u|..|u| + |t|] == t && s[..|u|] == u && s[|u| + |t|..] == v;
    ReplaceTagsSplitAt(s, |u|, |t|);
  }

  /** The same, for a match of length `n` at position `i` of `s`. */
  lemma {:induction false} ReplaceTagsSplitAt(s: string, i: nat, n: nat)
    requires i + n <= |s| && IsTag(s[i..i + n]) && NoTagStartsBefore(s, i)
    ensures ReplaceTags(s) == s[..i] + "\n" + ReplaceTags(s[i + n..])
    decreases i
  {
    if i == 0 {
      ReplaceTagsAtStart(s, n);
    } else {
      assert s[1..][i - 1..i - 1 + n] == s[i..i + n];
      NoTagStartsBeforeTail(s, i);
      ReplaceTagsSplitAt(s[1..], i - 1, n);
      ReplaceTagsKeepsFirst(s, i);
      TailSlices(s, i, n);
      Regroup(s[0], s[1..][..i - 1], s[..i], ReplaceTags(s[i + n..]));
    }
  }

  /** How the slices of `s[1..]` the step uses relate to those of `s`. */
  lemma TailSlices(s: string, i: nat, n: nat)
    requires 0 < i && i + n <= |s|
    ensures s[1..][i - 1 + n..] == s[i + n..]
    ensures s[..i] == [s[0]] + s[1..][..i - 1]
  {
  }

  /** Moving one character from the front of the text into the kept prefix. */
  lemma Regroup(c: char, p: string, q: string, rest: string)
    requires q == [c] + p
    ensures [c] + (p + "\n" + rest) == q + "\n" + rest
  {
  }

  /** A match at the very start becomes one line break. */
  lemma ReplaceTagsAtStart(s: string, n: nat)
    requires n <= |s| && IsTag(s[0..n])
    ensures ReplaceTags(s) == s[..0] + "\n" + ReplaceTags(s[n..])
  {
    assert s[..n] == s[0..n];
    assert TagLength(s) == n;
  }

  /** When no match starts at the first character, it is kept. */
  lemma ReplaceTagsKeepsFirst(s: string, n: nat)
    requires 0 < n <= |s| && NoTagStartsBefore(s, n)
    ensures ReplaceTags(s) == [s[0]] + ReplaceTags(s[1..])
  {
    var len := TagLength(s);
    assert s[..len] == s[0..len];
  }

  /** Dropping the first character keeps "no match starts before" one position earlier. */
  lemma NoTagStartsBeforeTail(s: string, n: nat)
    requires 0 < n <= |s| && NoTagStartsBefore(s, n)
    ensures NoTagStartsBefore(s[1..], n - 1)
  {
    forall k, m | 0 <= k < n - 1 && k < m <= |s| - 1 ensures !IsTag(s[1..][k..m]) {
      assert s[1..][k..m] == s[k + 1..m + 1];
    }
  }

  /** A line break contains no match, so cleaning leaves it alone. */
  lemma LineBreakHasNoTag()
    ensures ReplaceTags("\n") == "\n"
  {
    var s := "\n";
    forall i, j | 0 <= i < j <= |s| ensures !IsTag(s[i..j]) {
    }
    ReplaceTagsKeepsTagFreeText(s);
  }

  /** Cleaning chunk text twice gives the same text as cleaning it once. */
  lemma ReplaceTagsIdempotent(s: string)
    ensures ReplaceTags(ReplaceTags(s)) == ReplaceTags(s)
  {
    ReplaceTagsLeavesNoTag(s);
    ReplaceTagsKeepsTagFreeText(ReplaceTags(s));
  }

  /** One cleaned chunk row: `part_id` filled, "/n" cells and tags turned into newlines. */
  function CleanChunk(c: KbChunk): (r: KbChunk)
    ensures r.id == c.id && r.documentId == c.documentId
    ensures r.partId == Some(FillPartId(c.partId))
    ensures !ContainsTag(r.chunk)
    ensures c.chunk != "/n" && !ContainsTag(c.chunk) ==> r.chunk == c.chunk
    ensures c.chunk == "/n" ==> r.chunk == "\n"
  {
    ReplaceTagsLeavesNoTag(ReplaceSlashN(c.chunk));
    LineBreakHasNoTag();
    assert !ContainsTag(c.chunk) ==> ReplaceTags(c.chunk) == c.chunk by {
      if !ContainsTag(c.chunk) {
        ReplaceTagsKeepsTagFreeText(c.chunk);
      }
    }
    c.(chunk := ReplaceTags(ReplaceSlashN(c.chunk)), partId := Some(FillPartId(c.partId)))
  }

  /** In a cleaned chunk the leftmost match of the pattern is one line break,
      the text before it is kept, and the rest is cleaned the same way. */
  lemma CleanChunkReplacesLeftmostTag(c: KbChunk, u: string, t: string, v: string)
    requires c.chunk == u + t + v && IsTag(t) && NoTagStartsBefore(u + t + v, |u|)
    ensures CleanChunk(c).chunk == u + "\n" + ReplaceTags(v)
  {
    assert |c.chunk| >= 3;
    ReplaceTagsSplit(u, t, v);
  }

  /** The cleaned knowledge base: duplicate chunks dropped (first kept), sorted by
      id, then every remaining row cleaned. */
  function CleanKnowledgeBase(chunks: seq<KbChunk>): (r: seq<KbChunk>)
    ensures |r| == |DedupChunks(chunks)|
    ensures forall i :: 0 <= i < |r| ==> r[i] == CleanChunk(DedupChunks(chunks)[i])
    ensures SortedBy(r, ChunkId)
  {
    var d := DedupChunks(chunks);
    seq(|d|, i requires 0 <= i < |d| => CleanChunk(d[i]))
  }
}
