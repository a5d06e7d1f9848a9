/** Prompt assembly in askQuestionController.ts: the context string, the
    optional block of earlier questions and answers, the trimmed prompt
    template and the most relevant timestamp. */
module Prompt {
  import Text
  import opened Retrieval

  const HistoryHeader: string := "Previous relevant information from our conversation:\n"
  const Instruction: string := "Answer the question and relate it to the video."
  /** What separates the history items and ends the history block. */
  const BlankLine: string := "\n\n"

  function ChunkTexts(chunks: seq<Candidate<ChunkHit>>): (r: seq<string>)
    ensures |r| == |chunks|
    ensures forall i :: 0 <= i < |chunks| ==> r[i] == chunks[i].item.text
  {
    seq(|chunks|, i requires 0 <= i < |chunks| => chunks[i].item.text)
  }

  /** `similarChunks.map(chunk => chunk.text).join(" ")`. */
  function Context(chunks: seq<Candidate<ChunkHit>>): string
  {
    Text.Join(ChunkTexts(chunks), " ")
  }

  /** `Question: ${qa.question}\nAnswer: ${qa.answer}`. */
  function QAItem(qa: PriorQA): string
  {
    "Question: " + qa.question + "\nAnswer: " + qa.answer
  }

  function HistoryItems(qas: seq<Candidate<PriorQA>>): (r: seq<string>)
    ensures |r| == |qas|
    ensures forall i :: 0 <= i < |qas| ==> r[i] == QAItem(qas[i].item)
  {
    seq(|qas|, i requires 0 <= i < |qas| => QAItem(qas[i].item))
  }

  /** `previousQAContext`: empty exactly when no earlier exchange was selected. */
  function HistoryBlock(qas: seq<Candidate<PriorQA>>): (r: string)
    ensures r == "" <==> qas == []
  {
    if |qas| > 0 then HistoryHeader + Text.Join(HistoryItems(qas), BlankLine) + BlankLine else ""
  }

  /** The lines of the prompt template between its opening and closing
      whitespace. */
  function PromptBody(context: string, history: string, question: string): string
  {
    "Here is context of the video:\n      " + context + "\n\n      "
      + history + "Question: " + question + "\n\n      " + Instruction
  }

  /** The template literal before `.trim()`: a newline and six spaces, the
      body, a newline and four spaces. */
  function PromptTemplate(context: string, history: string, question: string): string
  {
    "\n      " + PromptBody(context, history, question) + "\n    "
  }

  /** The prompt sent to the generation model. */
  function AssemblePrompt(context: string, history: string, question: string): string
  {
    Text.Trim(PromptTemplate(context, history, question))
  }

  /** `similarChunks[0]?.startTime ?? 0`. */
  function MostRelevantTimestamp(chunks: seq<Candidate<ChunkHit>>): real
  {
    if |chunks| > 0 then chunks[0].item.startTime else 0.0
  }

  /** The context grows chunk by chunk, one space between neighbours, in
      the order the query returned them; no chunk gives "". */
  lemma ContextAppend(chunks: seq<Candidate<ChunkHit>>, c: Candidate<ChunkHit>)
    ensures Context([]) == ""
    ensures Context([c]) == c.item.text
    ensures chunks != [] ==> Context(chunks + [c]) == Context(chunks) + " " + c.item.text
  {
    assert ChunkTexts([c]) == [c.item.text];
    if chunks != [] {
      assert ChunkTexts(chunks + [c]) == ChunkTexts(chunks) + [c.item.text];
      Text.JoinAppend(ChunkTexts(chunks), c.item.text, " ");
    }
  }

  /** One earlier exchange gives the header, its `Question:/Answer:` item
      and a blank line. */
  lemma HistorySingle(x: Candidate<PriorQA>)
    ensures HistoryBlock([x]) == HistoryHeader + "Question: " + x.item.question
                                 + "\nAnswer: " + x.item.answer + BlankLine
  {
    assert HistoryItems([x]) == [QAItem(x.item)];
  }

  /** Each further exchange appends its item and a blank line: the items
      appear in selection order, separated by blank lines. */
  lemma HistoryAppend(qas: seq<Candidate<PriorQA>>, x: Candidate<PriorQA>)
    requires qas != []
    ensures HistoryBlock(qas + [x]) == HistoryBlock(qas) + QAItem(x.item) + BlankLine
  {
    var items := HistoryItems(qas);
    var item := QAItem(x.item);
    assert HistoryItems(qas + [x]) == items + [item];
    Text.JoinAppend(items, item, BlankLine);
  }

  /** After trimming, the prompt is the context line, the history block,
      the question and the fixed instruction, with the template's inner
      indentation kept and its outer whitespace removed. */
  lemma PromptLayout(context: string, history: string, question: string)
    ensures AssemblePrompt(context, history, question)
            == "Here is context of the video:\n      " + context + "\n\n      "
               + history + "Question: " + question + "\n\n      " + Instruction
  {
    var body := PromptBody(context, history, question);
    var head := "Here is context of the video:\n      ";
    var rest := context + "\n\n      " + history + "Question: " + question + "\n\n      ";
    assert body == head + rest + Instruction;
    assert body[0] == head[0] == 'H';
    assert body[|body| - 1] == Instruction[|Instruction| - 1] == '.';
    Text.TrimSurrounded("\n      ", body, "\n    ");
  }

  /** The timestamp recorded with an answer is the start of a most similar
      qualifying chunk of the video, or 0 when no chunk qualifies. */
  lemma TimestampOfBestChunk(rows: seq<Candidate<ChunkHit>>, videoId: int)
    ensures var ts := MostRelevantTimestamp(SelectChunks(rows, videoId));
      && ((forall i :: 0 <= i < |rows| ==> !Qualifies(rows[i], videoId, ChunkMinSimilarity)) ==> ts == 0.0)
      && ((exists i :: 0 <= i < |rows| && Qualifies(rows[i], videoId, ChunkMinSimilarity)) ==>
            exists i :: 0 <= i < |rows| && Qualifies(rows[i], videoId, ChunkMinSimilarity)
              && rows[i].item.startTime == ts
              && forall j :: 0 <= j < |rows| && Qualifies(rows[j], videoId, ChunkMinSimilarity) ==>
                   rows[j].similarity <= rows[i].similarity)
  {
    var sel := SelectChunks(rows, videoId);
    SelectHeadIsBest(rows, videoId, ChunkMinSimilarity, ChunkLimit);
    if sel != [] {
      SelectMembers(rows, videoId, ChunkMinSimilarity, ChunkLimit);
      assert sel[0] in sel;
      var i :| 0 <= i < |rows| && rows[i] == sel[0];
    }
  }
}
