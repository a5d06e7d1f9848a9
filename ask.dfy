/** askQuestion in askQuestionController.ts: request validation, the
    video lookup, the question embedding, the two similarity queries, the
    prompt, the streamed answer and the row written for it. The embedding
    model, the similarity the database computes and the generation model
    are parameters; the calls made to the two models are returned as a
    trace. */
module Ask {
  import opened Wrappers
  import Text
  import opened Store
  import opened Retrieval
  import opened Prompt
  import opened Streaming

  /** A field of the JSON request body. */
  datatype JsonValue = Absent | Null | Bool(b: bool) | Number(n: real) | Str(s: string)

  /** The result of JavaScript's `Number(...)`. */
  datatype Num = NaN | Finite(value: real) | Infinite(negative: bool)

  /** JavaScript truthiness (JSON has no NaN). */
  predicate Truthy(v: JsonValue)
  {
    match v
    case Absent => false
    case Null => false
    case Bool(b) => b
    case Number(n) => n != 0.0
    case Str(s) => s != ""
  }

  predicate IsDigit(c: char)
  {
    '0' <= c <= '9'
  }

  predicate AllDigits(s: string)
  {
    forall i :: 0 <= i < |s| ==> IsDigit(s[i])
  }

  /** The value of a run of decimal digits. */
  function DigitsValue(s: string): nat
    requires AllDigits(s)
  {
    if |s| == 0 then 0
    else DigitsValue(s[..|s| - 1]) * 10 + (s[|s| - 1] as int - '0' as int)
  }

  function Pow10(n: nat): (r: nat)
    ensures r >= 1
  {
    if n == 0 then 1 else 10 * Pow10(n - 1)
  }

  /** An unsigned decimal literal: "Infinity", or digits with an optional
      fraction, with at least one digit on one side of the point. */
  function UnsignedValue(s: string): Num
  {
    if s == "Infinity" then Infinite(false)
    else match Text.Find(s, ".", 0)
      case None =>
        if |s| > 0 && AllDigits(s) then Finite(DigitsValue(s) as real) else NaN
      case Some(p) =>
        var whole := s[..p];
        var frac := s[p + 1..];
        if (|whole| > 0 || |frac| > 0) && AllDigits(whole) && AllDigits(frac)
        then Finite(DigitsValue(whole) as real + DigitsValue(frac) as real / Pow10(|frac|) as real)
        else NaN
  }

  function Negate(n: Num): Num
  {
    match n
    case NaN => NaN
    case Finite(x) => Finite(-x)
    case Infinite(neg) => Infinite(!neg)
  }

  /** `Number(s)` for a string: surrounding whitespace is ignored, the empty
      string is 0, one leading sign is allowed. */
  function StringToNumber(s: string): Num
  {
    var t := Text.Trim(s);
    if |t| == 0 then Finite(0.0)
    else if t[0] == '-' then Negate(UnsignedValue(t[1..]))
    else if t[0] == '+' then UnsignedValue(t[1..])
    else UnsignedValue(t)
  }

  /** `Number(videoId)`. */
  function ToNumber(v: JsonValue): Num
  {
    match v
    case Absent => NaN
    case Null => Finite(0.0)
    case Bool(b) => Finite(if b then 1.0 else 0.0)
    case Number(n) => Finite(n)
    case Str(s) => StringToNumber(s)
  }

  datatype Validation = Rejected(status: int) | Accepted(question: string, videoId: Num)

  /** Lines 33-42: a falsy question or videoId, or a videoId that is NaN
      as a number, is answered with 400. */
  function ValidateRequest(question: Option<string>, videoId: JsonValue): (r: Validation)
    ensures r.Rejected? <==> question.None? || question.value == "" || !Truthy(videoId)
                               || ToNumber(videoId).NaN?
    ensures r.Rejected? ==> r.status == 400
    ensures r.Accepted? ==> r.question == question.value && r.videoId == ToNumber(videoId) && !r.videoId.NaN?
  {
    if question.None? || question.value == "" || !Truthy(videoId) then Rejected(400)
    else if ToNumber(videoId).NaN? then Rejected(400)
    else Accepted(question.value, ToNumber(videoId))
  }

  const Int4Min: int := -0x8000_0000
  const Int4Max: int := 0x7FFF_FFFF

  /** node-postgres sends the number as the text `String(n)` and PostgreSQL
      reads it as an `integer`, the type of `videos.id`: a whole number in
      the 32-bit range is accepted; anything else (a fraction, an infinity,
      a number out of range) makes the query throw. */
  predicate IntegerParameter(id: Num)
  {
    id.Finite? && id.value.Floor as real == id.value && Int4Min <= id.value.Floor <= Int4Max
  }

  /** `findFirst` on `videos.id = numericVideoId`. */
  function VideoFor(videos: seq<VideoRow>, id: Num): (r: Option<VideoRow>)
    ensures r.Some? ==> r.value in videos && id == Finite(r.value.id as real)
    ensures r.None? ==> forall i :: 0 <= i < |videos| ==> id != Finite(videos[i].id as real)
  {
    if id.Finite? then FindIn(videos, id.value) else None
  }

  /** The transcript chunks as the first query scores them against the
      question embedding. */
  function ChunkCandidates(rows: seq<ChunkRow>, q: Vector, similarity: (Vector, Vector) -> real)
    : (r: seq<Candidate<ChunkHit>>)
    ensures |r| == |rows|
    ensures forall i :: 0 <= i < |rows| ==>
      r[i] == Candidate(rows[i].videoId, similarity(rows[i].embedding, q), ChunkHit(rows[i].text, rows[i].startTime))
  {
    seq(|rows|, i requires 0 <= i < |rows| =>
      Candidate(rows[i].videoId, similarity(rows[i].embedding, q), ChunkHit(rows[i].text, rows[i].startTime)))
  }

  /** The earlier questions as the second query scores their answer
      embeddings against the question embedding. */
  function QACandidates(rows: seq<QuestionRow>, q: Vector, similarity: (Vector, Vector) -> real)
    : (r: seq<Candidate<PriorQA>>)
    ensures |r| == |rows|
    ensures forall i :: 0 <= i < |rows| ==>
      r[i] == Candidate(rows[i].videoId, similarity(rows[i].answerEmbedding, q),
                        PriorQA(rows[i].question, rows[i].answer))
  {
    seq(|rows|, i requires 0 <= i < |rows| =>
      Candidate(rows[i].videoId, similarity(rows[i].answerEmbedding, q),
                PriorQA(rows[i].question, rows[i].answer)))
  }

  /** The chunks the first query returns are rows of the table for the
      video whose similarity to the question is above 0.5, each with that
      similarity, text and start time; when no more than 20 rows qualify,
      all of them are returned. */
  lemma ChunksFromTable(rows: seq<ChunkRow>, q: Vector, similarity: (Vector, Vector) -> real, id: int)
    ensures forall x :: x in SelectChunks(ChunkCandidates(rows, q, similarity), id) ==>
      exists i :: 0 <= i < |rows| && rows[i].videoId == id && similarity(rows[i].embedding, q) > 0.5
        && x == Candidate(id, similarity(rows[i].embedding, q), ChunkHit(rows[i].text, rows[i].startTime))
    ensures |Filter(ChunkCandidates(rows, q, similarity), id, ChunkMinSimilarity)| <= ChunkLimit ==>
      forall i :: 0 <= i < |rows| && rows[i].videoId == id && similarity(rows[i].embedding, q) > 0.5 ==>
        Candidate(id, similarity(rows[i].embedding, q), ChunkHit(rows[i].text, rows[i].startTime))
          in SelectChunks(ChunkCandidates(rows, q, similarity), id)
  {
    var c := ChunkCandidates(rows, q, similarity);
    SelectMembers(c, id, ChunkMinSimilarity, ChunkLimit);
    forall x | x in SelectChunks(c, id)
      ensures exists i :: 0 <= i < |rows| && rows[i].videoId == id && similarity(rows[i].embedding, q) > 0.5
                && x == Candidate(id, similarity(rows[i].embedding, q), ChunkHit(rows[i].text, rows[i].startTime))
    {
      var i :| 0 <= i < |c| && c[i] == x;
    }
  }

  /** The earlier exchanges the second query returns are rows of the table
      for the video whose answer is more than 0.6 similar to the question,
      each with that similarity, question and answer; when no more than 3
      rows qualify, all of them are returned. */
  lemma PriorQAFromTable(rows: seq<QuestionRow>, q: Vector, similarity: (Vector, Vector) -> real, id: int)
    ensures forall x :: x in SelectPriorQA(QACandidates(rows, q, similarity), id) ==>
      exists i :: 0 <= i < |rows| && rows[i].videoId == id && similarity(rows[i].answerEmbedding, q) > 0.6
        && x == Candidate(id, similarity(rows[i].answerEmbedding, q), PriorQA(rows[i].question, rows[i].answer))
    ensures |Filter(QACandidates(rows, q, similarity), id, AnswerMinSimilarity)| <= AnswerLimit ==>
      forall i :: 0 <= i < |rows| && rows[i].videoId == id && similarity(rows[i].answerEmbedding, q) > 0.6 ==>
        Candidate(id, similarity(rows[i].answerEmbedding, q), PriorQA(rows[i].question, rows[i].answer))
          in SelectPriorQA(QACandidates(rows, q, similarity), id)
  {
    var c := QACandidates(rows, q, similarity);
    SelectMembers(c, id, AnswerMinSimilarity, AnswerLimit);
    forall x | x in SelectPriorQA(c, id)
      ensures exists i :: 0 <= i < |rows| && rows[i].videoId == id && similarity(rows[i].answerEmbedding, q) > 0.6
                && x == Candidate(id, similarity(rows[i].answerEmbedding, q), PriorQA(rows[i].question, rows[i].answer))
    {
      var i :| 0 <= i < |c| && c[i] == x;
    }
  }

  /** A request made to one of the models. */
  datatype ModelCall = Embed(text: string) | Generate(prompt: string)

  /** The HTTP answer: a JSON error status, or an event stream. */
  datatype Response = Status(code: int) | EventStream(events: seq<Event>)

  /** The inner `try` of lines 121-154: stream the answer, then embed it
      and store it. The row is written only when the stream completes, the
      answer embedding succeeds and the insert does not throw, and only
      then is Done written; otherwise one Error event follows the Data
      events already written and nothing is stored. */
  method StreamAndStore(db: Database, question: string, videoId: int, timestamp: real, stream: Stream,
                        embed: string -> Option<Vector>, insertFails: bool)
    returns (events: seq<Event>, calls: seq<ModelCall>)
    requires db.Valid()
    modifies db
    ensures db.Valid()
    ensures db.videos == old(db.videos) && db.chunks == old(db.chunks) && db.nextVideoId == old(db.nextVideoId)
    ensures var texts := NonEmptyTexts(Received(stream));
      var answer := Text.Concat(texts);
      var answerEmbedding := embed(answer);
      var stored := stream.failsAfter.None? && answerEmbedding.Some? && !insertFails;
      && calls == (if stream.failsAfter.None? then [Embed(answer)] else [])
      && events == DataEvents(texts) + [if stored then Done else Error]
      && db.questions == old(db.questions)
           + (if stored then [QuestionRow(question, answer, videoId, timestamp, answerEmbedding.value)] else [])
  {
    var fullAnswer, dataEvents, completed := StreamAnswer(stream);
    if !completed {
      return dataEvents + [Error], [];
    }
    var answerEmbedding := embed(fullAnswer);
    calls := [Embed(fullAnswer)];
    if answerEmbedding.None? || insertFails {
      return dataEvents + [Error], calls;
    }
    db.InsertQuestion(QuestionRow(question, fullAnswer, videoId, timestamp, answerEmbedding.value));
    events := dataEvents + [Done];
  }

  /** askQuestion. Validation failures answer 400 and an unknown video 404,
      before any model call; a failed question embedding answers 500. Then
      the two queries run on the question embedding, the prompt is built
      and streamed. The row (question, answer, video id, timestamp, answer
      embedding) is written only when the stream completes, the answer
      embedding succeeds and the insert does not throw, and only then is
      Done written; otherwise the Data events written so far are followed
      by one Error event and nothing is stored. */
  method AskQuestion(db: Database, question: Option<string>, videoId: JsonValue,
                     embed: string -> Option<Vector>,
                     similarity: (Vector, Vector) -> real,
                     generate: string -> Stream,
                     insertFails: bool)
    returns (resp: Response, calls: seq<ModelCall>)
    requires db.Valid()
    modifies db
    ensures db.Valid()
    ensures db.videos == old(db.videos) && db.chunks == old(db.chunks) && db.nextVideoId == old(db.nextVideoId)
    ensures var v := ValidateRequest(question, videoId);
      v.Rejected? ==> resp == Status(v.status) && calls == [] && db.questions == old(db.questions)
    ensures var v := ValidateRequest(question, videoId);
      v.Accepted? && !IntegerParameter(v.videoId) ==>
        resp == Status(500) && calls == [] && db.questions == old(db.questions)
    ensures var v := ValidateRequest(question, videoId);
      v.Accepted? && IntegerParameter(v.videoId) && VideoFor(old(db.videos), v.videoId).None? ==>
        resp == Status(404) && calls == [] && db.questions == old(db.questions)
    ensures var v := ValidateRequest(question, videoId);
      v.Accepted? && IntegerParameter(v.videoId) && VideoFor(old(db.videos), v.videoId).Some?
      && embed(v.question).None? ==>
        resp == Status(500) && calls == [Embed(v.question)] && db.questions == old(db.questions)
    ensures var v := ValidateRequest(question, videoId);
      v.Accepted? && IntegerParameter(v.videoId) && VideoFor(old(db.videos), v.videoId).Some?
      && embed(v.question).Some? ==>
        var id := VideoFor(old(db.videos), v.videoId).value.id;
        var q := embed(v.question).value;
        var chunks := SelectChunks(ChunkCandidates(old(db.chunks), q, similarity), id);
        var prior := SelectPriorQA(QACandidates(old(db.questions), q, similarity), id);
        var prompt := AssemblePrompt(Context(chunks), HistoryBlock(prior), v.question);
        var stream := generate(prompt);
        var texts := NonEmptyTexts(Received(stream));
        var answer := Text.Concat(texts);
        var answerEmbedding := embed(answer);
        var stored := stream.failsAfter.None? && answerEmbedding.Some? && !insertFails;
        && calls == [Embed(v.question), Generate(prompt)]
                    + (if stream.failsAfter.None? then [Embed(answer)] else [])
        && resp == EventStream(DataEvents(texts) + [if stored then Done else Error])
        && db.questions == old(db.questions)
             + (if stored
                then [QuestionRow(v.question, answer, id, MostRelevantTimestamp(chunks), answerEmbedding.value)]
                else [])
  {
    var v := ValidateRequest(question, videoId);
    if v.Rejected? {
      return Status(v.status), [];
    }
    if !IntegerParameter(v.videoId) {
      return Status(500), [];
    }
    var video := VideoFor(db.videos, v.videoId);
    if video.None? {
      return Status(404), [];
    }
    var id := video.value.id;
    var questionEmbedding := embed(v.question);
    calls := [Embed(v.question)];
    if questionEmbedding.None? {
      return Status(500), calls;
    }
    var q := questionEmbedding.value;
    var chunks := SelectChunks(ChunkCandidates(db.chunks, q, similarity), id);
    var context := Context(chunks);
    var prior := SelectPriorQA(QACandidates(db.questions, q, similarity), id);
    var history := HistoryBlock(prior);
    var timestamp := MostRelevantTimestamp(chunks);
    var prompt := AssemblePrompt(context, history, v.question);
    var stream := generate(prompt);
    var events, tailCalls := StreamAndStore(db, v.question, id, timestamp, stream, embed, insertFails);
    calls := [Embed(v.question), Generate(prompt)] + tailCalls;
    resp := EventStream(events);
  }

  /** The decimal digits of a natural number, as `String(n)` writes them
      for the whole numbers an id can be (JavaScript switches to exponent
      notation from 1e21 and loses whole numbers above 2^53, neither of
      which a 32-bit id reaches). */
  function NatString(n: nat): (r: string)
    ensures |r| > 0 && AllDigits(r)
  {
    var d := ['0' + (n % 10) as char];
    if n < 10 then d else NatString(n / 10) + d
  }

  lemma {:induction false} NatStringValue(n: nat)
    ensures DigitsValue(NatString(n)) == n
  {
    var s := NatString(n);
    var d := ['0' + (n % 10) as char];
    if n >= 10 {
      NatStringValue(n / 10);
      assert s[..|s| - 1] == NatString(n / 10);
    } else {
      assert s[..0] == [];
    }
  }

  lemma DigitsNotWhitespace(c: char)
    requires IsDigit(c)
    ensures !Text.IsJsWhitespace(c)
  {
  }

  /** A run of digits has no surrounding whitespace to trim. */
  lemma TrimDigits(s: string)
    requires |s| > 0 && AllDigits(s)
    ensures Text.Trim(s) == s
  {
    DigitsNotWhitespace(s[0]);
    DigitsNotWhitespace(s[|s| - 1]);
    Text.TrimSurrounded("", s, "");
    assert "" + s + "" == s;
  }

  /** A run of digits without a sign or point reads as its decimal value. */
  lemma DigitsNumber(s: string)
    requires |s| > 0 && AllDigits(s)
    ensures StringToNumber(s) == Finite(DigitsValue(s) as real)
  {
    TrimDigits(s);
    assert IsDigit(s[0]);
    DigitsUnsigned(s);
  }

  /** Without a sign, a run of digits is read by `UnsignedValue` alone. */
  lemma DigitsUnsigned(s: string)
    requires |s| > 0 && AllDigits(s)
    ensures UnsignedValue(s) == Finite(DigitsValue(s) as real)
  {
    Text.FindAbsent(s, '.');
    assert IsDigit(s[0]) && s[0] != "Infinity"[0];
  }

  /** `Number(String(n))` is n for every natural number n: the ids the
      server hands out survive a trip through a string. */
  lemma NumberOfIdString(n: nat)
    ensures StringToNumber(NatString(n)) == Finite(n as real)
    ensures ValidateRequest(Some("q"), Str(NatString(n))) == Accepted("q", Finite(n as real))
  {
    DigitsNumber(NatString(n));
    NatStringValue(n);
  }

  /** Letters are not a number. */
  lemma LettersAreNaN()
    ensures StringToNumber("abc") == NaN
  {
    var abc := "abc";
    assert !Text.IsJsWhitespace(abc[0]) && !Text.IsJsWhitespace(abc[2]);
    Text.TrimSurrounded("", abc, "");
    assert "" + abc + "" == abc;
    Text.FindAbsent(abc, '.');
    assert !IsDigit(abc[0]);
  }

  /** A fraction reads as its value; a lone point is not a number. */
  lemma DecimalFraction()
    ensures UnsignedValue("2.5") == Finite(2.5)
    ensures UnsignedValue(".") == NaN
  {
    var s := "2.5";
    Text.FindFirst("2", '.', "5");
    assert "2" + ['.'] + "5" == s;
    assert s[..1] == "2" && s[2..] == "5";
    assert DigitsValue("2") == 2 by { assert "2"[..0] == []; }
    assert DigitsValue("5") == 5 by { assert "5"[..0] == []; }
    Text.FindFirst("", '.', "");
    assert "" + ['.'] + "" == ".";
  }

  /** A missing, empty or non-numeric field is rejected with 400; the
      number 0 is falsy and rejected. */
  lemma ValidationCases(q: string)
    requires q != ""
    ensures ValidateRequest(None, Number(1.0)) == Rejected(400)
    ensures ValidateRequest(Some(""), Number(1.0)) == Rejected(400)
    ensures ValidateRequest(Some(q), Absent) == Rejected(400)
    ensures ValidateRequest(Some(q), Number(0.0)) == Rejected(400)
    ensures ValidateRequest(Some(q), Str("abc")) == Rejected(400)
  {
    LettersAreNaN();
  }

  /** The string "0" is truthy and numeric: it passes validation and goes
      on to the lookup (where it names no video). */
  lemma ZeroStringAccepted(q: string)
    requires q != ""
    ensures ValidateRequest(Some(q), Str("0")) == Accepted(q, Finite(0.0))
  {
    var zero := NatString(0);
    assert zero == "0";
    NumberOfIdString(0);
  }

  /** When every id is at least 1, a whole number below 1 that is still a
      32-bit integer is accepted by the query and names no video: the
      request ends with 404. (Below -2^31 the query fails: `RejectedIds`.) */
  lemma UnmatchedIds(videos: seq<VideoRow>, n: int)
    requires forall i :: 0 <= i < |videos| ==> videos[i].id >= 1
    requires Int4Min <= n < 1
    ensures IntegerParameter(Finite(n as real))
    ensures VideoFor(videos, Finite(n as real)).None?
  {
    forall i | 0 <= i < |videos| ensures Finite(n as real) != Finite(videos[i].id as real) {
      assert n < videos[i].id;
    }
  }

  /** A fractional, infinite or out-of-range id passes validation but
      fails the query: the request ends with 500, not 404. */
  lemma RejectedIds(x: real, neg: bool)
    ensures x.Floor as real != x ==> !IntegerParameter(Finite(x))
    ensures x > Int4Max as real || x < Int4Min as real ==> !IntegerParameter(Finite(x))
    ensures !IntegerParameter(Infinite(neg))
    ensures IntegerParameter(Finite(0.0)) && IntegerParameter(Finite(Int4Max as real))
    ensures !IntegerParameter(Finite(2.5)) && !IntegerParameter(Finite((Int4Max + 1) as real))
  {
    assert (2.5).Floor == 2;
  }

  /** Every event stream ends in exactly one Done or Error, after the Data
      events; Done is there exactly when the answer was stored; and the Data
      events spell the texts of the answer in order. */
  lemma TerminalEvent(texts: seq<string>, stored: bool)
    ensures var ev := DataEvents(texts) + [if stored then Done else Error];
      && |ev| == |texts| + 1
      && (forall i :: 0 <= i < |texts| ==> ev[i].Data?)
      && (Done in ev <==> stored)
      && (Error in ev <==> !stored)
      && EventTexts(ev) == texts
  {
    var ev := DataEvents(texts) + [if stored then Done else Error];
    EventsSpellAnswer(texts);
    EventTextsAppend(DataEvents(texts), [if stored then Done else Error]);
    assert EventTexts([if stored then Done else Error]) == [];
  }

  lemma {:induction false} EventTextsAppend(a: seq<Event>, b: seq<Event>)
    ensures EventTexts(a + b) == EventTexts(a) + EventTexts(b)
  {
    if |a| > 0 {
      assert (a + b)[1..] == a[1..] + b;
      EventTextsAppend(a[1..], b);
    } else {
      assert a + b == b;
    }
  }
}
