/** addVideoController.ts: video-id extraction, the embed-and-insert loop
    of embedChunks, and the order of steps in addVideo. The YouTube
    metadata fetch, the transcript fetch and the embedding model are
    parameters. */
module Ingestion {
  import opened Wrappers
  import Text
  import opened Store
  import opened Chunking

  const VideoIdMarker: string := "v="

  /** `url.split("v=")[1]`: undefined (None) when there is no second piece. */
  function ExtractYoutubeVideoId(url: string): Option<string>
  {
    var parts := Text.Split(url, VideoIdMarker);
    if |parts| > 1 then Some(parts[1]) else None
  }

  /** The first "v=" of the URL starts at index i. */
  predicate FirstMarkerAt(url: string, i: int)
  {
    Text.OccursAt(url, VideoIdMarker, i) && forall j :: 0 <= j < i ==> !Text.OccursAt(url, VideoIdMarker, j)
  }

  /** Index k is the next "v=" at or after `from`, or the end of the URL if there is none. */
  predicate NextMarkerOrEnd(url: string, from: int, k: int)
  {
    && 0 <= from <= k <= |url|
    && (k == |url| || Text.OccursAt(url, VideoIdMarker, k))
    && forall j :: from <= j < k ==> !Text.OccursAt(url, VideoIdMarker, j)
  }

  /** url[i + 2..k] lies between the first "v=" (at i) and the next one (or the end). */
  predicate IdSpan(url: string, i: int, k: int)
  {
    FirstMarkerAt(url, i) && NextMarkerOrEnd(url, i + |VideoIdMarker|, k)
  }

  lemma OccursShift(s: string, sep: string, d: nat, j: nat)
    requires d <= |s|
    ensures Text.OccursAt(s[d..], sep, j) <==> Text.OccursAt(s, sep, d + j)
  {
    if j + |sep| <= |s| - d {
      assert s[d..][j..j + |sep|] == s[d + j..d + j + |sep|];
    }
  }

  /** The first piece of the split ends at the first "v=" or at the end. */
  lemma FirstPiece(s: string, k: int)
    requires NextMarkerOrEnd(s, 0, k)
    ensures Text.Split(s, VideoIdMarker)[0] == s[..k]
  {
    match Text.Find(s, VideoIdMarker, 0)
    case None =>
      assert k == |s|;
    case Some(m) =>
      assert !(m < k) && !(k < m);
  }

  lemma FindsFirstMarker(url: string, i: int)
    requires FirstMarkerAt(url, i)
    ensures Text.Find(url, VideoIdMarker, 0) == Some(i)
  {
    var f := Text.Find(url, VideoIdMarker, 0);
    assert f.Some?;
    assert !(f.value < i);
  }

  /** A "v=" at or after the end of the id would be a "v=" in the rest of the URL. */
  lemma RestSpan(url: string, i: int, k: int)
    requires IdSpan(url, i, k)
    ensures NextMarkerOrEnd(url[i + 2..], 0, k - (i + 2))
  {
    var V := VideoIdMarker;
    var rest := url[i + 2..];
    forall j: nat | j < k - (i + 2) ensures !Text.OccursAt(rest, V, j) {
      OccursShift(url, V, i + 2, j);
    }
    if k < |url| {
      OccursShift(url, V, i + 2, k - (i + 2));
    }
  }

  /** The first piece ends at the first "v="; the others come from the rest. */
  lemma SplitAtFirst(url: string, i: nat)
    requires Text.Find(url, VideoIdMarker, 0) == Some(i)
    ensures Text.Split(url, VideoIdMarker) == [url[..i]] + Text.Split(url[i + 2..], VideoIdMarker)
  {
  }

  lemma SecondPiece(url: string, i: int, k: int)
    requires IdSpan(url, i, k)
    ensures ExtractYoutubeVideoId(url) == Some(url[i + 2..k])
  {
    var rest := url[i + 2..];
    FindsFirstMarker(url, i);
    SplitAtFirst(url, i);
    RestSpan(url, i, k);
    FirstPiece(rest, k - (i + 2));
    assert rest[..k - (i + 2)] == url[i + 2..k];
  }

  lemma NoMarker(url: string)
    ensures ExtractYoutubeVideoId(url).None? <==> forall j :: !Text.OccursAt(url, VideoIdMarker, j)
  {
    match Text.Find(url, VideoIdMarker, 0)
    case None =>
      assert Text.Split(url, VideoIdMarker) == [url];
    case Some(i0) =>
      assert |Text.Split(url, VideoIdMarker)| > 1;
  }

  /** The video id is the text between the first "v=" and the next "v="
      (or the end of the URL); it is undefined exactly when the URL holds
      no "v=". */
  lemma VideoIdBetweenMarkers(url: string)
    ensures ExtractYoutubeVideoId(url).None? <==> forall j :: !Text.OccursAt(url, VideoIdMarker, j)
    ensures forall i, k :: IdSpan(url, i, k) ==> ExtractYoutubeVideoId(url) == Some(url[i + 2..k])
  {
    NoMarker(url);
    forall i, k | IdSpan(url, i, k) ensures ExtractYoutubeVideoId(url) == Some(url[i + 2..k]) {
      SecondPiece(url, i, k);
    }
  }

  lemma OccursHead(s: string, sep: string, j: int)
    ensures Text.OccursAt(s, sep, j) && |sep| > 0 ==> s[j] == sep[0]
  {
    if Text.OccursAt(s, sep, j) && |sep| > 0 {
      assert s[j..j + |sep|][0] == s[j];
    }
  }

  /** A "v=" needs a 'v' where it starts. */
  lemma MarkerStartsWithV(url: string, lo: int, hi: int)
    requires 0 <= lo <= hi <= |url| && 'v' !in url[lo..hi]
    ensures forall j :: lo <= j < hi ==> !Text.OccursAt(url, VideoIdMarker, j)
  {
    forall j | lo <= j < hi ensures !Text.OccursAt(url, VideoIdMarker, j) {
      assert url[j] == url[lo..hi][j - lo];
      OccursHead(url, VideoIdMarker, j);
    }
  }

  /** When the URL holds no "v=" but the one after `prefix`, the id is
      everything after that one. */
  lemma IdAfterOnlyMarker(prefix: string, id: string)
    requires forall j :: 0 <= j && j != |prefix| ==> !Text.OccursAt(prefix + VideoIdMarker + id, VideoIdMarker, j)
    ensures ExtractYoutubeVideoId(prefix + VideoIdMarker + id) == Some(id)
  {
    var url := prefix + VideoIdMarker + id;
    var i := |prefix|;
    assert url[i..i + 2] == VideoIdMarker && url[i + 2..|url|] == id;
    assert IdSpan(url, i, |url|);
    SecondPiece(url, i, |url|);
  }

  /** Everything after the only "v=" is taken, query parameters included:
      a watch URL with a start time gives the id followed by "&t=...". */
  lemma QueryParametersKept()
    ensures ExtractYoutubeVideoId("watch?v=abc&t=1") == Some("abc&t=1")
  {
    var url := "watch?" + VideoIdMarker + "abc&t=1";
    assert url == "watch?v=abc&t=1";
    MarkerStartsWithV(url, 0, 6);
    MarkerStartsWithV(url, 7, |url|);
    IdAfterOnlyMarker("watch?", "abc&t=1");
  }

  /** `response.embeddings[i].values ?? []`. */
  function ValuesOrEmpty(values: Option<Vector>): Vector
  {
    if values.Some? then values.value else []
  }

  /** The rows embedChunks writes: chunk i paired with embedding i. */
  function PairRows(videoId: int, chunks: seq<Chunk>, embeddings: seq<Option<Vector>>): (rows: seq<ChunkRow>)
    requires |chunks| == |embeddings|
  {
    seq(|chunks|, i requires 0 <= i < |chunks| =>
      ChunkRow(videoId, chunks[i].text, chunks[i].startTime, chunks[i].endTime, ValuesOrEmpty(embeddings[i])))
  }

  /** How many inserts succeed when insert number `failingInsert` (counted
      from 0) throws. */
  function InsertsDone(failingInsert: Option<nat>, n: nat): (written: nat)
    ensures written <= n
    ensures written < n <==> failingInsert.Some? && failingInsert.value < n
  {
    if failingInsert.Some? && failingInsert.value < n then failingInsert.value else n
  }

  /** embedChunks after the embedding call: no embeddings or a count that
      differs from the chunk count throws before any insert; otherwise the
      rows are inserted one by one, in order, until one insert throws (the
      rows already written stay). Returns whether it finished without
      throwing. */
  method EmbedChunks(db: Database, chunks: seq<Chunk>, videoId: int,
                     embeddings: Option<seq<Option<Vector>>>, failingInsert: Option<nat>)
    returns (ok: bool)
    requires db.Valid()
    modifies db
    ensures db.Valid()
    ensures db.videos == old(db.videos) && db.questions == old(db.questions)
    ensures db.nextVideoId == old(db.nextVideoId)
    ensures embeddings.None? || |embeddings.value| != |chunks| ==> !ok && db.chunks == old(db.chunks)
    ensures embeddings.Some? && |embeddings.value| == |chunks| ==>
      var rows := PairRows(videoId, chunks, embeddings.value);
      && db.chunks == old(db.chunks) + rows[..InsertsDone(failingInsert, |rows|)]
      && (ok <==> InsertsDone(failingInsert, |rows|) == |rows|)
  {
    if embeddings.None? {
      return false;
    }
    var es := embeddings.value;
    if |chunks| != |es| {
      return false;
    }
    ghost var rows := PairRows(videoId, chunks, es);
    var i := 0;
    while i < |es|
      invariant 0 <= i <= |es| && i <= InsertsDone(failingInsert, |rows|)
      invariant db.Valid()
      invariant db.videos == old(db.videos) && db.questions == old(db.questions)
      invariant db.nextVideoId == old(db.nextVideoId)
      invariant db.chunks == old(db.chunks) + rows[..i]
    {
      if failingInsert == Some(i) {
        return false;
      }
      db.InsertChunk(ChunkRow(videoId, chunks[i].text, chunks[i].startTime, chunks[i].endTime,
                              ValuesOrEmpty(es[i])));
      assert rows[..i + 1] == rows[..i] + [rows[i]];
      i := i + 1;
    }
    ok := true;
  }

  /** addVideo. A missing or empty url answers 400 with no write. A failed
      metadata or transcript fetch, or a video insert that throws (always
      so when the id is undefined, `youtubeVideoId` being NOT NULL),
      answers 500 with no write. Otherwise the video row is inserted
      first, then the transcript is chunked with the defaults (15, 3) and
      the chunks embedded and inserted; a failure there answers 500 and
      keeps the video row and the chunk rows already written (there is no
      duplicate check and no rollback). */
  method AddVideo(db: Database, url: Option<string>,
                  fetchMetadata: Option<string> -> Option<Metadata>,
                  fetchTranscript: Option<string> -> Option<seq<Entry>>,
                  videoInsertFails: bool,
                  embed: seq<string> -> Option<seq<Option<Vector>>>,
                  failingInsert: Option<nat>)
    returns (status: int)
    requires db.Valid()
    modifies db
    ensures db.Valid()
    ensures db.questions == old(db.questions)
    ensures url.None? || url.value == "" ==> status == 400 && unchanged(db)
    ensures url.Some? && url.value != "" ==>
      var videoId := ExtractYoutubeVideoId(url.value);
      var metadata := fetchMetadata(videoId);
      var transcript := fetchTranscript(videoId);
      if metadata.None? || transcript.None? || videoId.None? || videoInsertFails then
        status == 500 && unchanged(db)
      else
        var video := VideoRow(old(db.nextVideoId), videoId.value, metadata.value.title,
                              metadata.value.description, metadata.value.thumbnailUrl, url.value);
        var chunks := Chunks(transcript.value, DefaultElementsPerChunk, DefaultOverlap);
        var embeddings := embed(EmbeddingInputs(chunks));
        && db.videos == old(db.videos) + [video]
        && db.nextVideoId == old(db.nextVideoId) + 1
        && (status == 200 || status == 500)
        && (embeddings.None? || |embeddings.value| != |chunks| ==>
              status == 500 && db.chunks == old(db.chunks))
        && (embeddings.Some? && |embeddings.value| == |chunks| ==>
              var rows := PairRows(video.id, chunks, embeddings.value);
              && db.chunks == old(db.chunks) + rows[..InsertsDone(failingInsert, |rows|)]
              && (status == 200 <==> InsertsDone(failingInsert, |rows|) == |rows|))
  {
    if url.None? || url.value == "" {
      return 400;
    }
    var videoId := ExtractYoutubeVideoId(url.value);
    var metadata := fetchMetadata(videoId);
    if metadata.None? {
      return 500;
    }
    var transcript := fetchTranscript(videoId);
    if transcript.None? {
      return 500;
    }
    if videoId.None? || videoInsertFails {
      return 500;
    }
    var video := db.InsertVideo(videoId.value, metadata.value, url.value);
    var chunks := ChunkTranscript(transcript.value, DefaultElementsPerChunk, DefaultOverlap);
    var ok := EmbedChunks(db, chunks, video.id, embed(EmbeddingInputs(chunks)), failingInsert);
    status := if ok then 200 else 500;
  }

  /** `chunks.map(chunk => chunk.text)`: what is sent to the embedding model. */
  function EmbeddingInputs(chunks: seq<Chunk>): (r: seq<string>)
    ensures |r| == |chunks|
    ensures forall i :: 0 <= i < |chunks| ==> r[i] == chunks[i].text
  {
    seq(|chunks|, i requires 0 <= i < |chunks| => chunks[i].text)
  }

  /** The k-th text sent to the embedding model is the k-th window's
      entry texts joined by single spaces. */
  lemma EmbeddingInputsAreWindows(transcript: seq<Entry>, k: nat)
    requires k < |Chunks(transcript, DefaultElementsPerChunk, DefaultOverlap)|
    ensures k * (DefaultElementsPerChunk - DefaultOverlap) < |transcript|
    ensures EmbeddingInputs(Chunks(transcript, DefaultElementsPerChunk, DefaultOverlap))[k]
            == Text.Join(Texts(Window(transcript, DefaultElementsPerChunk, DefaultOverlap, k)), " ")
  {
    ChunkAt(transcript, DefaultElementsPerChunk, DefaultOverlap, k);
  }

  /** Inserted row k carries chunk k's text and span, embedding k (or [])
      and the new video's id; there is one row per chunk. */
  lemma RowsPairChunks(videoId: int, transcript: seq<Entry>, embeddings: seq<Option<Vector>>, k: nat)
    requires |embeddings| == |Chunks(transcript, DefaultElementsPerChunk, DefaultOverlap)|
    requires k < |embeddings|
    ensures var chunks := Chunks(transcript, DefaultElementsPerChunk, DefaultOverlap);
      var rows := PairRows(videoId, chunks, embeddings);
      && |rows| == ChunkCount(|transcript|, 12)
      && rows[k].videoId == videoId
      && rows[k].text == chunks[k].text
      && rows[k].startTime == transcript[k * 12].offset
      && rows[k].embedding == (if embeddings[k].Some? then embeddings[k].value else [])
  {
    ChunkAt(transcript, DefaultElementsPerChunk, DefaultOverlap, k);
  }
}
