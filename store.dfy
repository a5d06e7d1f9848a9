/** The three tables the controllers read and write (videos,
    transcript_chunks, questions), as append-only sequences of rows. */
module Store {
  import opened Wrappers

  /** An embedding as returned by the embedding model. */
  type Vector = seq<real>

  datatype VideoRow = VideoRow(
    id: int,
    youtubeVideoId: string,
    title: string,
    description: string,
    thumbnailUrl: string,
    url: string)

  datatype ChunkRow = ChunkRow(videoId: int, text: string, startTime: real, endTime: real, embedding: Vector)

  datatype QuestionRow = QuestionRow(
    question: string,
    answer: string,
    videoId: int,
    mostRelevantTimestamp: real,
    answerEmbedding: Vector)

  /** Snippet fields of the video-metadata response. */
  datatype Metadata = Metadata(title: string, description: string, thumbnailUrl: string)

  class Database {
    var videos: seq<VideoRow>
    var chunks: seq<ChunkRow>
    var questions: seq<QuestionRow>
    /** The next value of the identity column `videos.id`. */
    var nextVideoId: int

    /** Identity ids are positive, increasing in insertion order and below
        the next one to be handed out. */
    ghost predicate Valid()
      reads this
    {
      && nextVideoId >= 1
      && (forall i :: 0 <= i < |videos| ==> 1 <= videos[i].id < nextVideoId)
      && (forall i, j :: 0 <= i < j < |videos| ==> videos[i].id < videos[j].id)
    }

    constructor ()
      ensures Valid()
      ensures videos == [] && chunks == [] && questions == [] && nextVideoId == 1
    {
      videos, chunks, questions := [], [], [];
      nextVideoId := 1;
    }

    /** `db.insert(videosTable).values(...).returning()`: the identity column
        hands out a fresh id. */
    method InsertVideo(youtubeVideoId: string, metadata: Metadata, url: string) returns (row: VideoRow)
      requires Valid()
      modifies this
      ensures Valid()
      ensures row == VideoRow(old(nextVideoId), youtubeVideoId, metadata.title, metadata.description,
                              metadata.thumbnailUrl, url)
      ensures forall i :: 0 <= i < |old(videos)| ==> old(videos)[i].id != row.id
      ensures videos == old(videos) + [row] && nextVideoId == old(nextVideoId) + 1
      ensures chunks == old(chunks) && questions == old(questions)
    {
      row := VideoRow(nextVideoId, youtubeVideoId, metadata.title, metadata.description,
                      metadata.thumbnailUrl, url);
      videos := videos + [row];
      nextVideoId := nextVideoId + 1;
    }

    method InsertChunk(row: ChunkRow)
      requires Valid()
      modifies this
      ensures Valid()
      ensures chunks == old(chunks) + [row]
      ensures videos == old(videos) && questions == old(questions) && nextVideoId == old(nextVideoId)
    {
      chunks := chunks + [row];
    }

    method InsertQuestion(row: QuestionRow)
      requires Valid()
      modifies this
      ensures Valid()
      ensures questions == old(questions) + [row]
      ensures videos == old(videos) && chunks == old(chunks) && nextVideoId == old(nextVideoId)
    {
      questions := questions + [row];
    }
  }

  /** `db.query.videosTable.findFirst` on `id`: the first row whose id
      equals the (possibly fractional) number. */
  function FindIn(videos: seq<VideoRow>, id: real): (r: Option<VideoRow>)
    ensures r.Some? ==> r.value in videos && r.value.id as real == id
    ensures r.None? ==> forall i :: 0 <= i < |videos| ==> videos[i].id as real != id
  {
    if |videos| == 0 then None
    else if videos[0].id as real == id then Some(videos[0])
    else FindIn(videos[1..], id)
  }
}
