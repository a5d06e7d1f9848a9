/** The sliding-window transcript chunker of addVideoController.ts. */
module Chunking {
  import Text
  import opened Math

  /** One transcript entry as the transcript service returns it (seconds). */
  datatype Entry = Entry(text: string, offset: real, duration: real)

  /** A retrievable window of the transcript. */
  datatype Chunk = Chunk(text: string, startTime: real, endTime: real)

  const DefaultElementsPerChunk: nat := 15
  const DefaultOverlap: nat := 3

  function Texts(entries: seq<Entry>): (r: seq<string>)
    ensures |r| == |entries|
    ensures forall i :: 0 <= i < |entries| ==> r[i] == entries[i].text
  {
    seq(|entries|, i requires 0 <= i < |entries| => entries[i].text)
  }

  /** The chunk built from one non-empty window of entries. */
  function MakeChunk(window: seq<Entry>): Chunk
    requires |window| > 0
  {
    var last := window[|window| - 1];
    Chunk(Text.Join(Texts(window), " "), window[0].offset, last.offset + last.duration)
  }

  /** ceil(n / step): how many multiples of `step` lie below `n`. */
  function ChunkCount(n: nat, step: nat): nat
    requires step > 0
  {
    (n + step - 1) / step
  }

  /** Entries k*step up to (not including) k*step + elementsPerChunk, clipped
      to the transcript: the slice the k-th loop iteration takes. */
  function Window(transcript: seq<Entry>, elementsPerChunk: nat, overlap: nat, k: nat): (r: seq<Entry>)
    requires overlap < elementsPerChunk
    requires k * (elementsPerChunk - overlap) < |transcript|
  {
    var start := k * (elementsPerChunk - overlap);
    transcript[start..Min(start + elementsPerChunk, |transcript|)]
  }

  /** The chunk list, defined window by window rather than by the loop. */
  function Chunks(transcript: seq<Entry>, elementsPerChunk: nat, overlap: nat): seq<Chunk>
    requires overlap < elementsPerChunk
  {
    var step := elementsPerChunk - overlap;
    seq(ChunkCount(|transcript|, step), k requires 0 <= k < ChunkCount(|transcript|, step) =>
      CountBound(|transcript|, step, k);
      MakeChunk(Window(transcript, elementsPerChunk, overlap, k)))
  }

  lemma CountBound(n: nat, step: nat, k: nat)
    requires step > 0 && k < ChunkCount(n, step)
    ensures k * step < n
  {
    var x := n + step - 1;
    var c := x / step;
    assert x == c * step + x % step;
    MulLe(k, c - 1, step);
    assert (c - 1) * step == c * step - step;
  }

  /** A start below n is the start of a chunk. */
  lemma BelowCount(n: nat, step: nat, m: nat)
    requires step > 0 && m * step < n
    ensures m < ChunkCount(n, step)
  {
    var x := n + step - 1;
    var c := x / step;
    assert x == c * step + x % step;
    if c <= m {
      MulLe(c, m, step);
    }
  }

  lemma MulLe(a: int, b: int, s: nat)
    requires a <= b
    ensures a * s <= b * s
  {
    assert b * s - a * s == (b - a) * s;
  }

  /** Euclidean division has one quotient. */
  lemma DivUnique(x: int, s: nat, q: int)
    requires s > 0 && q * s <= x < q * s + s
    ensures x / s == q
  {
    var d := x / s;
    assert x == d * s + x % s;
    if d < q { MulLe(d + 1, q, s); }
    if d > q { MulLe(q + 1, d, s); }
  }

  /** The count of multiples of `step` below `n` is ceil(n / step). */
  lemma CountIsCeil(n: nat, step: nat, c: nat)
    requires step > 0
    requires n <= c * step
    requires c == 0 || (c - 1) * step < n
    ensures ChunkCount(n, step) == c
  {
    if c > 0 {
      assert (c - 1) * step == c * step - step;
    }
    DivUnique(n + step - 1, step, c);
  }

  /** chunkTranscript: for (i = 0; i < n; i += elementsPerChunk - overlap),
      slice, join the texts, take the first offset and the last end time.
      The source has no guard for overlap >= elementsPerChunk: with positive
      equal values and a non-empty transcript the loop never ends (with
      both 0 the first slice is empty and the `break` ends it), and with a
      larger overlap `i` goes negative, `slice` counts from the end and the
      `break` on an empty slice ends the loop. This model requires the step
      to be positive, as it is for the defaults the one caller uses; under
      that requirement the `break` is unreachable. */
  method ChunkTranscript(transcript: seq<Entry>, elementsPerChunk: nat, overlap: nat)
    returns (chunks: seq<Chunk>)
    requires overlap < elementsPerChunk
    ensures chunks == Chunks(transcript, elementsPerChunk, overlap)
  {
    var step := elementsPerChunk - overlap;
    ghost var all := Chunks(transcript, elementsPerChunk, overlap);
    chunks := [];
    var i := 0;
    while i < |transcript|
      invariant i == |chunks| * step
      invariant |chunks| <= |all| && chunks == all[..|chunks|]
    {
      BelowCount(|transcript|, step, |chunks|);
      var chunk := transcript[i..Min(i + elementsPerChunk, |transcript|)];
      var text := Text.Join(Texts(chunk), " ");
      var startTime := chunk[0].offset;
      var endTime := chunk[|chunk| - 1].offset + chunk[|chunk| - 1].duration;
      assert chunk == Window(transcript, elementsPerChunk, overlap, |chunks|);
      assert all[|chunks|] == Chunk(text, startTime, endTime);
      assert all[..|chunks| + 1] == all[..|chunks|] + [all[|chunks|]];
      NextStart(|chunks|, step);
      chunks := chunks + [Chunk(text, startTime, endTime)];
      i := i + step;
    }
    if |chunks| > 0 {
      CountBound(|transcript|, step, |chunks| - 1);
    }
    CountIsCeil(|transcript|, step, |chunks|);
    assert all[..|chunks|] == all;
  }

  /** There are exactly ceil(n / step) chunks; none for an empty transcript. */
  lemma ChunkCountIsCeil(transcript: seq<Entry>, elementsPerChunk: nat, overlap: nat)
    requires overlap < elementsPerChunk
    ensures var step := elementsPerChunk - overlap;
      |Chunks(transcript, elementsPerChunk, overlap)| * step >= |transcript| &&
      (|Chunks(transcript, elementsPerChunk, overlap)| - 1) * step < |transcript|
    ensures Chunks(transcript, elementsPerChunk, overlap) == [] <==> transcript == []
  {
    var step := elementsPerChunk - overlap;
    var n, c := |transcript|, ChunkCount(|transcript|, elementsPerChunk - overlap);
    assert c * step > n + step - 1 - step;
    if n > 0 {
      CountBound(n, step, c - 1);
    } else {
      assert c == (step - 1) / step == 0;
    }
  }

  /** Chunk k starts at entry k*step, holds between 1 and elementsPerChunk
      entries, and its times come from its first and last entries. */
  lemma ChunkAt(transcript: seq<Entry>, elementsPerChunk: nat, overlap: nat, k: nat)
    requires overlap < elementsPerChunk
    requires k < |Chunks(transcript, elementsPerChunk, overlap)|
    ensures k * (elementsPerChunk - overlap) < |transcript|
    ensures var start := k * (elementsPerChunk - overlap);
      var w := Window(transcript, elementsPerChunk, overlap, k);
      var c := Chunks(transcript, elementsPerChunk, overlap)[k];
      && 1 <= |w| <= elementsPerChunk
      && w[0] == transcript[start]
      && c.startTime == transcript[start].offset
      && c.endTime == transcript[start + |w| - 1].offset + transcript[start + |w| - 1].duration
  {
    var step := elementsPerChunk - overlap;
    CountBound(|transcript|, step, k);
    var start := k * step;
    var w := Window(transcript, elementsPerChunk, overlap, k);
    assert w == transcript[start..Min(start + elementsPerChunk, |transcript|)];
    assert Chunks(transcript, elementsPerChunk, overlap)[k] == MakeChunk(w);
  }

  /** A chunk's text is its entries' texts joined by single spaces, in
      transcript order: splitting it on the space gives them back whenever
      the entry texts hold no space themselves. */
  lemma ChunkTextWords(transcript: seq<Entry>, elementsPerChunk: nat, overlap: nat, k: nat)
    requires overlap < elementsPerChunk
    requires k < |Chunks(transcript, elementsPerChunk, overlap)|
    requires forall i :: 0 <= i < |transcript| ==> ' ' !in transcript[i].text
    ensures k * (elementsPerChunk - overlap) < |transcript|
    ensures Text.Split(Chunks(transcript, elementsPerChunk, overlap)[k].text, " ")
            == Texts(Window(transcript, elementsPerChunk, overlap, k))
  {
    CountBound(|transcript|, elementsPerChunk - overlap, k);
    var w := Window(transcript, elementsPerChunk, overlap, k);
    var start := k * (elementsPerChunk - overlap);
    forall i | 0 <= i < |w| ensures ' ' !in Texts(w)[i] {
      assert w[i] == transcript[start + i];
    }
    Text.SplitJoin(Texts(w), ' ');
  }

  /** Every entry lies in some chunk. */
  lemma Coverage(transcript: seq<Entry>, elementsPerChunk: nat, overlap: nat, j: nat)
    requires overlap < elementsPerChunk
    requires j < |transcript|
    ensures var step := elementsPerChunk - overlap;
      exists k :: 0 <= k < |Chunks(transcript, elementsPerChunk, overlap)| &&
        k * step <= j < k * step + |Window(transcript, elementsPerChunk, overlap, k)|
  {
    var step := elementsPerChunk - overlap;
    var k := j / step;
    var start := k * step;
    assert j == start + j % step;
    BelowCount(|transcript|, step, k);
    var w := Window(transcript, elementsPerChunk, overlap, k);
    assert |w| == Min(start + elementsPerChunk, |transcript|) - start;
  }

  /** A full chunk shares exactly `overlap` entries with the next one: its
      last `overlap` entries are the next chunk's first. */
  lemma OverlapShared(transcript: seq<Entry>, elementsPerChunk: nat, overlap: nat, k: nat)
    requires overlap < elementsPerChunk
    requires k + 1 < |Chunks(transcript, elementsPerChunk, overlap)|
    requires k * (elementsPerChunk - overlap) + elementsPerChunk <= |transcript|
    ensures (k + 1) * (elementsPerChunk - overlap) < |transcript|
    ensures var step := elementsPerChunk - overlap;
      var w := Window(transcript, elementsPerChunk, overlap, k);
      var w' := Window(transcript, elementsPerChunk, overlap, k + 1);
      |w| == elementsPerChunk && |w'| >= overlap && w[step..] == w'[..overlap]
  {
    var step := elementsPerChunk - overlap;
    CountBound(|transcript|, step, k + 1);
    NextStart(k, step);
    SharedSlice(transcript, k * step, elementsPerChunk, overlap);
  }

  /** A full window from s0 and the window one step later share `overlap` entries. */
  lemma SharedSlice(t: seq<Entry>, s0: nat, e: nat, o: nat)
    requires o < e && s0 + e <= |t|
    ensures var s1 := s0 + (e - o);
      var w := t[s0..s0 + e];
      var w' := t[s1..Min(s1 + e, |t|)];
      |w'| >= o && w[e - o..] == w'[..o]
  {
  }

  lemma NextStart(k: nat, step: nat)
    ensures (k + 1) * step == k * step + step
  {
  }

  /** Every chunk starts no later than it ends when offsets never decrease
      and durations are non-negative. */
  lemma ChunkTimesOrdered(transcript: seq<Entry>, elementsPerChunk: nat, overlap: nat, k: nat)
    requires overlap < elementsPerChunk
    requires k < |Chunks(transcript, elementsPerChunk, overlap)|
    requires forall i, j :: 0 <= i <= j < |transcript| ==> transcript[i].offset <= transcript[j].offset
    requires forall i :: 0 <= i < |transcript| ==> transcript[i].duration >= 0.0
    ensures Chunks(transcript, elementsPerChunk, overlap)[k].startTime
            <= Chunks(transcript, elementsPerChunk, overlap)[k].endTime
  {
    ChunkAt(transcript, elementsPerChunk, overlap, k);
    var start := k * (elementsPerChunk - overlap);
    var w := Window(transcript, elementsPerChunk, overlap, k);
    WindowBounds(transcript, elementsPerChunk, overlap, k);
    SpanOrdered(transcript, start, start + |w| - 1);
  }

  lemma SpanOrdered(transcript: seq<Entry>, a: nat, b: nat)
    requires a <= b < |transcript|
    requires forall i, j :: 0 <= i <= j < |transcript| ==> transcript[i].offset <= transcript[j].offset
    requires forall i :: 0 <= i < |transcript| ==> transcript[i].duration >= 0.0
    ensures transcript[a].offset <= transcript[b].offset + transcript[b].duration
  {
    assert transcript[a].offset <= transcript[b].offset;
  }

  lemma WindowBounds(transcript: seq<Entry>, elementsPerChunk: nat, overlap: nat, k: nat)
    requires overlap < elementsPerChunk
    requires k * (elementsPerChunk - overlap) < |transcript|
    ensures 0 <= k * (elementsPerChunk - overlap)
    ensures var w := Window(transcript, elementsPerChunk, overlap, k);
      1 <= |w| && k * (elementsPerChunk - overlap) + |w| <= |transcript|
  {
    var step := elementsPerChunk - overlap;
    MulLe(0, k, step);
    var start := k * step;
    assert Window(transcript, elementsPerChunk, overlap, k)
           == transcript[start..Min(start + elementsPerChunk, |transcript|)];
  }

  /** A single entry yields one chunk spanning exactly that entry. */
  lemma SingleEntry(e: Entry)
    ensures Chunks([e], DefaultElementsPerChunk, DefaultOverlap)
            == [Chunk(e.text, e.offset, e.offset + e.duration)]
  {
    var cs := Chunks([e], DefaultElementsPerChunk, DefaultOverlap);
    assert ChunkCount(1, 12) == 1;
    assert Window([e], 15, 3, 0) == [e];
    assert Texts([e]) == [e.text];
  }

  /** Thirty one-second entries with the defaults give three chunks, starting
      at entries (and seconds) 0, 12 and 24. */
  lemma ThirtyEntries(texts: seq<string>)
    requires |texts| == 30
    ensures var t := seq(30, i requires 0 <= i < 30 => Entry(texts[i], i as real, 1.0));
      var cs := Chunks(t, DefaultElementsPerChunk, DefaultOverlap);
      && |cs| == 3
      && cs[0].startTime == 0.0 && cs[1].startTime == 12.0 && cs[2].startTime == 24.0
      && cs[0].endTime == 15.0 && cs[1].endTime == 27.0 && cs[2].endTime == 30.0
  {
    var t := seq(30, i requires 0 <= i < 30 => Entry(texts[i], i as real, 1.0));
    assert ChunkCount(30, 12) == 3;
    ChunkAt(t, 15, 3, 0);
    ChunkAt(t, 15, 3, 1);
    ChunkAt(t, 15, 3, 2);
  }

  /** Entries "a" (0 s, 1 s long) and "b" (1 s, 1 s long) make one chunk
      "a b" from 0 to 2 seconds. */
  lemma TwoEntries()
    ensures Chunks([Entry("a", 0.0, 1.0), Entry("b", 1.0, 1.0)], DefaultElementsPerChunk, DefaultOverlap)
            == [Chunk("a b", 0.0, 2.0)]
  {
    var t := [Entry("a", 0.0, 1.0), Entry("b", 1.0, 1.0)];
    assert ChunkCount(2, 12) == 1;
    assert Window(t, 15, 3, 0) == t;
    assert Texts(t) == ["a", "b"];
    assert ["a", "b"][1..] == ["b"];
    assert Text.Join(["a", "b"], " ") == "a" + " " + "b" == "a b";
    assert MakeChunk(t) == Chunk("a b", 0.0, 2.0);
    assert Chunks(t, DefaultElementsPerChunk, DefaultOverlap)[0] == MakeChunk(Window(t, 15, 3, 0));
  }
}
