/** The two similarity queries of askQuestionController.ts, as pure
    selections: keep the rows of the video whose similarity is strictly
    above a threshold, order them by similarity descending, keep at most a
    limit. The similarity of each row (1 - cosine distance, computed by the
    database) is given with the row; the order among equal similarities is
    the database's and is left open by the properties proved here. */
module Retrieval {
  import opened Math

  /** A row as the query sees it: the video it belongs to, its similarity
      to the question, and the selected columns. */
  datatype Candidate<T> = Candidate(videoId: int, similarity: real, item: T)

  /** `text` and `startTime` of a transcript chunk. */
  datatype ChunkHit = ChunkHit(text: string, startTime: real)

  /** `question` and `answer` of an earlier exchange. */
  datatype PriorQA = PriorQA(question: string, answer: string)

  const ChunkMinSimilarity: real := 0.5
  const ChunkLimit: nat := 20
  const AnswerMinSimilarity: real := 0.6
  const AnswerLimit: nat := 3

  /** The WHERE clause: same video and similarity strictly above the threshold. */
  predicate Qualifies<T>(c: Candidate<T>, videoId: int, threshold: real)
  {
    c.videoId == videoId && c.similarity > threshold
  }

  function Filter<T>(rows: seq<Candidate<T>>, videoId: int, threshold: real): (r: seq<Candidate<T>>)
    ensures forall i :: 0 <= i < |r| ==> Qualifies(r[i], videoId, threshold)
    ensures forall i :: 0 <= i < |rows| && Qualifies(rows[i], videoId, threshold) ==> rows[i] in r
    ensures forall x :: x in r ==> x in rows && Qualifies(x, videoId, threshold)
    ensures |r| <= |rows|
    ensures forall x :: x in rows ==>
      multiset(r)[x] == if Qualifies(x, videoId, threshold) then multiset(rows)[x] else 0
  {
    if |rows| == 0 then []
    else
      assert rows == [rows[0]] + rows[1..];
      if Qualifies(rows[0], videoId, threshold) then [rows[0]] + Filter(rows[1..], videoId, threshold)
      else Filter(rows[1..], videoId, threshold)
  }

  predicate SortedDesc<T>(s: seq<Candidate<T>>)
  {
    forall i, j :: 0 <= i < j < |s| ==> s[i].similarity >= s[j].similarity
  }

  function InsertDesc<T>(x: Candidate<T>, s: seq<Candidate<T>>): (r: seq<Candidate<T>>)
    requires SortedDesc(s)
    ensures SortedDesc(r)
    ensures multiset(r) == multiset(s) + multiset{x}
    ensures |r| == |s| + 1
    ensures r[0] == (if |s| == 0 || x.similarity >= s[0].similarity then x else s[0])
  {
    if |s| == 0 then [x]
    else if x.similarity >= s[0].similarity then [x] + s
    else
      var t := InsertDesc(x, s[1..]);
      assert s == [s[0]] + s[1..];
      assert forall j :: 0 <= j < |t| ==> t[0].similarity >= t[j].similarity;
      assert t[0].similarity <= s[0].similarity;
      [s[0]] + t
  }

  /** ORDER BY similarity DESC. */
  function SortDesc<T>(s: seq<Candidate<T>>): (r: seq<Candidate<T>>)
    ensures SortedDesc(r)
    ensures multiset(r) == multiset(s)
  {
    if |s| == 0 then []
    else
      assert s == [s[0]] + s[1..];
      InsertDesc(s[0], SortDesc(s[1..]))
  }

  /** WHERE ... ORDER BY similarity DESC LIMIT limit. */
  function Select<T>(rows: seq<Candidate<T>>, videoId: int, threshold: real, limit: nat): seq<Candidate<T>>
  {
    var sorted := SortDesc(Filter(rows, videoId, threshold));
    sorted[..Min(limit, |sorted|)]
  }

  /** The transcript-chunk query: similarity > 0.5, at most 20. */
  function SelectChunks(rows: seq<Candidate<ChunkHit>>, videoId: int): seq<Candidate<ChunkHit>>
  {
    Select(rows, videoId, ChunkMinSimilarity, ChunkLimit)
  }

  /** The prior-Q&A query: answer similarity > 0.6, at most 3. */
  function SelectPriorQA(rows: seq<Candidate<PriorQA>>, videoId: int): seq<Candidate<PriorQA>>
  {
    Select(rows, videoId, AnswerMinSimilarity, AnswerLimit)
  }

  /** A prefix and the rest make up the whole multiset. */
  lemma PrefixSplit<T>(s: seq<Candidate<T>>, m: nat)
    requires m <= |s|
    ensures multiset(s) == multiset(s[..m]) + multiset(s[m..])
  {
    assert s == s[..m] + s[m..];
  }

  /** In a descending list, nothing after position m beats anything before it. */
  lemma TailBelowPrefix<T>(s: seq<Candidate<T>>, m: nat)
    requires SortedDesc(s) && m <= |s|
    ensures forall x, i :: x in s[m..] && 0 <= i < m ==> x.similarity <= s[i].similarity
  {
    forall x, i | x in s[m..] && 0 <= i < m ensures x.similarity <= s[i].similarity {
      var j :| 0 <= j < |s| - m && s[m..][j] == x;
      assert s[m + j] == x;
    }
  }

  /** What the query returns: only rows of the video above the threshold,
      each as often as it is in the table at most, in non-increasing
      similarity, and as many as qualify up to the limit. */
  lemma SelectSpec<T>(rows: seq<Candidate<T>>, videoId: int, threshold: real, limit: nat)
    ensures var r := Select(rows, videoId, threshold, limit);
      var qualifying := Filter(rows, videoId, threshold);
      && (forall i :: 0 <= i < |r| ==> Qualifies(r[i], videoId, threshold))
      && SortedDesc(r)
      && |r| == Min(limit, |qualifying|)
      && multiset(r) <= multiset(qualifying)
  {
    var qualifying := Filter(rows, videoId, threshold);
    var sorted := SortDesc(qualifying);
    assert |sorted| == |multiset(sorted)| == |qualifying|;
    var m := Min(limit, |sorted|);
    var r := sorted[..m];
    PrefixSplit(sorted, m);
    forall i | 0 <= i < |r| ensures Qualifies(r[i], videoId, threshold) {
      assert r[i] in multiset(sorted);
    }
  }

  /** Every row returned is a qualifying row of the table; when no more
      rows qualify than the limit, every qualifying row is returned. */
  lemma SelectMembers<T>(rows: seq<Candidate<T>>, videoId: int, threshold: real, limit: nat)
    ensures var r := Select(rows, videoId, threshold, limit);
      && (forall x :: x in r ==> x in rows && Qualifies(x, videoId, threshold))
      && (|Filter(rows, videoId, threshold)| <= limit ==>
            forall i :: 0 <= i < |rows| && Qualifies(rows[i], videoId, threshold) ==> rows[i] in r)
  {
    var qualifying := Filter(rows, videoId, threshold);
    var sorted := SortDesc(qualifying);
    var r := Select(rows, videoId, threshold, limit);
    SelectSpec(rows, videoId, threshold, limit);
    forall x | x in r ensures x in rows && Qualifies(x, videoId, threshold) {
      assert x in multiset(r);
      assert x in multiset(qualifying);
    }
    if |qualifying| <= limit {
      assert |sorted| == |multiset(sorted)| == |qualifying|;
      assert r == sorted;
      forall i | 0 <= i < |rows| && Qualifies(rows[i], videoId, threshold) ensures rows[i] in r {
        assert rows[i] in multiset(sorted);
      }
    }
  }

  /** No qualifying row the limit cuts off is more similar than a row returned. */
  lemma SelectKeepsBest<T>(rows: seq<Candidate<T>>, videoId: int, threshold: real, limit: nat)
    ensures var r := Select(rows, videoId, threshold, limit);
      forall x, i :: x in multiset(Filter(rows, videoId, threshold)) - multiset(r) && 0 <= i < |r| ==>
        x.similarity <= r[i].similarity
  {
    var sorted := SortDesc(Filter(rows, videoId, threshold));
    PrefixKeepsBest(sorted, Min(limit, |sorted|));
  }

  /** What a descending list's prefix leaves out is no more similar than
      anything in the prefix. */
  lemma PrefixKeepsBest<T>(sorted: seq<Candidate<T>>, m: nat)
    requires SortedDesc(sorted) && m <= |sorted|
    ensures forall x, i :: x in multiset(sorted) - multiset(sorted[..m]) && 0 <= i < m ==>
      x.similarity <= sorted[..m][i].similarity
  {
    PrefixSplit(sorted, m);
    assert multiset(sorted) - multiset(sorted[..m]) == multiset(sorted[m..]);
    TailBelowPrefix(sorted, m);
  }

  lemma HeadIsMax<T>(s: seq<Candidate<T>>, x: Candidate<T>)
    requires SortedDesc(s) && x in s
    ensures x.similarity <= s[0].similarity
  {
    var j :| 0 <= j < |s| && s[j] == x;
  }

  /** The first row returned, if any, is at least as similar as every
      qualifying row; nothing is returned only when nothing qualifies or the
      limit is 0. */
  lemma SelectHeadIsBest<T>(rows: seq<Candidate<T>>, videoId: int, threshold: real, limit: nat)
    ensures var r := Select(rows, videoId, threshold, limit);
      && (r == [] <==> limit == 0 || forall i :: 0 <= i < |rows| ==> !Qualifies(rows[i], videoId, threshold))
      && (r != [] ==>
            && Qualifies(r[0], videoId, threshold)
            && forall i :: 0 <= i < |rows| && Qualifies(rows[i], videoId, threshold) ==>
                 rows[i].similarity <= r[0].similarity)
  {
    var qualifying := Filter(rows, videoId, threshold);
    var sorted := SortDesc(qualifying);
    SelectSpec(rows, videoId, threshold, limit);
    forall i | 0 <= i < |rows| && Qualifies(rows[i], videoId, threshold)
      ensures |sorted| > 0 && rows[i].similarity <= sorted[0].similarity
    {
      assert rows[i] in multiset(sorted);
      HeadIsMax(sorted, rows[i]);
    }
    if |qualifying| > 0 {
      assert qualifying[0] in rows;
    }
  }

  /** Threshold and limit bind the transcript query: only rows of the
      video with similarity strictly above 0.5, best first, at most 20. */
  lemma SelectChunksBounds(rows: seq<Candidate<ChunkHit>>, videoId: int)
    ensures var r := SelectChunks(rows, videoId);
      && |r| <= ChunkLimit && SortedDesc(r)
      && forall i :: 0 <= i < |r| ==> r[i].videoId == videoId && r[i].similarity > 0.5
  {
    SelectSpec(rows, videoId, ChunkMinSimilarity, ChunkLimit);
  }

  /** The prior-Q&A query: only rows of the video with answer similarity
      strictly above 0.6, best first, at most 3. */
  lemma SelectPriorQABounds(rows: seq<Candidate<PriorQA>>, videoId: int)
    ensures var r := SelectPriorQA(rows, videoId);
      && |r| <= AnswerLimit && SortedDesc(r)
      && forall i :: 0 <= i < |r| ==> r[i].videoId == videoId && r[i].similarity > 0.6
  {
    SelectSpec(rows, videoId, AnswerMinSimilarity, AnswerLimit);
  }

  /** A chunk at exactly 0.5 is left out; one at 0.51 is kept. */
  lemma ThresholdIsStrict(a: ChunkHit, b: ChunkHit, videoId: int)
    ensures SelectChunks([Candidate(videoId, 0.5, a), Candidate(videoId, 0.51, b)], videoId)
            == [Candidate(videoId, 0.51, b)]
  {
    var rows := [Candidate(videoId, 0.5, a), Candidate(videoId, 0.51, b)];
    assert rows[1..] == [rows[1]];
    assert Filter(rows, videoId, ChunkMinSimilarity) == [rows[1]];
  }

  lemma {:induction false} FilterKeepsAll<T>(rows: seq<Candidate<T>>, videoId: int, threshold: real)
    requires forall i :: 0 <= i < |rows| ==> Qualifies(rows[i], videoId, threshold)
    ensures Filter(rows, videoId, threshold) == rows
  {
    if |rows| > 0 {
      FilterKeepsAll(rows[1..], videoId, threshold);
    }
  }

  lemma SortTwo<T>(y: Candidate<T>, z: Candidate<T>)
    requires z.similarity <= y.similarity
    ensures SortDesc([y, z]) == [y, z]
  {
    assert [y, z][1..] == [z] && [z][1..] == [];
    assert SortDesc([z]) == [z];
  }

  lemma InsertAfterOne<T>(x: Candidate<T>, z: Candidate<T>)
    requires x.similarity < z.similarity
    ensures InsertDesc(x, [z]) == [z, x]
  {
    assert [z][1..] == [];
  }

  lemma InsertLast<T>(x: Candidate<T>, y: Candidate<T>, z: Candidate<T>)
    requires x.similarity < z.similarity <= y.similarity
    ensures InsertDesc(x, [y, z]) == [y, z, x]
  {
    assert [y, z][1..] == [z];
    InsertAfterOne(x, z);
  }

  lemma SortThree<T>(x: Candidate<T>, y: Candidate<T>, z: Candidate<T>)
    requires x.similarity < z.similarity < y.similarity
    ensures SortDesc([x, y, z]) == [y, z, x]
  {
    assert [x, y, z][1..] == [y, z];
    SortTwo(y, z);
    InsertLast(x, y, z);
  }

  /** Chunks at 0.6, 0.9 and 0.7 come back as 0.9, 0.7, 0.6. */
  lemma OrderedBySimilarity(a: ChunkHit, b: ChunkHit, c: ChunkHit, videoId: int)
    ensures var r := SelectChunks([Candidate(videoId, 0.6, a), Candidate(videoId, 0.9, b),
                                   Candidate(videoId, 0.7, c)], videoId);
      r == [Candidate(videoId, 0.9, b), Candidate(videoId, 0.7, c), Candidate(videoId, 0.6, a)]
  {
    var rows := [Candidate(videoId, 0.6, a), Candidate(videoId, 0.9, b), Candidate(videoId, 0.7, c)];
    FilterKeepsAll(rows, videoId, ChunkMinSimilarity);
    SortThree(rows[0], rows[1], rows[2]);
  }
}
