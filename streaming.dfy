/** The streaming part of askQuestion: the `for await` loop over the
    generation stream, which appends every non-empty fragment text to
    `fullAnswer` and writes one `data:` event for it. */
module Streaming {
  import opened Wrappers
  import Text
  import opened Math

  /** A server-sent event as written by `res.write`: a text fragment, the
      final `{ done: true }`, or `{ error: "Error during streaming" }`. */
  datatype Event = Data(text: string) | Done | Error

  /** What the generation model sends: the text of each streamed chunk
      (None when the chunk has no candidate, part or text), and, when the
      stream throws, how many chunks it delivers first (0: the
      `generateContentStream` call itself throws). */
  datatype Stream = Stream(fragments: seq<Option<string>>, failsAfter: Option<nat>)

  /** The chunks the loop receives before the stream ends or throws. */
  function Received(s: Stream): (r: seq<Option<string>>)
    ensures r <= s.fragments
    ensures s.failsAfter.None? ==> r == s.fragments
  {
    if s.failsAfter.Some? then s.fragments[..Min(s.failsAfter.value, |s.fragments|)] else s.fragments
  }

  /** `if (text)`: a fragment counts when it is present and not "". */
  function Kept(f: Option<string>): seq<string>
  {
    if f.Some? && f.value != "" then [f.value] else []
  }

  /** The fragment texts the loop appends, in stream order. */
  function NonEmptyTexts(frags: seq<Option<string>>): (r: seq<string>)
    ensures |r| <= |frags|
    ensures forall i :: 0 <= i < |r| ==> r[i] != ""
  {
    if |frags| == 0 then [] else NonEmptyTexts(frags[..|frags| - 1]) + Kept(frags[|frags| - 1])
  }

  /** One Data event per text, in order. */
  function DataEvents(texts: seq<string>): (r: seq<Event>)
    ensures |r| == |texts|
    ensures forall i :: 0 <= i < |texts| ==> r[i] == Data(texts[i])
  {
    seq(|texts|, i requires 0 <= i < |texts| => Data(texts[i]))
  }

  /** The texts carried by the Data events of a sequence of events. */
  function EventTexts(events: seq<Event>): seq<string>
  {
    if |events| == 0 then []
    else (if events[0].Data? then [events[0].text] else []) + EventTexts(events[1..])
  }

  /** One more chunk received: its text, if kept, is appended. */
  lemma ReceiveOne(frags: seq<Option<string>>, i: nat)
    requires i < |frags|
    ensures NonEmptyTexts(frags[..i + 1]) == NonEmptyTexts(frags[..i]) + Kept(frags[i])
  {
    assert frags[..i + 1][..i] == frags[..i];
  }

  /** The same step, stated on the chunks received so far. */
  lemma ReceiveNext(seen: seq<Option<string>>, f: Option<string>)
    ensures NonEmptyTexts(seen + [f]) == NonEmptyTexts(seen) + Kept(f)
  {
    assert (seen + [f])[..|seen|] == seen;
  }

  lemma PrefixStep<T>(s: seq<T>, i: nat)
    requires i < |s|
    ensures s[..i] + [s[i]] == s[..i + 1]
  {
  }

  /** A kept text extends the answer and the events; a skipped one
      changes neither. */
  lemma KeepStep(texts: seq<string>, f: Option<string>)
    ensures Text.Concat(texts + Kept(f)) == Text.Concat(texts) + (if Kept(f) == [] then "" else f.value)
    ensures DataEvents(texts + Kept(f)) == DataEvents(texts) + (if Kept(f) == [] then [] else [Data(f.value)])
  {
    if Kept(f) == [] {
      assert texts + Kept(f) == texts;
    } else {
      AppendText(texts, f.value);
    }
  }

  lemma AppendText(texts: seq<string>, t: string)
    ensures Text.Concat(texts + [t]) == Text.Concat(texts) + t
    ensures DataEvents(texts + [t]) == DataEvents(texts) + [Data(t)]
  {
    assert (texts + [t])[..|texts|] == texts;
  }

  /** The loop of lines 129-135 and the call before it. `completed` is
      false when the stream throws; the events and the answer are then
      those of the chunks received so far. */
  method StreamAnswer(stream: Stream) returns (fullAnswer: string, events: seq<Event>, completed: bool)
    ensures completed <==> stream.failsAfter.None?
    ensures fullAnswer == Text.Concat(NonEmptyTexts(Received(stream)))
    ensures events == DataEvents(NonEmptyTexts(Received(stream)))
  {
    fullAnswer := "";
    events := [];
    // the chunks delivered before the stream ends or throws
    var frags := Received(stream);
    ghost var seen: seq<Option<string>> := [];
    ghost var texts: seq<string> := [];
    var i := 0;
    while i < |frags|
      invariant 0 <= i <= |frags| && seen == frags[..i]
      invariant texts == NonEmptyTexts(seen)
      invariant fullAnswer == Text.Concat(texts) && events == DataEvents(texts)
    {
      var f := frags[i];
      KeepStep(texts, f);
      if f.Some? && f.value != "" {
        fullAnswer := fullAnswer + f.value;
        events := events + [Data(f.value)];
      }
      ReceiveNext(seen, f);
      PrefixStep(frags, i);
      seen, texts := seen + [f], texts + Kept(f);
      i := i + 1;
    }
    assert frags[..i] == frags;
    completed := stream.failsAfter.None?;
  }

  /** Skipping absent and empty fragments distributes over splitting the
      stream in two. */
  lemma {:induction false} NonEmptyAppend(a: seq<Option<string>>, b: seq<Option<string>>)
    ensures NonEmptyTexts(a + b) == NonEmptyTexts(a) + NonEmptyTexts(b)
  {
    if |b| > 0 {
      var b' := b[..|b| - 1];
      assert (a + b)[..|a + b| - 1] == a + b';
      NonEmptyAppend(a, b');
    } else {
      assert a + b == a;
    }
  }

  /** Every non-empty fragment appears, and nothing else: a stream made of
      present, non-empty fragments keeps them all. */
  lemma {:induction false} AllNonEmptyKept(frags: seq<Option<string>>)
    requires forall i :: 0 <= i < |frags| ==> frags[i].Some? && frags[i].value != ""
    ensures |NonEmptyTexts(frags)| == |frags|
    ensures forall i :: 0 <= i < |frags| ==> NonEmptyTexts(frags)[i] == frags[i].value
  {
    if |frags| > 0 {
      AllNonEmptyKept(frags[..|frags| - 1]);
    }
  }

  /** An absent or empty fragment changes neither the answer nor the events. */
  lemma SkippedFragment(a: seq<Option<string>>, f: Option<string>, b: seq<Option<string>>)
    requires f.None? || f.value == ""
    ensures NonEmptyTexts(a + [f] + b) == NonEmptyTexts(a + b)
  {
    ReceiveOne(a + [f], |a|);
    assert (a + [f])[..|a|] == a && (a + [f])[..|a| + 1] == a + [f];
    NonEmptyAppend(a + [f], b);
    NonEmptyAppend(a, b);
  }

  /** The events written carry, in order, exactly the texts that make up
      the answer. */
  lemma {:induction false} EventsSpellAnswer(texts: seq<string>)
    ensures EventTexts(DataEvents(texts)) == texts
  {
    if |texts| > 0 {
      EventsSpellAnswer(texts[1..]);
      assert DataEvents(texts)[1..] == DataEvents(texts[1..]);
    }
  }

  /** The answer accumulated before a failure is a prefix of the answer the
      whole stream would have given. */
  lemma PartialAnswerIsPrefix(frags: seq<Option<string>>, k: nat)
    requires k <= |frags|
    ensures Text.Concat(NonEmptyTexts(frags[..k])) <= Text.Concat(NonEmptyTexts(frags))
  {
    assert frags == frags[..k] + frags[k..];
    NonEmptyAppend(frags[..k], frags[k..]);
    Text.ConcatAppend(NonEmptyTexts(frags[..k]), NonEmptyTexts(frags[k..]));
  }

  /** "Hel", a chunk without text, "" and "lo" give the answer "Hello" and
      two Data events. */
  lemma HelloStream()
    ensures var kept := NonEmptyTexts([Some("Hel"), None, Some(""), Some("lo")]);
      && kept == ["Hel", "lo"]
      && Text.Concat(kept) == "Hello"
      && DataEvents(kept) == [Data("Hel"), Data("lo")]
  {
    TwoAroundSkipped("Hel", "lo");
    AppendText([], "Hel");
    AppendText(["Hel"], "lo");
  }

  /** Two texts around an absent and an empty fragment: only the two
      texts are kept. */
  lemma TwoAroundSkipped(a: string, b: string)
    requires a != "" && b != ""
    ensures NonEmptyTexts([Some(a), None, Some(""), Some(b)]) == [a, b]
  {
    var s0: seq<Option<string>> := [];
    var s1 := s0 + [Some(a)];
    var s2 := s1 + [None];
    var s3 := s2 + [Some("")];
    ReceiveNext(s0, Some(a));
    assert NonEmptyTexts(s1) == [a];
    ReceiveNext(s1, None);
    ReceiveNext(s2, Some(""));
    assert NonEmptyTexts(s3) == [a];
    ReceiveNext(s3, Some(b));
    assert s3 + [Some(b)] == [Some(a), None, Some(""), Some(b)];
  }

  /** A stream that throws after one non-empty fragment yields that
      fragment as the whole received answer, and one Data event for it. */
  lemma FailAfterOne(t: string, rest: seq<Option<string>>)
    requires t != ""
    ensures var s := Stream([Some(t)] + rest, Some(1));
      && NonEmptyTexts(Received(s)) == [t]
      && Text.Concat(NonEmptyTexts(Received(s))) == t
      && DataEvents(NonEmptyTexts(Received(s))) == [Data(t)]
  {
    var s := Stream([Some(t)] + rest, Some(1));
    assert Received(s) == [Some(t)];
    assert [Some(t)][..0] == [];
    assert NonEmptyTexts(Received(s)) == [t];
    AppendText([], t);
  }
}
