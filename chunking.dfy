/**
 * The time-window chunker (`chunk_by_time`): transcript segments are
 * flattened into timed words, and a window of `window` seconds slides over
 * them in steps of `window - overlap` seconds, emitting one chunk per window
 * whose overlapping words have some non-blank text.
 *
 * Timestamps are exact reals; the source's floats are not modelled.
 */
module Chunking {
  import opened Prelude
  import opened Strings

  /** A timed word, either from a segment's word list or a segment standing in for one. */
  datatype Word = Word(text: string, start: real, end: real)

  /**
   * A transcript segment after normalising the two shapes the source accepts
   * (a dict, or a Whisper segment object). `words` is `[]` when the segment
   * carries no word list, `None`, or an empty one: all three are falsy in the
   * source and take the same branch. `Unrecognised` is any other shape.
   */
  datatype Segment =
    | Transcribed(text: string, start: real, end: real, words: seq<Word>)
    | Unrecognised

  datatype Chunk = Chunk(text: string, start: real, end: real)

  /**
   * Outcome of chunking. `NoProgress` stands for the case where the source's
   * loop never terminates: words exist, `tmin < tmax`, and the cursor step
   * `window - overlap` is not positive.
   */
  datatype ChunkResult = Done(chunks: seq<Chunk>) | NoProgress

  /** The words one segment contributes: its word list, else itself as one word, else nothing. */
  function SegmentWords(seg: Segment): (r: seq<Word>)
    ensures r == [] <==> seg.Unrecognised?
  {
    match seg
    case Transcribed(text, start, end, words) =>
      if words != [] then words else [Word(text, start, end)]
    case Unrecognised => []
  }

  /** All words of `segments`, segment by segment, in order. */
  function Flatten(segments: seq<Segment>): seq<Word>
  {
    if segments == [] then []
    else Flatten(segments[..|segments| - 1]) + SegmentWords(segments[|segments| - 1])
  }

  /** The flattening loop of `chunk_by_time` (the `for seg in segments` part). */
  method FlattenSegments(segments: seq<Segment>) returns (words: seq<Word>)
    ensures words == Flatten(segments)
  {
    words := [];
    for i := 0 to |segments|
      invariant words == Flatten(segments[..i])
    {
      assert segments[..i + 1][..i] == segments[..i];
      match segments[i]
      case Transcribed(text, start, end, segWords) =>
        if segWords != [] {
          words := words + segWords;
        } else {
          words := words + [Word(text, start, end)];
        }
      case Unrecognised =>
    }
    assert segments[..|segments|] == segments;
  }

  /** Flattening distributes over concatenation: each segment contributes its own words, in order. */
  lemma {:induction false} FlattenConcat(a: seq<Segment>, b: seq<Segment>)
    ensures Flatten(a + b) == Flatten(a) + Flatten(b)
    decreases |b|
  {
    if b == [] {
      assert a + b == a;
    } else {
      var b', x := b[..|b| - 1], b[|b| - 1];
      assert (a + b)[..|a + b| - 1] == a + b';
      assert (a + b)[|a + b| - 1] == x;
      FlattenConcat(a, b');
      calc {
        Flatten(a + b);
        Flatten(a + b') + SegmentWords(x);
        (Flatten(a) + Flatten(b')) + SegmentWords(x);
        Flatten(a) + (Flatten(b') + SegmentWords(x));
      }
    }
  }

  lemma FlattenOne(s: Segment)
    ensures Flatten([s]) == SegmentWords(s)
  {
    assert [s][..0] == [];
  }

  /** No word comes out exactly when no segment has a recognised shape. */
  lemma {:induction false} FlattenEmpty(segments: seq<Segment>)
    ensures Flatten(segments) == [] <==> forall i | 0 <= i < |segments| :: segments[i].Unrecognised?
  {
    if segments != [] {
      var init, last := segments[..|segments| - 1], segments[|segments| - 1];
      FlattenEmpty(init);
      var a, b := Flatten(init), SegmentWords(last);
      assert Flatten(segments) == a + b;
      assert |a + b| == |a| + |b|;
      if forall i | 0 <= i < |segments| :: segments[i].Unrecognised? {
        assert forall i | 0 <= i < |init| :: init[i] == segments[i];
      } else {
        var i :| 0 <= i < |segments| && !segments[i].Unrecognised?;
        if i < |init| {
          assert init[i] == segments[i];
        }
      }
    }
  }

  /** The source's overlap test: the word has some temporal intersection with the window. */
  predicate InWindow(w: Word, curStart: real, curEnd: real) {
    w.start < curEnd && w.end > curStart
  }

  /** `[w for w in words if w.start < cur_end and w.end > cur_start]`. */
  function WindowWords(words: seq<Word>, curStart: real, curEnd: real): seq<Word>
  {
    if words == [] then []
    else
      (if InWindow(words[0], curStart, curEnd) then [words[0]] else [])
        + WindowWords(words[1..], curStart, curEnd)
  }

  /** The words' texts, in order. */
  function Texts(ws: seq<Word>): seq<string>
  {
    if ws == [] then [] else [ws[0].text] + Texts(ws[1..])
  }

  lemma {:induction false} TextsIndex(ws: seq<Word>)
    ensures |Texts(ws)| == |ws| && forall i | 0 <= i < |ws| :: Texts(ws)[i] == ws[i].text
  {
    if ws != [] {
      TextsIndex(ws[1..]);
    }
  }

  /** A word is kept by the window filter exactly when it is one of the words and overlaps the window. */
  lemma {:induction false} WindowWordsMembers(words: seq<Word>, curStart: real, curEnd: real)
    ensures forall w :: w in WindowWords(words, curStart, curEnd) <==> w in words && InWindow(w, curStart, curEnd)
  {
    if words != [] {
      WindowWordsMembers(words[1..], curStart, curEnd);
      assert words == [words[0]] + words[1..];
    }
  }

  /** `" ".join(w.word for w in window_words).strip()` */
  function WindowText(words: seq<Word>, curStart: real, curEnd: real): string
  {
    Strip(Join(Texts(WindowWords(words, curStart, curEnd)), " "))
  }

  /** A window's text is empty exactly when every word overlapping the window has blank text. */
  lemma WindowTextEmpty(words: seq<Word>, curStart: real, curEnd: real)
    ensures WindowText(words, curStart, curEnd) == []
        <==> forall w | w in words && InWindow(w, curStart, curEnd) :: Blank(w.text)
  {
    var ws := WindowWords(words, curStart, curEnd);
    var parts := Texts(ws);
    WindowWordsMembers(words, curStart, curEnd);
    TextsIndex(ws);
    BlankJoin(parts, " ");
    StripBlank(Join(parts, " "));
    if forall w | w in words && InWindow(w, curStart, curEnd) :: Blank(w.text) {
      forall i | 0 <= i < |parts| ensures Blank(parts[i]) {
        assert ws[i] in ws;
      }
    } else {
      var w :| w in words && InWindow(w, curStart, curEnd) && !Blank(w.text);
      var k :| 0 <= k < |ws| && ws[k] == w;
      assert !Blank(parts[k]);
    }
  }

  /** How many more times the loop body runs from cursor `cur`: the loop's variant. */
  function Steps(cur: real, tmax: real, step: real): nat
  {
    if step <= 0.0 || tmax <= cur then 0 else ((tmax - cur) / step).Floor + 1
  }

  lemma StepsDecrease(cur: real, tmax: real, step: real)
    requires step > 0.0 && cur < tmax
    ensures Steps(cur + step, tmax, step) < Steps(cur, tmax, step)
  {
    if cur + step < tmax {
      var a := tmax - cur;
      var q := a / step;
      assert q * step == a;
      assert (q - 1.0) * step == tmax - (cur + step);
      DivideBack(tmax - (cur + step), q - 1.0, step);
    }
  }

  lemma DivideBack(x: real, y: real, d: real)
    requires d > 0.0 && x == y * d
    ensures x / d == y
  {
  }

  /**
   * What the loop body appends at cursor `cur`: one chunk holding the text of
   * the window `[cur, cur + window)`, with bounds clamped to `[tmin, tmax]`,
   * if that text is non-empty; nothing otherwise.
   */
  function WindowChunk(words: seq<Word>, tmin: real, tmax: real, window: real, cur: real): seq<Chunk>
  {
    var text := WindowText(words, cur, cur + window);
    if text != [] then [Chunk(text, MaxReal(cur, tmin), MinReal(cur + window, tmax))] else []
  }

  /** The loop body of `chunk_by_time` as a function of the cursor. */
  function WindowRule(words: seq<Word>, tmin: real, tmax: real, window: real): real -> seq<Chunk>
  {
    cur => WindowChunk(words, tmin, tmax, window, cur)
  }

  /**
   * What a loop collects that starts its cursor at `cur`, runs while the
   * cursor is below `tmax`, appends `emit(cursor)` each round and advances
   * the cursor by `step`.
   */
  function Slide(emit: real -> seq<Chunk>, tmax: real, step: real, cur: real): seq<Chunk>
    requires step > 0.0 || tmax <= cur
    decreases Steps(cur, tmax, step)
  {
    if cur < tmax then
      StepsDecrease(cur, tmax, step);
      emit(cur) + Slide(emit, tmax, step, cur + step)
    else []
  }

  /**
   * The cursor values for which that loop body runs, starting at `cur`: an
   * arithmetic progression with difference `step`, all below `tmax`, whose
   * next value would reach `tmax`.
   */
  function Cursors(tmax: real, step: real, cur: real): (r: seq<real>)
    requires step > 0.0 || tmax <= cur
    ensures r == [] <==> tmax <= cur
    ensures r != [] ==> r[0] == cur && tmax <= r[|r| - 1] + step
    ensures forall i | 0 <= i < |r| :: cur <= r[i] < tmax
    ensures forall i | 0 <= i < |r| - 1 :: r[i + 1] == r[i] + step
    ensures forall i, j | 0 <= i < j < |r| :: r[i] < r[j]
    decreases Steps(cur, tmax, step)
  {
    if cur < tmax then
      StepsDecrease(cur, tmax, step);
      [cur] + Cursors(tmax, step, cur + step)
    else []
  }

  /** What `emit` yields at each of the cursors `ks`, in order. */
  function Emitted(emit: real -> seq<Chunk>, ks: seq<real>): seq<Chunk>
  {
    if ks == [] then [] else emit(ks[0]) + Emitted(emit, ks[1..])
  }

  /** The loop's output is what its rule yields at each cursor, in cursor order. */
  lemma {:induction false} SlideCursors(emit: real -> seq<Chunk>, tmax: real, step: real, cur: real)
    requires step > 0.0 || tmax <= cur
    ensures Slide(emit, tmax, step, cur) == Emitted(emit, Cursors(tmax, step, cur))
    decreases Steps(cur, tmax, step)
  {
    if cur < tmax {
      StepsDecrease(cur, tmax, step);
      SlideCursors(emit, tmax, step, cur + step);
      assert Cursors(tmax, step, cur)[1..] == Cursors(tmax, step, cur + step);
    }
  }

  /** A chunk is emitted exactly when the rule yields it at one of the cursors. */
  lemma {:induction false} EmittedMembers(emit: real -> seq<Chunk>, ks: seq<real>)
    ensures forall c :: c in Emitted(emit, ks) <==> exists i | 0 <= i < |ks| :: c in emit(ks[i])
  {
    if ks != [] {
      EmittedMembers(emit, ks[1..]);
      forall c | c in Emitted(emit, ks[1..])
        ensures exists i | 0 <= i < |ks| :: c in emit(ks[i])
      {
        var i :| 0 <= i < |ks[1..]| && c in emit(ks[1..][i]);
        assert ks[i + 1] == ks[1..][i];
      }
      forall c, i | 0 <= i < |ks| && c in emit(ks[i])
        ensures c in Emitted(emit, ks)
      {
        if i > 0 {
          assert ks[1..][i - 1] == ks[i];
        }
      }
    }
  }

  /**
   * When the cursors increase and the rule yields at most one chunk per
   * cursor, starting at that cursor, the chunks' starts strictly increase.
   */
  lemma {:induction false} EmittedIncreasing(emit: real -> seq<Chunk>, ks: seq<real>)
    requires forall i, j | 0 <= i < j < |ks| :: ks[i] < ks[j]
    requires forall i | 0 <= i < |ks| :: |emit(ks[i])| <= 1
    requires forall i, c | 0 <= i < |ks| && c in emit(ks[i]) :: c.start == ks[i]
    ensures forall i, j | 0 <= i < j < |Emitted(emit, ks)| :: Emitted(emit, ks)[i].start < Emitted(emit, ks)[j].start
  {
    if ks != [] {
      var head := emit(ks[0]);
      var rest := Emitted(emit, ks[1..]);
      EmittedIncreasing(emit, ks[1..]);
      EmittedMembers(emit, ks[1..]);
      assert forall c | c in rest :: c.start > ks[0] by {
        forall c | c in rest ensures c.start > ks[0] {
          var i :| 0 <= i < |ks[1..]| && c in emit(ks[1..][i]);
          assert ks[1..][i] == ks[i + 1];
        }
      }
      var r := head + rest;
      forall i, j | 0 <= i < j < |r| ensures r[i].start < r[j].start {
        if i < |head| {
          assert r[i] in head && r[j] == rest[j - |head|];
          assert rest[j - |head|] in rest;
        } else {
          assert r[i] == rest[i - |head|] && r[j] == rest[j - |head|];
        }
      }
    }
  }

  /**
   * When the step does not exceed the window, the windows `[k, k + window)`
   * of the cursors from `cur` cover every instant from `cur` up to `tmax`.
   */
  lemma {:induction false} CursorsCover(tmax: real, window: real, step: real, cur: real, t: real)
    requires 0.0 < step <= window && cur <= t < tmax
    ensures exists i | 0 <= i < |Cursors(tmax, step, cur)| :: Cursors(tmax, step, cur)[i] <= t < Cursors(tmax, step, cur)[i] + window
    decreases Steps(cur, tmax, step)
  {
    var ks := Cursors(tmax, step, cur);
    if t >= cur + step {
      StepsDecrease(cur, tmax, step);
      CursorsCover(tmax, window, step, cur + step, t);
      var ks' := Cursors(tmax, step, cur + step);
      var i :| 0 <= i < |ks'| && ks'[i] <= t < ks'[i] + window;
      assert ks[i + 1] == ks'[i];
    } else {
      assert ks[0] <= t < ks[0] + window;
    }
  }

  /** The specification of `chunk_by_time` (with the non-terminating case made explicit). */
  function Chunked(segments: seq<Segment>, window: real, overlap: real): (r: ChunkResult)
    ensures overlap < window ==> r.Done?
    ensures r.NoProgress? ==> Flatten(segments) != [] && window <= overlap
  {
    var words := Flatten(segments);
    if words == [] then Done([])
    else
      var tmin := words[0].start;
      var tmax := words[|words| - 1].end;
      if tmin < tmax && window - overlap <= 0.0 then NoProgress
      else Done(Slide(WindowRule(words, tmin, tmax, window), tmax, window - overlap, tmin))
  }

  /** `Slide` with an accumulator: the chunks `acc` collected so far, then the rest from `cur`. */
  function SlideFrom(emit: real -> seq<Chunk>, tmax: real, step: real, acc: seq<Chunk>, cur: real): seq<Chunk>
    requires step > 0.0 || tmax <= cur
    decreases Steps(cur, tmax, step)
  {
    if cur < tmax then
      StepsDecrease(cur, tmax, step);
      SlideFrom(emit, tmax, step, acc + emit(cur), cur + step)
    else acc
  }

  lemma {:induction false} SlideFromSlide(emit: real -> seq<Chunk>, tmax: real, step: real, acc: seq<Chunk>, cur: real)
    requires step > 0.0 || tmax <= cur
    ensures SlideFrom(emit, tmax, step, acc, cur) == acc + Slide(emit, tmax, step, cur)
    decreases Steps(cur, tmax, step)
  {
    if cur < tmax {
      StepsDecrease(cur, tmax, step);
      SlideFromSlide(emit, tmax, step, acc + emit(cur), cur + step);
      assert (acc + emit(cur)) + Slide(emit, tmax, step, cur + step) == acc + (emit(cur) + Slide(emit, tmax, step, cur + step));
    } else {
      assert acc + [] == acc;
    }
  }

  /**
   * The body of the sliding-window loop for the window `[cur, cur + window)`:
   * the new chunk, if the window's text is non-empty. `emit` is the rule the
   * loop follows, named so that the loop's proof need not look inside it.
   */
  method WindowStep(words: seq<Word>, tmin: real, tmax: real, window: real, cur: real, curEnd: real,
                    ghost emit: real -> seq<Chunk>)
    returns (piece: seq<Chunk>)
    requires curEnd == cur + window
    requires forall c {:trigger WindowChunk(words, tmin, tmax, window, c)} :: emit(c) == WindowChunk(words, tmin, tmax, window, c)
    ensures piece == emit(cur)
  {
    var windowWords := WindowWords(words, cur, curEnd);
    var text := Strip(Join(Texts(windowWords), " "));
    piece := [];
    if text != [] {
      piece := [Chunk(text, MaxReal(cur, tmin), MinReal(curEnd, tmax))];
    }
    assert piece == WindowChunk(words, tmin, tmax, window, cur);
  }

  /**
   * The sliding-window loop of `chunk_by_time` (the `while cur_start < tmax`
   * part), from `cur_start = tmin`, where `emit` is the loop body's rule.
   */
  method SlideWindow(words: seq<Word>, tmin: real, tmax: real, window: real, overlap: real,
                     ghost emit: real -> seq<Chunk>)
    returns (chunks: seq<Chunk>)
    requires window - overlap > 0.0 || tmax <= tmin
    requires forall c {:trigger WindowChunk(words, tmin, tmax, window, c)} :: emit(c) == WindowChunk(words, tmin, tmax, window, c)
    ensures chunks == Slide(emit, tmax, window - overlap, tmin)
  {
    chunks := [];
    var cur := tmin;
    while cur < tmax
      invariant window - overlap > 0.0 || tmax <= cur
      invariant SlideFrom(emit, tmax, window - overlap, chunks, cur) == SlideFrom(emit, tmax, window - overlap, [], tmin)
      decreases Steps(cur, tmax, window - overlap)
    {
      var curEnd := cur + window;
      var piece := WindowStep(words, tmin, tmax, window, cur, curEnd, emit);
      chunks := chunks + piece;
      StepsDecrease(cur, tmax, window - overlap);
      cur := curEnd - overlap;
    }
    SlideFromSlide(emit, tmax, window - overlap, [], tmin);
    assert [] + Slide(emit, tmax, window - overlap, tmin) == Slide(emit, tmax, window - overlap, tmin);
  }

  /**
   * `chunk_by_time(segments, window_s, overlap_s)`: flatten, then slide the
   * window. Where the source would loop forever this returns `NoProgress`.
   */
  method ChunkByTime(segments: seq<Segment>, window: real, overlap: real) returns (result: ChunkResult)
    ensures result == Chunked(segments, window, overlap)
  {
    var words := FlattenSegments(segments);
    if words == [] {
      return Done([]);
    }
    var tmin := words[0].start;
    var tmax := words[|words| - 1].end;
    if tmin < tmax && window - overlap <= 0.0 {
      return NoProgress;
    }
    var chunks := SlideWindow(words, tmin, tmax, window, overlap, WindowRule(words, tmin, tmax, window));
    return Done(chunks);
  }

  /** A chunk that the window starting at its own start produced, and what that makes it. */
  predicate ChunkOfWindow(words: seq<Word>, window: real, c: Chunk)
    requires words != []
  {
    && words[0].start <= c.start < c.end <= words[|words| - 1].end
    && c.end == MinReal(c.start + window, words[|words| - 1].end)
    && c.text == WindowText(words, c.start, c.start + window)
    && c.text != [] && !IsSpace(c.text[0]) && !IsSpace(c.text[|c.text| - 1])
    && (exists w | w in words && InWindow(w, c.start, c.start + window) :: !Blank(w.text))
  }

  /** `emit` is the loop body's rule for these words and bounds. */
  ghost predicate IsWindowRule(emit: real -> seq<Chunk>, words: seq<Word>, tmin: real, tmax: real, window: real)
  {
    forall c {:trigger WindowChunk(words, tmin, tmax, window, c)} :: emit(c) == WindowChunk(words, tmin, tmax, window, c)
  }

  /** Every chunk the loop emits comes from the window at a cursor in `[tmin, tmax)`. */
  lemma ChunkOrigin(emit: real -> seq<Chunk>, tmax: real, step: real, tmin: real, c: Chunk) returns (k: real)
    requires step > 0.0 || tmax <= tmin
    requires c in Slide(emit, tmax, step, tmin)
    ensures tmin <= k < tmax && c in emit(k)
  {
    var ks := Cursors(tmax, step, tmin);
    SlideCursors(emit, tmax, step, tmin);
    EmittedMembers(emit, ks);
    var i :| 0 <= i < |ks| && c in emit(ks[i]);
    k := ks[i];
  }

  /** With no recognised segment there is no word, and so no chunk. */
  lemma ChunkedEmpty(segments: seq<Segment>, window: real, overlap: real)
    requires forall i | 0 <= i < |segments| :: segments[i].Unrecognised?
    ensures Chunked(segments, window, overlap) == Done([])
  {
    FlattenEmpty(segments);
  }

  lemma SlideWellFormed(words: seq<Word>, window: real, overlap: real, emit: real -> seq<Chunk>)
    requires words != [] && window > 0.0
    requires window - overlap > 0.0 || words[|words| - 1].end <= words[0].start
    requires IsWindowRule(emit, words, words[0].start, words[|words| - 1].end, window)
    ensures forall c | c in Slide(emit, words[|words| - 1].end, window - overlap, words[0].start) :: ChunkOfWindow(words, window, c)
  {
    var tmin, tmax := words[0].start, words[|words| - 1].end;
    forall c | c in Slide(emit, tmax, window - overlap, tmin)
      ensures ChunkOfWindow(words, window, c)
    {
      var k := ChunkOrigin(emit, tmax, window - overlap, tmin, c);
      assert c in WindowChunk(words, tmin, tmax, window, k);
      WindowChunkWellFormed(words, window, k, c);
    }
  }

  /** The chunk of the window at a cursor in `[tmin, tmax)` is well formed. */
  lemma WindowChunkWellFormed(words: seq<Word>, window: real, k: real, c: Chunk)
    requires words != [] && window > 0.0
    requires words[0].start <= k < words[|words| - 1].end
    requires c in WindowChunk(words, words[0].start, words[|words| - 1].end, window, k)
    ensures ChunkOfWindow(words, window, c)
  {
    WindowChunkBounds(words, window, k, c);
    WindowChunkText(words, window, k, c);
    WindowChunkStripped(words, window, k, c);
    WindowChunkWord(words, window, k, c);
  }

  lemma WindowChunkBounds(words: seq<Word>, window: real, k: real, c: Chunk)
    requires words != [] && window > 0.0
    requires words[0].start <= k < words[|words| - 1].end
    requires c in WindowChunk(words, words[0].start, words[|words| - 1].end, window, k)
    ensures c.start == k && words[0].start <= c.start < c.end <= words[|words| - 1].end
    ensures c.end == MinReal(c.start + window, words[|words| - 1].end)
  {
  }

  lemma WindowChunkText(words: seq<Word>, window: real, k: real, c: Chunk)
    requires words != [] && window > 0.0
    requires words[0].start <= k < words[|words| - 1].end
    requires c in WindowChunk(words, words[0].start, words[|words| - 1].end, window, k)
    ensures c.text == WindowText(words, c.start, c.start + window)
  {
  }

  lemma WindowChunkStripped(words: seq<Word>, window: real, k: real, c: Chunk)
    requires words != [] && window > 0.0
    requires words[0].start <= k < words[|words| - 1].end
    requires c in WindowChunk(words, words[0].start, words[|words| - 1].end, window, k)
    ensures c.text != [] && !IsSpace(c.text[0]) && !IsSpace(c.text[|c.text| - 1])
  {
    StripEnds(Join(Texts(WindowWords(words, k, k + window)), " "));
  }

  lemma WindowChunkWord(words: seq<Word>, window: real, k: real, c: Chunk)
    requires words != [] && window > 0.0
    requires words[0].start <= k < words[|words| - 1].end
    requires c in WindowChunk(words, words[0].start, words[|words| - 1].end, window, k)
    ensures exists w | w in words && InWindow(w, c.start, c.start + window) :: !Blank(w.text)
  {
    WindowTextEmpty(words, k, k + window);
  }

  /**
   * With a positive window, every chunk starts at a cursor in `[tmin, tmax)`,
   * ends at `min(start + window, tmax)` after it starts, and holds the
   * stripped, non-empty text of the words overlapping its window, at least
   * one of which has non-blank text.
   */
  lemma ChunksWellFormed(segments: seq<Segment>, window: real, overlap: real)
    requires window > 0.0
    requires Chunked(segments, window, overlap).Done?
    ensures forall c | c in Chunked(segments, window, overlap).chunks ::
      Flatten(segments) != [] && ChunkOfWindow(Flatten(segments), window, c)
  {
    var words := Flatten(segments);
    if words != [] {
      var tmin, tmax := words[0].start, words[|words| - 1].end;
      SlideWellFormed(words, window, overlap, WindowRule(words, tmin, tmax, window));
    }
  }

  /** A window at a cursor from `tmin` on yields at most one chunk, which starts at the cursor. */
  lemma WindowChunkStart(words: seq<Word>, tmin: real, tmax: real, window: real, k: real)
    requires tmin <= k
    ensures |WindowChunk(words, tmin, tmax, window, k)| <= 1
    ensures forall c | c in WindowChunk(words, tmin, tmax, window, k) :: c.start == k
  {
  }

  /** A window over a word with non-blank text yields a chunk starting at its cursor. */
  lemma WindowChunkFromWord(words: seq<Word>, window: real, k: real, w: Word)
    requires words != [] && words[0].start <= k
    requires w in words && InWindow(w, k, k + window) && !Blank(w.text)
    ensures var tmax := words[|words| - 1].end;
      Chunk(WindowText(words, k, k + window), k, MinReal(k + window, tmax))
        in WindowChunk(words, words[0].start, tmax, window, k)
  {
    WindowTextEmpty(words, k, k + window);
  }

  lemma SlideIncreasing(words: seq<Word>, tmin: real, tmax: real, window: real, step: real, emit: real -> seq<Chunk>)
    requires step > 0.0 || tmax <= tmin
    requires IsWindowRule(emit, words, tmin, tmax, window)
    ensures forall i, j | 0 <= i < j < |Slide(emit, tmax, step, tmin)| :: Slide(emit, tmax, step, tmin)[i].start < Slide(emit, tmax, step, tmin)[j].start
  {
    var ks := Cursors(tmax, step, tmin);
    SlideCursors(emit, tmax, step, tmin);
    WindowRuleStarts(emit, words, tmin, tmax, window, ks);
    EmittedIncreasing(emit, ks);
  }

  /** At cursors from `tmin` on, the loop body's rule yields at most one chunk, starting at the cursor. */
  lemma WindowRuleStarts(emit: real -> seq<Chunk>, words: seq<Word>, tmin: real, tmax: real, window: real, ks: seq<real>)
    requires IsWindowRule(emit, words, tmin, tmax, window)
    requires forall i | 0 <= i < |ks| :: tmin <= ks[i]
    ensures forall i | 0 <= i < |ks| :: |emit(ks[i])| <= 1
    ensures forall i, c | 0 <= i < |ks| && c in emit(ks[i]) :: c.start == ks[i]
  {
    forall i | 0 <= i < |ks|
      ensures |emit(ks[i])| <= 1
      ensures forall c | c in emit(ks[i]) :: c.start == ks[i]
    {
      assert emit(ks[i]) == WindowChunk(words, tmin, tmax, window, ks[i]);
      WindowChunkStart(words, tmin, tmax, window, ks[i]);
    }
  }

  /** Chunk starts strictly increase along the output. */
  lemma ChunksIncreasing(segments: seq<Segment>, window: real, overlap: real)
    requires Chunked(segments, window, overlap).Done?
    ensures var cs := Chunked(segments, window, overlap).chunks;
      forall i, j | 0 <= i < j < |cs| :: cs[i].start < cs[j].start
  {
    var words := Flatten(segments);
    if words != [] {
      var tmin, tmax := words[0].start, words[|words| - 1].end;
      SlideIncreasing(words, tmin, tmax, window, window - overlap, WindowRule(words, tmin, tmax, window));
    }
  }

  lemma SlideCovers(words: seq<Word>, window: real, overlap: real, emit: real -> seq<Chunk>, w: Word)
    requires words != [] && 0.0 <= overlap < window
    requires IsWindowRule(emit, words, words[0].start, words[|words| - 1].end, window)
    requires w in words && !Blank(w.text) && w.start < w.end
    requires words[0].start <= w.start < words[|words| - 1].end
    ensures exists c | c in Slide(emit, words[|words| - 1].end, window - overlap, words[0].start) ::
      InWindow(w, c.start, c.start + window)
  {
    var tmin, tmax, step := words[0].start, words[|words| - 1].end, window - overlap;
    var ks := Cursors(tmax, step, tmin);
    CursorsCover(tmax, window, step, tmin, w.start);
    var i :| 0 <= i < |ks| && ks[i] <= w.start < ks[i] + window;
    var k := ks[i];
    var c := Chunk(WindowText(words, k, k + window), k, MinReal(k + window, tmax));
    WindowChunkFromWord(words, window, k, w);
    assert c in emit(ks[i]);
    SlideCursors(emit, tmax, step, tmin);
    EmittedMembers(emit, ks);
    assert c in Slide(emit, tmax, step, tmin) && InWindow(w, c.start, c.start + window);
  }

  /**
   * With `0 <= overlap < window`, a word with non-blank text that starts in
   * `[tmin, tmax)` and has positive duration lies in the window of some chunk.
   */
  lemma WordCovered(segments: seq<Segment>, window: real, overlap: real, w: Word)
    requires 0.0 <= overlap < window
    requires w in Flatten(segments) && !Blank(w.text) && w.start < w.end
    requires Flatten(segments)[0].start <= w.start < Flatten(segments)[|Flatten(segments)| - 1].end
    ensures Chunked(segments, window, overlap).Done?
    ensures exists c | c in Chunked(segments, window, overlap).chunks :: InWindow(w, c.start, c.start + window)
  {
    var words := Flatten(segments);
    var tmin, tmax := words[0].start, words[|words| - 1].end;
    SlideCovers(words, window, overlap, WindowRule(words, tmin, tmax, window), w);
  }

  /**
   * The source's cursor after `n` rounds of its loop, by the loop's own
   * update: `cur_end = cur_start + window`, then `cur_start = cur_end - overlap`.
   */
  function CursorAfter(tmin: real, window: real, overlap: real, n: nat): real
  {
    if n == 0 then tmin else (CursorAfter(tmin, window, overlap, n - 1) + window) - overlap
  }

  /**
   * With a positive step, the cursors the loop visits are its cursor after
   * 0, 1, 2, ... rounds, stopping at the first round that reaches `tmax`.
   */
  lemma LoopCursors(tmin: real, tmax: real, window: real, overlap: real)
    requires window - overlap > 0.0
    ensures var ks := Cursors(tmax, window - overlap, tmin);
      && (forall i | 0 <= i < |ks| :: ks[i] == CursorAfter(tmin, window, overlap, i))
      && tmax <= CursorAfter(tmin, window, overlap, |ks|)
  {
    var ks := Cursors(tmax, window - overlap, tmin);
    if ks != [] {
      forall i | 0 <= i < |ks| ensures ks[i] == CursorAfter(tmin, window, overlap, i) {
        RoundsOf(tmin, window, overlap, ks, i);
      }
      assert ks[|ks| - 1] == CursorAfter(tmin, window, overlap, |ks| - 1);
    }
  }

  /** A sequence starting at `tmin` and growing by `window - overlap` lists the cursor round by round. */
  lemma {:induction false} RoundsOf(tmin: real, window: real, overlap: real, ks: seq<real>, i: nat)
    requires i < |ks| && ks[0] == tmin
    requires forall j | 0 <= j < |ks| - 1 :: ks[j + 1] == ks[j] + (window - overlap)
    ensures ks[i] == CursorAfter(tmin, window, overlap, i)
  {
    if i > 0 {
      RoundsOf(tmin, window, overlap, ks, i - 1);
      assert ks[i] == ks[i - 1] + (window - overlap);
    }
  }

  lemma {:induction false} CursorAfterLinear(tmin: real, window: real, overlap: real, n: nat)
    ensures CursorAfter(tmin, window, overlap, n) == tmin + (n as real) * (window - overlap)
  {
    if n > 0 {
      CursorAfterLinear(tmin, window, overlap, n - 1);
      var d := window - overlap;
      assert ((n - 1) as real) * d + d == (n as real) * d;
    }
  }

  /**
   * As written, the loop never ends when `window == overlap` and there is
   * time to cover: after any number of rounds the cursor is still `tmin`,
   * so `cur_start < tmax` still holds.
   */
  lemma EqualOverlapNeverEnds(tmin: real, tmax: real, window: real, n: nat)
    requires tmin < tmax
    ensures CursorAfter(tmin, window, window, n) == tmin < tmax
  {
    CursorAfterLinear(tmin, window, window, n);
  }

  /** The chunk-size choices of the sidebar sliders: window 20 to 120 s in steps of 5, overlap 0 to 20 s. */
  predicate SliderSettings(window: int, overlap: int) {
    20 <= window <= 120 && window % 5 == 0 && 0 <= overlap <= 20
  }

  /** As written, the sliders offer a 20 s window with a 20 s overlap, and chunking a one-word transcript then never ends. */
  lemma SlidersAdmitNoProgress()
    ensures SliderSettings(20, 20)
    ensures Chunked([Transcribed("hello", 0.0, 1.0, [])], 20.0, 20.0) == NoProgress
  {
    FlattenOne(Transcribed("hello", 0.0, 1.0, []));
  }

  /** The slider choices with the overlap kept below the window, so that the cursor advances. */
  predicate GuardedSettings(window: int, overlap: int) {
    SliderSettings(window, overlap) && overlap < window
  }

  /** Under the guarded settings chunking always finishes, and every chunk it yields is well formed. */
  lemma GuardedSettingsFinish(segments: seq<Segment>, window: int, overlap: int)
    requires GuardedSettings(window, overlap)
    ensures var w, o := window as real, overlap as real;
      Chunked(segments, w, o).Done? &&
      forall c | c in Chunked(segments, w, o).chunks :: Flatten(segments) != [] && ChunkOfWindow(Flatten(segments), w, c)
  {
    ChunksWellFormed(segments, window as real, overlap as real);
  }

  /** The transcript of four words over nine seconds, with a pause before the last word. */
  function PausedWords(): seq<Word> {
    [Word("the", 0.0, 1.0), Word("cat", 1.0, 2.0), Word("sat", 2.0, 3.0), Word("down", 8.0, 9.0)]
  }

  /** Chunked with a 5 s window and a 1 s overlap, they give three chunks: the windows start at 0, 4 and 8 s. */
  lemma ThreeWindows()
    ensures Chunked([Transcribed("", 0.0, 9.0, PausedWords())], 5.0, 1.0)
      == Done([Chunk("the cat sat", 0.0, 5.0), Chunk("down", 4.0, 9.0), Chunk("down", 8.0, 9.0)])
  {
    var ws := PausedWords();
    FlattenOne(Transcribed("", 0.0, 9.0, ws));
    var emit := WindowRule(ws, 0.0, 9.0, 5.0);
    PausedTexts();
    assert emit(0.0) == WindowChunk(ws, 0.0, 9.0, 5.0, 0.0);
    assert emit(4.0) == WindowChunk(ws, 0.0, 9.0, 5.0, 4.0);
    assert emit(8.0) == WindowChunk(ws, 0.0, 9.0, 5.0, 8.0);
    SlideThree(emit, Chunk("the cat sat", 0.0, 5.0), Chunk("down", 4.0, 9.0), Chunk("down", 8.0, 9.0));
  }

  /** From cursor 0 with step 4, a loop that runs while the cursor is below 9 runs at cursors 0, 4 and 8. */
  lemma SlideThree(emit: real -> seq<Chunk>, c0: Chunk, c4: Chunk, c8: Chunk)
    requires emit(0.0) == [c0] && emit(4.0) == [c4] && emit(8.0) == [c8]
    ensures Slide(emit, 9.0, 4.0, 0.0) == [c0, c4, c8]
  {
    assert Slide(emit, 9.0, 4.0, 12.0) == [];
    assert Slide(emit, 9.0, 4.0, 8.0) == [c8];
    assert Slide(emit, 9.0, 4.0, 4.0) == [c4, c8];
  }

  lemma PausedTexts()
    ensures WindowText(PausedWords(), 0.0, 5.0) == "the cat sat"
    ensures WindowText(PausedWords(), 4.0, 9.0) == "down"
    ensures WindowText(PausedWords(), 8.0, 13.0) == "down"
  {
    PausedFirst();
    PausedLast(4.0, 9.0);
    PausedLast(8.0, 13.0);
    StripUnpadded("the cat sat");
    StripUnpadded("down");
  }

  /** The first window holds the first three words. */
  lemma PausedFirst()
    ensures Join(Texts(WindowWords(PausedWords(), 0.0, 5.0)), " ") == "the cat sat"
  {
    var ws := PausedWords();
    assert WindowWords(ws[3..], 0.0, 5.0) == [];
    assert WindowWords(ws[2..], 0.0, 5.0) == [ws[2]];
    assert WindowWords(ws[1..], 0.0, 5.0) == [ws[1], ws[2]];
    var first := WindowWords(ws, 0.0, 5.0);
    assert first == ws[..3];
    TextsIndex(first);
    assert Texts(first) == ["the", "cat", "sat"];
  }

  /** A window from after 3 s up to 9 s or beyond holds the last word only. */
  lemma PausedLast(lo: real, hi: real)
    requires 3.0 <= lo < 9.0 && 8.0 < hi
    ensures Join(Texts(WindowWords(PausedWords(), lo, hi)), " ") == "down"
  {
    var ws := PausedWords();
    var down := ws[3..];
    assert down[1..] == [];
    assert WindowWords(down, lo, hi) == down;
    assert ws[2..][1..] == down && ws[1..][1..] == ws[2..];
    assert WindowWords(ws[2..], lo, hi) == down;
    assert WindowWords(ws[1..], lo, hi) == down;
    var last := WindowWords(ws, lo, hi);
    assert last == down;
    TextsIndex(last);
    assert Texts(last) == ["down"];
  }

  /** Text without whitespace at either end is left as it is by stripping. */
  lemma StripUnpadded(s: string)
    requires s != [] && !IsSpace(s[0]) && !IsSpace(s[|s| - 1])
    ensures Strip(s) == s
  {
  }
}
