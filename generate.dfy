/**
 * Turning hits into text without a language model: the context block a
 * prompt would carry, and the summary answer given when no model is
 * configured or every model call failed. Float rendering with `:.1f` is
 * the parameter `fmt`.
 */
module Generate {
  import opened Prelude
  import opened Strings
  import opened Retrieval

  /** The episode id a hit shows: its metadata's, or `"episode"`. */
  function EpisodeOf(h: Hit): string {
    h.metadata.episodeId.GetOr("episode")
  }

  /** The start a hit shows, rendered: its metadata's, or 0.0. */
  function StartText(h: Hit, fmt: real -> string): string {
    fmt(h.metadata.start.GetOr(0.0))
  }

  /** The end a hit shows, rendered: its metadata's, or 0.0. */
  function EndText(h: Hit, fmt: real -> string): string {
    fmt(h.metadata.end.GetOr(0.0))
  }

  /**
   * `f"[{ep} {st:.1f}-{en:.1f}] {h['document']}"`: each field at its place,
   * from the opening bracket to the document at the end.
   */
  function ContextLine(h: Hit, fmt: real -> string): (line: string)
    ensures var e, st, en := |EpisodeOf(h)|, StartText(h, fmt), EndText(h, fmt);
      |line| == e + |st| + |en| + |h.document| + 5
    ensures var e, st, en := |EpisodeOf(h)|, StartText(h, fmt), EndText(h, fmt);
      && line[..e + 2] == "[" + EpisodeOf(h) + " "
      && line[e + 2..e + 2 + |st|] == st
      && line[e + 2 + |st|] == '-'
      && line[e + 3 + |st|..e + 3 + |st| + |en|] == en
      && line[e + 3 + |st| + |en|..e + 5 + |st| + |en|] == "] "
      && line[e + 5 + |st| + |en|..] == h.document
  {
    var st := StartText(h, fmt);
    var en := EndText(h, fmt);
    var e := |EpisodeOf(h)|;
    var open := "[" + EpisodeOf(h) + " ";
    var head := open + st + "-" + en + "] ";
    var line := head + h.document;
    assert line[..e + 2] == open;
    assert line[e + 2..e + 2 + |st|] == st;
    assert line[e + 3 + |st|..e + 3 + |st| + |en|] == en;
    assert line[e + 3 + |st| + |en|..e + 5 + |st| + |en|] == "] ";
    line
  }

  /** One context line per hit, in hit order. */
  function ContextLines(hits: seq<Hit>, fmt: real -> string): (lines: seq<string>)
    ensures |lines| == |hits|
  {
    seq(|hits|, i requires 0 <= i < |hits| => ContextLine(hits[i], fmt))
  }

  /** `format_context(hits)`: the loop builds one line per hit; the first ten are joined by newlines. */
  method FormatContext(hits: seq<Hit>, fmt: real -> string) returns (context: string)
    ensures context == Join(Take(ContextLines(hits, fmt), 10), "\n")
  {
    var lines: seq<string> := [];
    for i := 0 to |hits|
      invariant lines == ContextLines(hits[..i], fmt)
    {
      var h := hits[i];
      var ep := EpisodeOf(h);
      var st := StartText(h, fmt);
      var en := EndText(h, fmt);
      lines := lines + ["[" + ep + " " + st + "-" + en + "] " + h.document];
      assert hits[..i + 1][..i] == hits[..i];
    }
    assert hits[..|hits|] == hits;
    context := Join(Take(lines, 10), "\n");
  }

  /** The text a hit contributes holds no line break. */
  predicate SingleLine(h: Hit, fmt: real -> string) {
    && '\n' !in EpisodeOf(h)
    && '\n' !in h.document
    && '\n' !in StartText(h, fmt)
    && '\n' !in EndText(h, fmt)
  }

  /**
   * With at least one hit, and when no hit's text holds a line break, the
   * context reads back as exactly one line per hit, for the first ten hits,
   * in hit order. (With no hits the context is `""`, which splits into one
   * empty line.)
   */
  lemma ContextLinesBack(hits: seq<Hit>, fmt: real -> string)
    requires hits != []
    requires forall i | 0 <= i < |hits| :: SingleLine(hits[i], fmt)
    ensures Split(Join(Take(ContextLines(hits, fmt), 10), "\n"), '\n') == Take(ContextLines(hits, fmt), 10)
    ensures |Take(ContextLines(hits, fmt), 10)| == MinNat(|hits|, 10)
  {
    var lines := Take(ContextLines(hits, fmt), 10);
    forall i | 0 <= i < |lines| ensures '\n' !in lines[i] {
      assert lines[i] == ContextLine(hits[i], fmt);
    }
    SplitJoin(lines, '\n');
  }

  /**
   * Each missing metadata key falls back on its own default, whatever the
   * other keys hold: `episode` for the episode, 0.0 for start and for end.
   */
  lemma ContextLineDefaults(h: Hit, fmt: real -> string)
    ensures h.metadata.episodeId.None? ==> ContextLine(h, fmt)[..9] == "[episode "
    ensures h.metadata.start.None? ==>
      ContextLine(h, fmt)[|EpisodeOf(h)| + 2..|EpisodeOf(h)| + 2 + |fmt(0.0)|] == fmt(0.0)
    ensures h.metadata.end.None? ==>
      var from := |EpisodeOf(h)| + 3 + |StartText(h, fmt)|;
      ContextLine(h, fmt)[from..from + |fmt(0.0)|] == fmt(0.0)
  {
    var line := ContextLine(h, fmt);
    if h.metadata.episodeId.None? {
      assert line[..9] == line[..|EpisodeOf(h)| + 2];
    }
  }

  /**
   * The answer when there is nothing to summarise. The literal is written in
   * two pieces so that the verifier can index its characters.
   */
  const NoContext: string := "I couldn't find relevant context" + " in the indexed episodes."

  /** The first line of a summary. */
  const Preamble: string := "Based on the most relevant segments:"

  /**
   * `f"- {ep} @ {st:.1f}s: {h['document'][:200]}..."`: each field at its
   * place, from the dash to the closing dots.
   */
  function Bullet(h: Hit, fmt: real -> string): (b: string)
    ensures var e, st, x := |EpisodeOf(h)|, StartText(h, fmt), Take(h.document, 200);
      |b| == e + |st| + |x| + 11
    ensures var e, st, x := |EpisodeOf(h)|, StartText(h, fmt), Take(h.document, 200);
      && b[..2] == "- "
      && b[2..e + 2] == EpisodeOf(h)
      && b[e + 2..e + 5] == " @ "
      && b[e + 5..e + 5 + |st|] == st
      && b[e + 5 + |st|..e + 8 + |st|] == "s: "
      && b[e + 8 + |st|..e + 8 + |st| + |x|] == x
      && b[e + 8 + |st| + |x|..] == "..."
  {
    var st := StartText(h, fmt);
    var x := Take(h.document, 200);
    var e := |EpisodeOf(h)|;
    var b := "- " + EpisodeOf(h) + " @ " + st + "s: " + x + "...";
    assert b[..2] == "- ";
    assert b[2..e + 2] == EpisodeOf(h);
    assert b[e + 2..e + 5] == " @ ";
    assert b[e + 5..e + 5 + |st|] == st;
    assert b[e + 5 + |st|..e + 8 + |st|] == "s: ";
    assert b[e + 8 + |st|..e + 8 + |st| + |x|] == x;
    b
  }

  /** A missing episode id or start falls back on `episode` or 0.0, whatever the other keys hold. */
  lemma BulletDefaults(h: Hit, fmt: real -> string)
    ensures h.metadata.episodeId.None? ==> Bullet(h, fmt)[..11] == "- episode @"
    ensures h.metadata.start.None? ==>
      Bullet(h, fmt)[|EpisodeOf(h)| + 5..|EpisodeOf(h)| + 5 + |fmt(0.0)|] == fmt(0.0)
  {
    var b := Bullet(h, fmt);
    if h.metadata.episodeId.None? {
      assert b[..11] == b[..2] + b[2..9] + b[9..11];
    }
  }

  function Bullets(hits: seq<Hit>, fmt: real -> string): (bullets: seq<string>)
    ensures |bullets| == |hits|
  {
    seq(|hits|, i requires 0 <= i < |hits| => Bullet(hits[i], fmt))
  }

  /** What the summary loop yields for the bullets it collected. */
  function SummaryOf(bullets: seq<string>): string {
    if bullets == [] then NoContext else Preamble + "\n" + Join(bullets, "\n")
  }

  /** The summary fallback of `generate_answer`: one bullet for each of the first five hits. */
  method FallbackSummary(hits: seq<Hit>, fmt: real -> string) returns (answer: string)
    ensures answer == SummaryOf(Bullets(Take(hits, 5), fmt))
  {
    var top := Take(hits, 5);
    var bullets: seq<string> := [];
    for i := 0 to |top|
      invariant bullets == Bullets(top[..i], fmt)
    {
      var h := top[i];
      var ep := EpisodeOf(h);
      var st := StartText(h, fmt);
      bullets := bullets + ["- " + ep + " @ " + st + "s: " + Take(h.document, 200) + "..."];
      assert top[..i + 1][..i] == top[..i];
    }
    assert top[..|top|] == top;
    if bullets == [] {
      return NoContext;
    }
    answer := Preamble + "\n" + Join(bullets, "\n");
  }

  /** The apology is given exactly when there are no hits. */
  lemma SummaryEmpty(hits: seq<Hit>, fmt: real -> string)
    ensures SummaryOf(Bullets(Take(hits, 5), fmt)) == NoContext <==> hits == []
  {
    var s := SummaryOf(Bullets(Take(hits, 5), fmt));
    if hits != [] {
      assert s == Preamble + "\n" + Join(Bullets(Take(hits, 5), fmt), "\n");
      assert s[0] == Preamble[0] == 'B';
      assert NoContext[0] == 'I';
    }
  }

  /**
   * With at least one hit whose text holds no line break, the summary
   * reads back as the preamble line followed by one bullet for each of the
   * first five hits, in hit order.
   */
  lemma SummaryLines(hits: seq<Hit>, fmt: real -> string)
    requires hits != []
    requires forall i | 0 <= i < |hits| :: SingleLine(hits[i], fmt)
    ensures Split(SummaryOf(Bullets(Take(hits, 5), fmt)), '\n') == [Preamble] + Bullets(Take(hits, 5), fmt)
    ensures |Bullets(Take(hits, 5), fmt)| == MinNat(|hits|, 5)
  {
    var top := Take(hits, 5);
    var bullets := Bullets(top, fmt);
    forall i | 0 <= i < |bullets| ensures '\n' !in bullets[i] {
      BulletSingleLine(top[i], fmt);
    }
    PreambleLines(bullets);
  }

  /** A bullet holds no line break when its hit's text holds none. */
  lemma BulletSingleLine(h: Hit, fmt: real -> string)
    requires SingleLine(h, fmt)
    ensures '\n' !in Bullet(h, fmt)
  {
    assert '\n' !in Take(h.document, 200);
  }

  /** The preamble line followed by single-line bullets splits back into those lines. */
  lemma PreambleLines(bullets: seq<string>)
    requires bullets != []
    requires forall i | 0 <= i < |bullets| :: '\n' !in bullets[i]
    ensures Split(SummaryOf(bullets), '\n') == [Preamble] + bullets
  {
    var parts := [Preamble] + bullets;
    assert parts[1..] == bullets;
    JoinCons(Preamble, bullets, "\n");
    SplitJoin(parts, '\n');
  }
}
