/** Speaker attribution of a transcript: each transcribed segment gets the
    speaker of a diarization span, consecutive segments of one speaker are
    grouped into a `"<speaker>: text text"` line, and anything short of two
    speakers falls back to the plain transcript. */
module Diarizer {
  import opened Wrappers
  import opened Text

  /** A transcribed segment: start and end in seconds, and its text. */
  datatype Segment = Segment(start: real, end: real, text: string)

  /** A speaker turn reported by the diarization pipeline. */
  datatype Span = Span(speaker: string, start: real, end: real)

  /** The label given when there is no span at all. */
  const DefaultSpeaker := "Speaker_00"

  function Abs(x: real): real {
    if x < 0.0 then -x else x
  }

  function Midpoint(start: real, end: real): real {
    (start + end) / 2.0
  }

  /** The span's closed interval holds `m`. */
  predicate Covers(s: Span, m: real) {
    s.start <= m <= s.end
  }

  /** How far the span's own midpoint lies from `m`. */
  function Distance(s: Span, m: real): real {
    Abs(Midpoint(s.start, s.end) - m)
  }

  /** Span `i` covers `m` and no earlier span does. */
  predicate IsFirstCovering(spans: seq<Span>, m: real, i: int) {
    && 0 <= i < |spans|
    && Covers(spans[i], m)
    && forall j :: 0 <= j < i ==> !Covers(spans[j], m)
  }

  predicate NoneCovers(spans: seq<Span>, m: real) {
    forall j :: 0 <= j < |spans| ==> !Covers(spans[j], m)
  }

  /** Span `k` is at the least distance from `m`, and every earlier span is
      strictly farther. */
  predicate IsFirstNearest(spans: seq<Span>, m: real, k: int) {
    && 0 <= k < |spans|
    && (forall j :: 0 <= j < |spans| ==> Distance(spans[k], m) <= Distance(spans[j], m))
    && (forall j :: 0 <= j < k ==> Distance(spans[j], m) > Distance(spans[k], m))
  }

  /** The first span at or after `from` that covers `m`. */
  function FirstCovering(spans: seq<Span>, m: real, from: nat): (r: Option<nat>)
    requires from <= |spans|
    ensures r.Some? ==> from <= r.value < |spans| && Covers(spans[r.value], m)
    ensures r.Some? ==> forall j :: from <= j < r.value ==> !Covers(spans[j], m)
    ensures r.None? ==> forall j :: from <= j < |spans| ==> !Covers(spans[j], m)
    decreases |spans| - from
  {
    if from == |spans| then None
    else if Covers(spans[from], m) then Some(from)
    else FirstCovering(spans, m, from + 1)
  }

  /** Python's `min` by distance over the first `n` spans: a later span
      replaces the best so far only when it is strictly nearer. */
  function NearestAmong(spans: seq<Span>, m: real, n: nat): (k: nat)
    requires 0 < n <= |spans|
    ensures k < n
    ensures forall j :: 0 <= j < n ==> Distance(spans[k], m) <= Distance(spans[j], m)
    ensures forall j :: 0 <= j < k ==> Distance(spans[j], m) > Distance(spans[k], m)
  {
    if n == 1 then 0
    else
      var k := NearestAmong(spans, m, n - 1);
      if Distance(spans[n - 1], m) < Distance(spans[k], m) then n - 1 else k
  }

  /** The span `_find_speaker` takes its label from: the first covering the
      midpoint, or failing that the first nearest by midpoint distance. */
  function SpeakerIndex(m: real, spans: seq<Span>): (i: nat)
    requires spans != []
    ensures IsFirstCovering(spans, m, i) || (NoneCovers(spans, m) && IsFirstNearest(spans, m, i))
  {
    match FirstCovering(spans, m, 0)
    case Some(i) => i
    case None => NearestAmong(spans, m, |spans|)
  }

  function FindSpeaker(m: real, spans: seq<Span>): string {
    if spans == [] then DefaultSpeaker else spans[SpeakerIndex(m, spans)].speaker
  }

  /** A span covering the midpoint wins, and among several the first does. */
  lemma FindSpeakerCovering(m: real, spans: seq<Span>, i: int)
    requires IsFirstCovering(spans, m, i)
    ensures FindSpeaker(m, spans) == spans[i].speaker
  {
    var k := SpeakerIndex(m, spans);
    assert !(k < i) && !(i < k) by {
      assert Covers(spans[k], m);
    }
  }

  /** With no covering span, the nearest wins, and among ties the first does. */
  lemma FindSpeakerNearest(m: real, spans: seq<Span>, k: int)
    requires NoneCovers(spans, m) && IsFirstNearest(spans, m, k)
    ensures FindSpeaker(m, spans) == spans[k].speaker
  {
    var i := SpeakerIndex(m, spans);
    assert !(i < k) && !(k < i);
  }

  /** The label always comes from a span when there are spans. */
  lemma FindSpeakerFromSpans(m: real, spans: seq<Span>)
    ensures spans == [] ==> FindSpeaker(m, spans) == DefaultSpeaker
    ensures spans != [] ==> exists i :: 0 <= i < |spans| && FindSpeaker(m, spans) == spans[i].speaker
  {
    if spans != [] {
      var i := SpeakerIndex(m, spans);
      assert FindSpeaker(m, spans) == spans[i].speaker;
    }
  }

  // ---------------------------------------------------------------------
  // Grouping into turns

  /** A segment's stripped text with the speaker attributed to it. */
  datatype Utterance = Utterance(speaker: string, text: string)

  /** One output line before rendering: a speaker and the texts of a run. */
  datatype Turn = Turn(speaker: string, texts: seq<string>)

  /** Each segment with the speaker found for its midpoint. */
  function Attribute(segments: seq<Segment>, spans: seq<Span>): seq<Utterance> {
    seq(|segments|, i requires 0 <= i < |segments| =>
      Utterance(FindSpeaker(Midpoint(segments[i].start, segments[i].end), spans), Strip(segments[i].text)))
  }

  /** Turns as `diarize` builds them: none empty, and no two neighbours with
      the same speaker. */
  ghost predicate Maximal(ts: seq<Turn>) {
    && (forall i :: 0 <= i < |ts| ==> ts[i].texts != [])
    && (forall i, j :: 0 <= i && j == i + 1 && j < |ts| ==> ts[i].speaker != ts[j].speaker)
  }

  /** One more utterance: it joins the last turn when the speaker is the same,
      else it opens a new turn. */
  function Extend(ts: seq<Turn>, u: Utterance): (r: seq<Turn>)
    requires Maximal(ts)
    ensures Maximal(r)
    ensures r != [] && r[|r| - 1].speaker == u.speaker
  {
    if ts != [] && ts[|ts| - 1].speaker == u.speaker
    then ts[..|ts| - 1] + [Turn(u.speaker, ts[|ts| - 1].texts + [u.text])]
    else ts + [Turn(u.speaker, [u.text])]
  }

  /** Consecutive utterances grouped into maximal runs of one speaker, left to
      right. */
  function Turns(us: seq<Utterance>): (r: seq<Turn>)
    ensures Maximal(r)
    ensures r == [] <==> us == []
    decreases |us|
  {
    if us == [] then [] else Extend(Turns(us[..|us| - 1]), us[|us| - 1])
  }

  /** The utterances a turn stands for. */
  function Utterances(t: Turn): seq<Utterance> {
    seq(|t.texts|, i requires 0 <= i < |t.texts| => Utterance(t.speaker, t.texts[i]))
  }

  /** All the utterances a sequence of turns stands for, in order. */
  function Flatten(ts: seq<Turn>): seq<Utterance> {
    if ts == [] then [] else Flatten(ts[..|ts| - 1]) + Utterances(ts[|ts| - 1])
  }

  lemma FlattenSnoc(ts: seq<Turn>, t: Turn)
    ensures Flatten(ts + [t]) == Flatten(ts) + Utterances(t)
  {
    assert (ts + [t])[..|ts|] == ts;
  }

  lemma UtterancesSnoc(speaker: string, texts: seq<string>, text: string)
    ensures Utterances(Turn(speaker, texts + [text])) == Utterances(Turn(speaker, texts)) + [Utterance(speaker, text)]
  {
  }

  /** Extending adds exactly the new utterance at the end. */
  lemma FlattenExtend(ts: seq<Turn>, u: Utterance)
    requires Maximal(ts)
    ensures Flatten(Extend(ts, u)) == Flatten(ts) + [u]
  {
    if ts != [] && ts[|ts| - 1].speaker == u.speaker {
      var init, last := ts[..|ts| - 1], ts[|ts| - 1];
      assert ts == init + [last];
      FlattenSnoc(init, last);
      FlattenSnoc(init, Turn(u.speaker, last.texts + [u.text]));
      UtterancesSnoc(u.speaker, last.texts, u.text);
    } else {
      FlattenSnoc(ts, Turn(u.speaker, [u.text]));
      assert Utterances(Turn(u.speaker, [u.text])) == [u];
    }
  }

  /** Grouping neither drops, nor reorders, nor relabels an utterance. */
  lemma {:induction false} TurnsKeepEveryUtterance(us: seq<Utterance>)
    ensures Flatten(Turns(us)) == us
    decreases |us|
  {
    if us != [] {
      var init, u := us[..|us| - 1], us[|us| - 1];
      TurnsKeepEveryUtterance(init);
      FlattenExtend(Turns(init), u);
      assert us == init + [u];
    }
  }

  /** Dropping the last text of the last turn drops the last utterance. */
  lemma FlattenDropLast(init: seq<Turn>, speaker: string, texts: seq<string>, text: string)
    ensures Flatten(init + [Turn(speaker, texts + [text])])
         == Flatten(init + [Turn(speaker, texts)]) + [Utterance(speaker, text)]
  {
    FlattenSnoc(init, Turn(speaker, texts + [text]));
    FlattenSnoc(init, Turn(speaker, texts));
    UtterancesSnoc(speaker, texts, text);
  }

  lemma MaximalPrefix(ts: seq<Turn>)
    requires Maximal(ts) && ts != []
    ensures Maximal(ts[..|ts| - 1])
  {
  }

  /** A last turn of two texts or more, cut by one text, leaves the turns maximal. */
  lemma MaximalShorten(ts: seq<Turn>, texts: seq<string>)
    requires Maximal(ts) && ts != [] && texts != []
    ensures Maximal(ts[..|ts| - 1] + [Turn(ts[|ts| - 1].speaker, texts)])
  {
    var ts' := ts[..|ts| - 1] + [Turn(ts[|ts| - 1].speaker, texts)];
    forall i, j | 0 <= i && j == i + 1 && j < |ts'|
      ensures ts'[i].speaker != ts'[j].speaker
    {
      assert ts'[i].speaker == ts[i].speaker && ts'[j].speaker == ts[j].speaker;
    }
  }

  /** Maximal runs are unique: any maximal turns that stand for `us` are
      `Turns(us)`. */
  lemma {:induction false} TurnsAreTheMaximalRuns(ts: seq<Turn>, us: seq<Utterance>)
    requires Maximal(ts)
    requires Flatten(ts) == us
    ensures ts == Turns(us)
    decreases |us|
  {
    if ts != [] {
      var init, last := ts[..|ts| - 1], ts[|ts| - 1];
      assert ts == init + [last];
      var n := |last.texts|;
      var shorter := last.texts[..n - 1];
      var u := Utterance(last.speaker, last.texts[n - 1]);
      assert last == Turn(last.speaker, shorter + [u.text]);
      FlattenDropLast(init, last.speaker, shorter, u.text);
      var ts' := init + [Turn(last.speaker, shorter)];
      assert us == Flatten(ts') + [u];
      assert us[..|us| - 1] == Flatten(ts');
      if n == 1 {
        TurnsNewSpeaker(ts, us);
      } else {
        MaximalShorten(ts, shorter);
        TurnsAreTheMaximalRuns(ts', us[..|us| - 1]);
        assert ts'[..|ts'| - 1] == init;
      }
    }
  }

  /** The case of `TurnsAreTheMaximalRuns` where the last turn holds one text. */
  lemma {:induction false} TurnsNewSpeaker(ts: seq<Turn>, us: seq<Utterance>)
    requires Maximal(ts) && ts != [] && |ts[|ts| - 1].texts| == 1
    requires Flatten(ts) == us
    ensures ts == Turns(us)
    decreases |us|, 0
  {
    var init, last := ts[..|ts| - 1], ts[|ts| - 1];
    assert ts == init + [last];
    var u := Utterance(last.speaker, last.texts[0]);
    assert last == Turn(u.speaker, [u.text]);
    FlattenSnoc(init, last);
    assert Utterances(last) == [u];
    assert us[..|us| - 1] == Flatten(init);
    MaximalPrefix(ts);
    TurnsAreTheMaximalRuns(init, us[..|us| - 1]);
    assert init == [] || init[|init| - 1].speaker != u.speaker by {
      if init != [] {
        assert ts[|init| - 1] == init[|init| - 1];
      }
    }
  }

  /** `"<speaker>: "` followed by the turn's texts joined with spaces. */
  function Line(t: Turn): string {
    t.speaker + ": " + JoinWith(" ", t.texts)
  }

  /** One line per turn, except that a turn whose speaker is the empty string
      is dropped. */
  function Render(ts: seq<Turn>): (lines: seq<string>)
    ensures |lines| <= |ts|
  {
    if ts == [] then []
    else
      var t := ts[|ts| - 1];
      Render(ts[..|ts| - 1]) + (if t.speaker != "" then [Line(t)] else [])
  }

  /** A turn whose speaker is the empty string adds no line; any other turn
      adds exactly its own line. */
  lemma RenderAppend(ts: seq<Turn>, t: Turn)
    ensures t.speaker == "" ==> Render(ts + [t]) == Render(ts)
    ensures t.speaker != "" ==> Render(ts + [t]) == Render(ts) + [Line(t)]
  {
    assert (ts + [t])[..|ts|] == ts;
  }

  /** With named speakers every turn becomes exactly its own line. */
  lemma {:induction false} RenderNamedTurns(ts: seq<Turn>)
    requires forall i :: 0 <= i < |ts| ==> ts[i].speaker != ""
    ensures |Render(ts)| == |ts|
    ensures forall i :: 0 <= i < |ts| ==> Render(ts)[i] == Line(ts[i])
  {
    if ts != [] {
      RenderNamedTurns(ts[..|ts| - 1]);
    }
  }

  /** Every utterance carries a non-empty speaker label. */
  predicate AllNamed(us: seq<Utterance>) {
    forall k :: 0 <= k < |us| ==> us[k].speaker != ""
  }

  /** Spans with non-empty labels give every segment a non-empty speaker. */
  lemma AttributeNamed(segments: seq<Segment>, spans: seq<Span>)
    requires forall i :: 0 <= i < |spans| ==> spans[i].speaker != ""
    ensures AllNamed(Attribute(segments, spans))
  {
    var us := Attribute(segments, spans);
    forall k | 0 <= k < |us|
      ensures us[k].speaker != ""
    {
      FindSpeakerFromSpans(Midpoint(segments[k].start, segments[k].end), spans);
    }
  }

  /** Grouping named utterances gives named turns. */
  lemma {:induction false} TurnsNamed(us: seq<Utterance>)
    requires AllNamed(us)
    ensures forall i :: 0 <= i < |Turns(us)| ==> Turns(us)[i].speaker != ""
    decreases |us|
  {
    if us != [] {
      var init := us[..|us| - 1];
      assert AllNamed(init) by {
        forall k | 0 <= k < |init| ensures init[k].speaker != "" {
          assert init[k] == us[k];
        }
      }
      TurnsNamed(init);
      var prev, r := Turns(init), Turns(us);
      forall i | 0 <= i < |r|
        ensures r[i].speaker != ""
      {
        if i < |r| - 1 {
          assert r[i] == prev[i];
        }
      }
    }
  }

  /** With named speakers the diarized lines are the maximal runs of the
      attributed segments, one line per run and in order: every segment's text
      is in exactly one line, and neighbouring lines have different speakers. */
  lemma DiarizedLines(segments: seq<Segment>, spans: seq<Span>)
    requires forall i :: 0 <= i < |spans| ==> spans[i].speaker != ""
    ensures var ts := Turns(Attribute(segments, spans));
      && Flatten(ts) == Attribute(segments, spans)
      && |Render(ts)| == |ts|
      && (forall i :: 0 <= i < |ts| ==> Render(ts)[i] == Line(ts[i]))
      && (forall i, j :: 0 <= i && j == i + 1 && j < |ts| ==> ts[i].speaker != ts[j].speaker)
  {
    var us := Attribute(segments, spans);
    TurnsKeepEveryUtterance(us);
    AttributeNamed(segments, spans);
    TurnsNamed(us);
    RenderNamedTurns(Turns(us));
  }

  /** The grouping loop of `diarize`: walks the segments once, closing the
      current line whenever the speaker changes. */
  method MergeTurns(segments: seq<Segment>, spans: seq<Span>) returns (lines: seq<string>)
    ensures lines == Render(Turns(Attribute(segments, spans)))
  {
    ghost var us := Attribute(segments, spans);
    ghost var closed: seq<Turn> := [];
    lines := [];
    var current: Option<string> := None;
    var texts: seq<string> := [];
    for i := 0 to |segments|
      invariant current.None? <==> i == 0
      invariant i == 0 ==> texts == [] && closed == []
      invariant i > 0 ==> texts != [] && Turns(us[..i]) == closed + [Turn(current.value, texts)]
      invariant lines == Render(closed)
    {
      var seg := segments[i];
      var speaker := FindSpeaker(Midpoint(seg.start, seg.end), spans);
      assert us[..i + 1][..i] == us[..i];
      if current != Some(speaker) {
        if texts != [] && current.Some? && current.value != "" {
          lines := lines + [Line(Turn(current.value, texts))];
        }
        if current.Some? {
          closed := closed + [Turn(current.value, texts)];
        }
        current := Some(speaker);
        texts := [Strip(seg.text)];
      } else {
        texts := texts + [Strip(seg.text)];
      }
    }
    if texts != [] && current.Some? && current.value != "" {
      lines := lines + [Line(Turn(current.value, texts))];
    }
    if current.Some? {
      assert us[..|segments|] == us;
      assert Render(closed + [Turn(current.value, texts)]) == lines;
    }
  }

  // ---------------------------------------------------------------------
  // diarize

  /** The plain transcript: every segment's stripped text, joined by spaces. */
  function PlainText(segments: seq<Segment>): string {
    JoinWith(" ", seq(|segments|, i requires 0 <= i < |segments| => Strip(segments[i].text)))
  }

  /** The token argument when it is a non-empty string, else the environment's
      `HF_TOKEN`, else empty. */
  function EffectiveToken(hfToken: Option<string>, envToken: Option<string>): (token: string)
    ensures token == "" <==> (hfToken.None? || hfToken.value == "") && (envToken.None? || envToken.value == "")
    ensures token != "" ==> hfToken == Some(token) || (envToken == Some(token) && (hfToken.None? || hfToken.value == ""))
  {
    if hfToken.Some? && hfToken.value != "" then hfToken.value else envToken.GetOr("")
  }

  /** The distinct speaker labels among the spans. */
  function Speakers(spans: seq<Span>): set<string> {
    set s | s in spans :: s.speaker
  }

  /** `diarization` is what the diarization pipeline yields for the audio:
      its spans, or `None` when loading or running it raises. */
  method Diarize(segments: seq<Segment>, hfToken: Option<string>, envToken: Option<string>,
                 diarization: Option<seq<Span>>)
    returns (transcript: string, diarized: bool)
    ensures diarized <==>
      EffectiveToken(hfToken, envToken) != "" && diarization.Some? && |Speakers(diarization.value)| >= 2
    ensures !diarized ==> transcript == PlainText(segments)
    ensures diarized ==> transcript == JoinWith("\n", Render(Turns(Attribute(segments, diarization.value))))
    ensures diarized && segments == [] ==> transcript == ""
  {
    var plain := PlainText(segments);
    var token := EffectiveToken(hfToken, envToken);
    if token == "" {
      return plain, false;
    }
    if diarization.None? {
      return plain, false;
    }
    var spans := diarization.value;
    if |Speakers(spans)| < 2 {
      return plain, false;
    }
    var lines := MergeTurns(segments, spans);
    return JoinWith("\n", lines), true;
  }
}
