/**
 * The streaming chat window: render_with_tooltips, which turns the citation tags of an answer into
 * HTML tooltips, and the packet loop of send_message, which shows the answer as it streams in.
 *
 * The user interface itself is not modelled: what the answer bubble shows after each packet is
 * recorded as a `Display`, and what the final packet puts on screen as an `Ending`.
 */
module MainStream {
  import opened Wrappers
  import opened Text
  import opened Generation
  import opened Inference

  // ---------------------------------------------------------------------------
  // The tag `<ref\s+name="<\|source_id\|>(\d+)">(.*?)</ref>`, with DOTALL.

  /** The literal parts of the tag: before the spaces, between the spaces and the digits, after the digits, at the end. */
  datatype TipSyntax = TipSyntax(open: string, name: string, idEnd: string, close: string)

  const TIP := TipSyntax("<ref", "name=\"<|source_id|>", "\">", "</ref>")

  /** The tag starts with '<' and ends with a non-empty closing text. */
  predicate ValidTip(syn: TipSyntax) {
    |syn.open| > 0 && syn.open[0] == '<' && |syn.close| > 0
  }

  /** A match: its length, the digits of group 1 and the text of group 2. */
  datatype Tooltip = Tooltip(len: nat, sourceId: string, body: string)

  /** `<ref\s+name="<|source_id|>` at the front of `u`: where the digits start. */
  function DigitsStart(syn: TipSyntax, u: string): Option<nat> {
    if !OccursAt(u, syn.open, 0) then None
    else
      var w := Run(u, |syn.open|, IsSpace);
      if w > 0 && OccursAt(u, syn.name, |syn.open| + w) then Some(|syn.open| + w + |syn.name|) else None
  }

  /** `(\d+)">` at index `j`: the length of the greedy digit run, when it is non-empty and the quote follows. */
  function DigitsThenEnd(syn: TipSyntax, u: string, j: nat): Option<nat>
    requires j <= |u|
  {
    var d := Run(u, j, IsDigit);
    if d > 0 && OccursAt(u, syn.idEnd, j + d) then Some(d) else None
  }

  /** Where the parts of a match lie: the start of the digits, their count and the start of the closing tag. */
  datatype TipLayout = TipLayout(digits: nat, count: nat, closeAt: nat)

  /**
   * The match at the front of `u`, located. Both runs are greedy and are followed by a character
   * outside their class, so no backtracking can change them; the lazy body ends at the first
   * closing tag, newlines included.
   */
  function LayoutOf(syn: TipSyntax, u: string): Option<TipLayout> {
    match DigitsStart(syn, u)
    case None => None
    case Some(j) => LayoutFrom(syn, u, j)
  }

  /** The digits, the quote and the body, from index `j` of `u`. */
  function LayoutFrom(syn: TipSyntax, u: string, j: nat): Option<TipLayout> {
    if j > |u| then None
    else
      match DigitsThenEnd(syn, u, j)
      case None => None
      case Some(d) =>
        match CloseAt(syn, u, j + d + |syn.idEnd|)
        case None => None
        case Some(c) => Some(TipLayout(j, d, c))
  }

  /** `(.*?)</ref>` from index `b`: where the first closing tag at or after `b` starts. */
  function CloseAt(syn: TipSyntax, u: string, b: nat): (r: Option<nat>)
    ensures r.Some? ==> b <= r.value && r.value + |syn.close| <= |u|
  {
    IndexOf(u, syn.close, b)
  }

  /** What a located match satisfies: each stage matched where the previous one ended. */
  lemma LayoutFacts(syn: TipSyntax, u: string, l: TipLayout)
    requires LayoutOf(syn, u) == Some(l)
    ensures OccursAt(u, syn.open, 0) && |syn.open| <= l.digits <= |u|
    ensures DigitsThenEnd(syn, u, l.digits) == Some(l.count)
    ensures CloseAt(syn, u, l.digits + l.count + |syn.idEnd|) == Some(l.closeAt)
    ensures l.digits + l.count + |syn.idEnd| <= l.closeAt && l.closeAt + |syn.close| <= |u|
  {
  }

  /** The match at the front of `u`, if any: its length, group(1) and group(2). */
  function TooltipAt(syn: TipSyntax, u: string): Option<Tooltip> {
    match LayoutOf(syn, u)
    case None => None
    case Some(l) =>
      LayoutFacts(syn, u, l);
      Some(Tooltip(l.closeAt + |syn.close|, u[l.digits..l.digits + l.count], u[l.digits + l.count + |syn.idEnd|..l.closeAt]))
  }

  /** A match starts with '<', fits in `u` and carries a non-empty run of digits as its source id. */
  lemma TooltipFacts(syn: TipSyntax, u: string)
    requires ValidTip(syn) && TooltipAt(syn, u).Some?
    ensures var t := TooltipAt(syn, u).value;
      && u[0] == '<'
      && 0 < t.len <= |u|
      && |t.sourceId| > 0
      && (forall k :: 0 <= k < |t.sourceId| ==> IsDigit(t.sourceId[k]))
  {
    var l := LayoutOf(syn, u).value;
    LayoutFacts(syn, u, l);
    assert u[0] == u[..|syn.open|][0];
    RunSpec(u, l.digits, IsDigit);
  }

  /** A match ends with the first closing tag after the digits: its body holds no closing tag. */
  lemma TooltipCloses(syn: TipSyntax, u: string)
    requires TooltipAt(syn, u).Some?
    ensures var t := TooltipAt(syn, u).value;
      && |syn.close| <= t.len
      && OccursAt(u, syn.close, t.len - |syn.close|)
      && forall j :: t.len - |syn.close| - |t.body| <= j < t.len - |syn.close| ==> !OccursAt(u, syn.close, j)
  {
    var l := LayoutOf(syn, u).value;
    LayoutFacts(syn, u, l);
    var b := l.digits + l.count + |syn.idEnd|;
    var t := TooltipAt(syn, u).value;
    assert t == Tooltip(l.closeAt + |syn.close|, u[l.digits..l.digits + l.count], u[b..l.closeAt]);
    assert t.len - |syn.close| == l.closeAt && t.len - |syn.close| - |t.body| == b;
    assert IndexOf(u, syn.close, b) == Some(l.closeAt);
    IndexOfSpec(u, syn.close, b);
  }

  /** The tag's pattern, tried at the front of a text. */
  function MatchTip(u: string): Option<Tooltip> {
    TooltipAt(TIP, u)
  }

  /** What the scanning below needs of a pattern: a match starts with '<', is not empty and fits. */
  ghost predicate Matcher(at: string -> Option<Tooltip>) {
    forall u {:trigger at(u)} :: at(u).Some? ==> |u| > 0 && u[0] == '<' && 0 < at(u).value.len <= |u|
  }

  lemma TipMatcher()
    ensures Matcher(MatchTip)
  {
    forall u | MatchTip(u).Some?
      ensures |u| > 0 && u[0] == '<' && 0 < MatchTip(u).value.len <= |u|
    {
      TooltipFacts(TIP, u);
    }
  }

  // ---------------------------------------------------------------------------
  // render_with_tooltips

  const DIV_OPEN := "<div style=\"white-space: pre-wrap;\">"
  const DIV_CLOSE := "</div>"

  /** group(2) with every '"' replaced by `&quot;`. */
  function Escaped(body: string): string {
    Replace(body, "\"", "&quot;")
  }

  /** The span that replaces a match: it shows `[N]` and carries the escaped body as its title. */
  function SpanHtml(t: Tooltip): string {
    " <span class=\"tooltip fade\" data-title=\"" + Escaped(t.body)
      + "\" style=\"color:black;text-decoration:underline;\">[" + t.sourceId + "]</span>"
  }

  /**
   * `u` with every tag replaced by `span` of it, scanning left to right: a tag is replaced and
   * skipped as a whole, any other character is kept.
   */
  function Render(at: string -> Option<Tooltip>, span: Tooltip -> string, u: string): string
    requires Matcher(at)
    decreases |u|
  {
    if u == [] then ""
    else
      match at(u)
      case Some(t) => span(t) + Render(at, span, u[t.len..])
      case None => [u[0]] + Render(at, span, u[1..])
  }

  /** The rendering of the text from `from` on. */
  function Rendered(at: string -> Option<Tooltip>, span: Tooltip -> string, text: string, from: nat): string
    requires Matcher(at) && from <= |text|
  {
    Render(at, span, text[from..])
  }

  /** What render_with_tooltips returns. */
  function RenderHtml(text: string): string {
    TipMatcher();
    DIV_OPEN + Rendered(MatchTip, SpanHtml, text, 0) + DIV_CLOSE
  }

  /** render_with_tooltips: the finditer loop collecting the parts, joined and wrapped. */
  method RenderWithTooltips(text: string) returns (html: string)
    ensures html == RenderHtml(text)
  {
    TipMatcher();
    var fullText := ReplaceTooltips(MatchTip, SpanHtml, text);
    html := DIV_OPEN + fullText + DIV_CLOSE;
  }

  /** The loop over the matches: the text between them, and the span of each. */
  method ReplaceTooltips(at: string -> Option<Tooltip>, span: Tooltip -> string, text: string) returns (fullText: string)
    requires Matcher(at)
    ensures fullText == Rendered(at, span, text, 0)
  {
    var parts: seq<string> := [];
    var lastEnd := 0;
    while true
      invariant lastEnd <= |text|
      invariant Concat(parts) + Rendered(at, span, text, lastEnd) == Rendered(at, span, text, 0)
      decreases |text| - lastEnd
    {
      var m := FindFirst(at, text, lastEnd);
      if m.None? {
        break;
      }
      var (start, tip) := m.value;
      ReplaceStep(at, span, text, lastEnd, parts);
      parts := parts + [text[lastEnd..start]] + [span(tip)];
      lastEnd := start + tip.len;
    }
    ReplaceDone(at, span, text, lastEnd, parts);
    parts := parts + [text[lastEnd..]];
    fullText := Concat(parts);
  }

  /** One turn of the loop: the text before the next tag and its span are what the rendering starts with. */
  lemma ReplaceStep(at: string -> Option<Tooltip>, span: Tooltip -> string, text: string, lastEnd: nat, parts: seq<string>)
    requires Matcher(at) && lastEnd <= |text| && FindFirst(at, text, lastEnd).Some?
    ensures var (start, tip) := FindFirst(at, text, lastEnd).value;
      && lastEnd <= start && 0 < tip.len && start + tip.len <= |text|
      && Concat(parts + [text[lastEnd..start]] + [span(tip)]) + Rendered(at, span, text, start + tip.len)
         == Concat(parts) + Rendered(at, span, text, lastEnd)
  {
    FindFirstFound(at, text, lastEnd);
    var (start, tip) := FindFirst(at, text, lastEnd).value;
    var before := text[lastEnd..start];
    RenderedSkip(at, span, text, lastEnd, start);
    RenderedMatch(at, span, text, start, tip);
    Regroup(Concat(parts), before, span(tip), Rendered(at, span, text, start + tip.len), Rendered(at, span, text, lastEnd));
    ConcatSnoc(parts, before);
    ConcatSnoc(parts + [before], span(tip));
  }

  /** After the last tag, the rest of the text is what the rendering ends with. */
  lemma ReplaceDone(at: string -> Option<Tooltip>, span: Tooltip -> string, text: string, lastEnd: nat, parts: seq<string>)
    requires Matcher(at) && lastEnd <= |text| && FindFirst(at, text, lastEnd).None?
    ensures Concat(parts + [text[lastEnd..]]) == Concat(parts) + Rendered(at, span, text, lastEnd)
  {
    FindFirstMissing(at, text, lastEnd);
    RenderedSkip(at, span, text, lastEnd, |text|);
    ConcatSnoc(parts, text[lastEnd..]);
  }

  /** At a tag, the rendering is its span followed by the rendering after it. */
  lemma RenderedMatch(at: string -> Option<Tooltip>, span: Tooltip -> string, text: string, from: nat, t: Tooltip)
    requires Matcher(at) && from < |text| && at(text[from..]) == Some(t)
    ensures from + t.len <= |text|
    ensures Rendered(at, span, text, from) == span(t) + Rendered(at, span, text, from + t.len)
  {
    assert text[from..][t.len..] == text[from + t.len..];
  }

  /** Where no tag starts, the character is copied and the rendering goes on after it. */
  lemma RenderedKeep(at: string -> Option<Tooltip>, span: Tooltip -> string, text: string, from: nat)
    requires Matcher(at) && from < |text| && at(text[from..]).None?
    ensures Rendered(at, span, text, from) == [text[from]] + Rendered(at, span, text, from + 1)
  {
    assert text[from..][0] == text[from];
    assert text[from..][1..] == text[from + 1..];
  }

  /** Where no tag starts, the characters are copied unchanged. */
  lemma {:induction false} RenderedSkip(at: string -> Option<Tooltip>, span: Tooltip -> string, text: string, from: nat, to: nat)
    requires Matcher(at) && from <= to <= |text|
    requires forall q :: from <= q < to ==> at(text[q..]).None?
    ensures Rendered(at, span, text, from) == text[from..to] + Rendered(at, span, text, to)
    decreases |text| - from
  {
    if from < to {
      RenderedSkip(at, span, text, from + 1, to);
      assert text[from..to] == [text[from]] + text[from + 1..to];
    }
  }

  lemma Regroup(done: string, before: string, piece: string, rest: string, whole: string)
    requires whole == before + (piece + rest)
    ensures done + before + piece + rest == done + whole
  {
  }

  /** The title attribute never contains a '"', so a quote in the cited text cannot end it early. */
  lemma EscapedHasNoQuote(body: string)
    ensures '"' !in Escaped(body)
  {
    ReplaceRemovesChar(body, '"', "&quot;");
  }

  /** Text without a '<' holds no tag, so it is rendered unchanged. */
  lemma RenderedVerbatim(at: string -> Option<Tooltip>, span: Tooltip -> string, text: string, from: nat)
    requires Matcher(at) && from <= |text|
    requires forall k :: from <= k < |text| ==> text[k] != '<'
    ensures Rendered(at, span, text, from) == text[from..]
  {
    forall q | from <= q < |text|
      ensures at(text[q..]).None?
    {
      assert text[q..][0] == text[q];
    }
    RenderedSkip(at, span, text, from, |text|);
  }

  /** The rendering of `b` is the same alone or after any `a`: a tag is recognised by what follows it only. */
  lemma RenderedShift(at: string -> Option<Tooltip>, span: Tooltip -> string, a: string, b: string, k: nat)
    requires Matcher(at) && k <= |b|
    ensures Rendered(at, span, a + b, |a| + k) == Rendered(at, span, b, k)
  {
    assert (a + b)[|a| + k..] == b[k..];
  }

  /** A leading text without '<' is copied as it is, and the rest is rendered on its own. */
  lemma {:induction false} RenderedPlainPrefix(at: string -> Option<Tooltip>, span: Tooltip -> string, a: string, b: string, i: nat)
    requires Matcher(at) && i <= |a| && '<' !in a
    ensures Rendered(at, span, a + b, i) == a[i..] + Rendered(at, span, b, 0)
    decreases |a| - i
  {
    if i == |a| {
      RenderedShift(at, span, a, b, 0);
    } else {
      assert (a + b)[i..][0] == a[i];
      assert (a + b)[i] == a[i];
      RenderedKeep(at, span, a + b, i);
      RenderedPlainPrefix(at, span, a, b, i + 1);
      assert a[i..] == [a[i]] + a[i + 1..];
    }
  }

  // ---------------------------------------------------------------------------
  // send_message

  const ANSWER_START := "<|answer_start|>"
  const SOURCE_ANALYSIS := "source_analysis"

  /** The answer bubble: hidden, or showing some HTML. */
  datatype Display = Hidden | Shown(html: string)

  /**
   * What the final packet puts on screen: nothing when the stream ended without one, the rendered
   * answer and the analysis panel, or a KeyError when the sections hold no answer.
   */
  datatype Ending = StreamEnded | Finished(answerHtml: string, analysisHtml: string) | MissingAnswer

  /** The answer so far: everything after the first answer-start marker, when there is one. */
  function Visible(buffer: string): Option<string> {
    match IndexOf(buffer, ANSWER_START, 0)
    case None => None
    case Some(i) => Some(buffer[i + |ANSWER_START|..])
  }

  /** The bubble after the buffer has grown to `buffer`. */
  function View(buffer: string): Display {
    match Visible(buffer)
    case None => Hidden
    case Some(v) => Shown(RenderHtml(v))
  }

  /** The bubble after each of the chunks, in order. */
  function Frames(chunks: seq<string>): (r: seq<Display>)
    ensures |r| == |chunks|
    decreases |chunks|
  {
    if chunks == [] then [] else Frames(chunks[..|chunks| - 1]) + [View(Concat(chunks))]
  }

  /** The texts of the chunks before the first final packet. */
  function ChunkTexts(packets: seq<Packet>): (r: seq<string>)
    ensures |r| <= |packets|
    decreases |packets|
  {
    if packets == [] || packets[0].Done? then [] else [packets[0].text] + ChunkTexts(packets[1..])
  }

  /** The details element with the source analysis, "" when there is none. */
  function AnalysisHtml(sections: map<string, string>): string {
    "<details><summary>Analysis</summary>"
      + (if SOURCE_ANALYSIS in sections then sections[SOURCE_ANALYSIS] else "")
      + "</details>"
  }

  /** What the loop ends with. */
  function EndingOf(packets: seq<Packet>): Ending {
    var k := |ChunkTexts(packets)|;
    ChunkTextsSpec(packets);
    if k == |packets| then StreamEnded
    else
      var sections := packets[k].processed.sections;
      if ANSWER in sections then Finished(RenderHtml(sections[ANSWER]), AnalysisHtml(sections))
      else MissingAnswer
  }

  /** The chunks are the packets before the first final one, which is where they stop. */
  lemma {:induction false} ChunkTextsSpec(packets: seq<Packet>)
    ensures var chunks := ChunkTexts(packets);
      && (forall i :: 0 <= i < |chunks| ==> packets[i] == Chunk(chunks[i]))
      && (|chunks| < |packets| ==> packets[|chunks|].Done?)
    decreases |packets|
  {
    if packets != [] && packets[0].Chunk? {
      ChunkTextsSpec(packets[1..]);
    }
  }

  lemma FramesSnoc(chunks: seq<string>, c: string)
    ensures Frames(chunks + [c]) == Frames(chunks) + [View(Concat(chunks + [c]))]
  {
    assert (chunks + [c])[..|chunks|] == chunks;
  }

  /**
   * send_message's packet loop: the raw buffer collects the chunks, the bubble appears once the
   * answer-start marker has been seen and then shows the rendered text after the marker; the
   * final packet replaces it with the rendered answer section and ends the loop.
   */
  method SendMessage(packets: seq<Packet>) returns (frames: seq<Display>, ending: Ending)
    ensures frames == Frames(ChunkTexts(packets))
    ensures ending == EndingOf(packets)
  {
    ghost var chunks := ChunkTexts(packets);
    ChunkTextsSpec(packets);
    var rawBuffer := "";
    var seenAnswerStart := false;
    var display := Hidden;
    frames := [];
    ending := StreamEnded;
    var i := 0;
    while i < |packets|
      invariant i <= |chunks|
      invariant rawBuffer == Concat(chunks[..i])
      invariant seenAnswerStart <==> Visible(rawBuffer).Some?
      invariant display == View(rawBuffer)
      invariant frames == Frames(chunks[..i])
      invariant ending == StreamEnded
    {
      var packet := packets[i];
      if packet.Done? {
        var sections := packet.processed.sections;
        if ANSWER !in sections {
          ending := MissingAnswer;
        } else {
          var answerHtml := RenderWithTooltips(sections[ANSWER]);
          ending := Finished(answerHtml, AnalysisHtml(sections));
        }
        break;
      }
      ghost var before := rawBuffer;
      rawBuffer := rawBuffer + packet.text;
      ConcatSnoc(chunks[..i], packet.text);
      assert chunks[..i + 1] == chunks[..i] + [packet.text];
      if !seenAnswerStart {
        var idx := IndexOf(rawBuffer, ANSWER_START, 0);
        if idx.Some? {
          seenAnswerStart := true;
          var visible := rawBuffer[idx.value + |ANSWER_START|..];
          var html := RenderWithTooltips(visible);
          display := Shown(html);
        }
      } else {
        SplitVisible(before, packet.text);
        var visible := SplitOnce(rawBuffer, ANSWER_START)[1];
        var html := RenderWithTooltips(visible);
        display := Shown(html);
      }
      FramesSnoc(chunks[..i], packet.text);
      frames := frames + [display];
      i := i + 1;
    }
    assert i == |chunks| ==> chunks[..i] == chunks;
  }

  /** After the marker has been seen, splitting at it once yields the visible text as the second part. */
  lemma SplitVisible(before: string, more: string)
    requires Visible(before).Some?
    ensures |SplitOnce(before + more, ANSWER_START)| == 2
    ensures SplitOnce(before + more, ANSWER_START)[1] == Visible(before + more).value
  {
    IndexOfExtend(before, more, ANSWER_START, 0);
  }

  /**
   * Once the marker has been seen the bubble stays shown, and every later frame renders the
   * earlier visible text followed by the chunks received since.
   */
  lemma VisibleGrows(buffer: string, more: string)
    requires Visible(buffer).Some?
    ensures Visible(buffer + more) == Some(Visible(buffer).value + more)
  {
    IndexOfExtend(buffer, more, ANSWER_START, 0);
    var i := IndexOf(buffer, ANSWER_START, 0).value;
    assert (buffer + more)[i + |ANSWER_START|..] == buffer[i + |ANSWER_START|..] + more;
  }

  lemma {:induction false} FramesAt(chunks: seq<string>, i: nat)
    requires i < |chunks|
    ensures |Frames(chunks)| == |chunks|
    ensures Frames(chunks)[i] == View(Concat(chunks[..i + 1]))
    decreases |chunks|
  {
    var init := chunks[..|chunks| - 1];
    if i < |init| {
      FramesAt(init, i);
      assert init[..i + 1] == chunks[..i + 1];
    } else {
      assert chunks[..i + 1] == chunks;
      if init != [] {
        FramesAt(init, 0);
      }
    }
  }

  /**
   * Frame j, for any j after a frame i that shows the answer, shows the rendering of frame i's
   * visible text followed by the chunks after i.
   */
  lemma FramesLatch(chunks: seq<string>, i: nat, j: nat)
    requires i <= j < |chunks|
    requires Visible(Concat(chunks[..i + 1])).Some?
    ensures Frames(chunks)[j] == Shown(RenderHtml(Visible(Concat(chunks[..i + 1])).value + Concat(chunks[i + 1..j + 1])))
  {
    FramesAt(chunks, j);
    VisibleLatch(chunks, i, j);
  }

  /** Once the marker is in the buffer, the visible text only grows by the chunks received since. */
  lemma VisibleLatch(chunks: seq<string>, i: nat, j: nat)
    requires i <= j < |chunks|
    requires Visible(Concat(chunks[..i + 1])).Some?
    ensures Visible(Concat(chunks[..j + 1])) == Some(Visible(Concat(chunks[..i + 1])).value + Concat(chunks[i + 1..j + 1]))
  {
    ConcatSplit(chunks, i + 1, j + 1);
    VisibleGrows(Concat(chunks[..i + 1]), Concat(chunks[i + 1..j + 1]));
  }

  lemma ConcatSplit(chunks: seq<string>, i: nat, j: nat)
    requires i <= j <= |chunks|
    ensures Concat(chunks[..j]) == Concat(chunks[..i]) + Concat(chunks[i..j])
  {
    ConcatAppend(chunks[..i], chunks[i..j]);
    assert chunks[..i] + chunks[i..j] == chunks[..j];
  }
}
