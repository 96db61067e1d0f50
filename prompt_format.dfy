/**
 * GenerationEngine.format_prompt: the literal-marker prompt the model is trained on.
 *
 *   <|query_start|>{query}<|query_end|>\n
 *   <|source_start|><|source_id|>{i} {text}<|source_end|>\n      (once per source, i = 1, 2, ...)
 *   <|language_start|>\n
 *
 * The source number is the position in the list; any "id" already on a source is ignored.
 */
module PromptFormat {
  import opened Wrappers
  import opened Text

  /** A retrieved passage as the engine receives it: "id", an optional "text" and "metadata". */
  datatype Source = Source(id: int, text: Option<string>, metadata: map<string, string>)

  /** The literal markers of the prompt. */
  datatype Markers = Markers(queryStart: string, queryEnd: string, sourceHead: string, sourceEnd: string, languageStart: string)

  /** <|query_start|>, <|query_end|>, <|source_start|><|source_id|>, <|source_end|>, <|language_start|> */
  const PROMPT_MARKERS := Markers("<|query_start|>", "<|query_end|>", "<|source_start|><|source_id|>", "<|source_end|>", "<|language_start|>")

  /** source.get("text", "") */
  function TextOf(s: Source): string {
    if s.text.Some? then s.text.value else ""
  }

  function SourceBlock(m: Markers, index: nat, text: string): string {
    m.sourceHead + NatToString(index) + " " + text + m.sourceEnd + "\n"
  }

  /** The blocks of `sources`, numbered by position starting at `first`. */
  function SourceBlocks(m: Markers, sources: seq<Source>, first: nat): string
    decreases |sources|
  {
    if sources == [] then ""
    else SourceBlock(m, first, TextOf(sources[0])) + SourceBlocks(m, sources[1..], first + 1)
  }

  function QueryBlock(m: Markers, query: string): string {
    m.queryStart + query + m.queryEnd + "\n"
  }

  function PromptWith(m: Markers, query: string, sources: seq<Source>): string {
    QueryBlock(m, query) + SourceBlocks(m, sources, 1) + m.languageStart + "\n"
  }

  /** The prompt format_prompt returns. */
  function Prompt(query: string, sources: seq<Source>): string {
    PromptWith(PROMPT_MARKERS, query, sources)
  }

  /** format_prompt: grows the prompt with += one block per source, in list order. */
  method FormatPrompt(query: string, sources: seq<Source>) returns (prompt: string)
    ensures prompt == Prompt(query, sources)
  {
    var m := PROMPT_MARKERS;
    var queryBlock := QueryBlock(m, query);
    prompt := queryBlock;
    for idx := 1 to |sources| + 1
      invariant prompt == queryBlock + SourceBlocks(m, sources[..idx - 1], 1)
    {
      var block := SourceBlock(m, idx, TextOf(sources[idx - 1]));
      PromptGrows(m, queryBlock, sources, idx);
      prompt := prompt + block;
    }
    assert sources[..|sources|] == sources;
    PromptWithClose(m, query, sources, prompt);
    prompt := prompt + m.languageStart + "\n";
  }

  lemma PromptGrows(m: Markers, queryBlock: string, sources: seq<Source>, idx: nat)
    requires 1 <= idx <= |sources|
    ensures queryBlock + SourceBlocks(m, sources[..idx - 1], 1) + SourceBlock(m, idx, TextOf(sources[idx - 1]))
         == queryBlock + SourceBlocks(m, sources[..idx], 1)
  {
    SourceBlocksSnoc(m, sources[..idx - 1], 1, sources[idx - 1]);
    assert sources[..idx] == sources[..idx - 1] + [sources[idx - 1]];
  }

  lemma PromptWithClose(m: Markers, query: string, sources: seq<Source>, body: string)
    requires body == QueryBlock(m, query) + SourceBlocks(m, sources, 1)
    ensures body + m.languageStart + "\n" == PromptWith(m, query, sources)
  {
  }

  lemma {:induction false} SourceBlocksSnoc(m: Markers, sources: seq<Source>, first: nat, s: Source)
    ensures SourceBlocks(m, sources + [s], first)
         == SourceBlocks(m, sources, first) + SourceBlock(m, first + |sources|, TextOf(s))
    decreases |sources|
  {
    if sources != [] {
      assert (sources + [s])[1..] == sources[1..] + [s];
      SourceBlocksSnoc(m, sources[1..], first + 1, s);
    }
  }

  // ---------------------------------------------------------------------------
  // Reading the prompt back: where each source's positional marker is, and what it wraps.

  datatype Numbered = Numbered(index: nat, text: string)

  /** The sources as the model sees them: numbered by position from `first`. */
  function Numbering(sources: seq<Source>, first: nat): (r: seq<Numbered>)
    ensures |r| == |sources|
    ensures forall i :: 0 <= i < |r| ==> r[i] == Numbered(first + i, TextOf(sources[i]))
  {
    seq(|sources|, i requires 0 <= i < |sources| => Numbered(first + i, TextOf(sources[i])))
  }

  /** Splits `s` at the first occurrence of `marker`: the text before it and the text after it. */
  function Until(s: string, marker: string): (r: Option<(string, string)>)
    ensures r.Some? ==> |r.value.1| <= |s|
  {
    match IndexOf(s, marker, 0)
    case None => None
    case Some(e) => Some((s[..e], s[e + |marker|..]))
  }

  /** The text after the newline that ends a line, if `w` starts with one. */
  function AfterNewline(w: string): (r: Option<string>)
    ensures r.Some? ==> |r.value| < |w|
  {
    if w == [] || w[0] != '\n' then None else Some(w[1..])
  }

  /** Reads `head`, a non-empty run of digits and a space off the front of `s`: the number and the text after the space. */
  function NumberAt(head: string, s: string): (r: Option<(nat, string)>)
    ensures r.Some? ==> |r.value.1| < |s|
  {
    if !OccursAt(s, head, 0) then None
    else
      var t := s[|head|..];
      var d := Run(t, 0, IsDigit);
      RunSpec(t, 0, IsDigit);
      if d == 0 || d == |t| || t[d] != ' ' then None
      else Some((ParseNat(t[..d]), t[d + 1..]))
  }

  /** Reads one source block off the front of `s`: its number and text, and the text after it. */
  function BlockAt(m: Markers, s: string): (r: Option<(Numbered, string)>)
    ensures r.Some? ==> |r.value.1| < |s|
  {
    match NumberAt(m.sourceHead, s)
    case None => None
    case Some((n, u)) =>
      match Until(u, m.sourceEnd)
      case None => None
      case Some((text, w)) =>
        match AfterNewline(w)
        case None => None
        case Some(after) => Some((Numbered(n, text), after))
  }

  /** Reads consecutive source blocks off the front of `s`; returns them and the text after them. */
  function ParseBlocks(m: Markers, s: string): (seq<Numbered>, string)
    decreases |s|
  {
    match BlockAt(m, s)
    case None => ([], s)
    case Some((block, after)) =>
      var rest := ParseBlocks(m, after);
      ([block] + rest.0, rest.1)
  }

  /** Reads the query line off the front of a prompt: the query and the text after the line. */
  function QueryAt(m: Markers, p: string): Option<(string, string)> {
    if !OccursAt(p, m.queryStart, 0) then None
    else
      match Until(p[|m.queryStart|..], m.queryEnd)
      case None => None
      case Some((query, w)) =>
        match AfterNewline(w)
        case None => None
        case Some(body) => Some((query, body))
  }

  /** Reads a prompt back into its query and its numbered sources. */
  function ParsePromptWith(m: Markers, p: string): Option<(string, seq<Numbered>)> {
    match QueryAt(m, p)
    case None => None
    case Some((query, body)) =>
      var parsed := ParseBlocks(m, body);
      if parsed.1 == m.languageStart + "\n" then Some((query, parsed.0)) else None
  }

  function ParsePrompt(p: string): Option<(string, seq<Numbered>)> {
    ParsePromptWith(PROMPT_MARKERS, p)
  }

  /** The query does not contain the marker that closes it, and no source text the one that closes it. */
  predicate Unambiguous(query: string, sources: seq<Source>) {
    && IndexOf(query, PROMPT_MARKERS.queryEnd, 0).None?
    && forall s <- sources :: IndexOf(TextOf(s), PROMPT_MARKERS.sourceEnd, 0).None?
  }

  /** A marker that starts with '<' and has no other '<'. */
  predicate SingleOpen(marker: string) {
    |marker| > 0 && marker[0] == '<' && forall m :: 0 < m < |marker| ==> marker[m] != '<'
  }

  /** Markers whose closing ones cannot straddle the text they close, and whose trailer is no block. */
  predicate Readable(m: Markers) {
    && SingleOpen(m.queryEnd)
    && SingleOpen(m.sourceEnd)
    && |m.sourceHead| > |m.languageStart| + 1
  }

  lemma ProtocolReadable()
    ensures Readable(PROMPT_MARKERS)
  {
    var m := PROMPT_MARKERS;
    assert SingleOpen(m.queryEnd);
    assert SingleOpen(m.sourceEnd);
  }

  /** `a` is at the front of `a + b`, and dropping it leaves `b`. */
  lemma Front(a: string, b: string)
    ensures OccursAt(a + b, a, 0) && (a + b)[|a|..] == b
  {
    assert (a + b)[..|a|] == a;
  }

  /** The first occurrence of a single-open marker after a text free of it is where the text ends. */
  lemma MarkerAfter(text: string, marker: string, w: string)
    requires SingleOpen(marker)
    requires IndexOf(text, marker, 0).None?
    ensures IndexOf(text + (marker + w), marker, 0) == Some(|text|)
  {
    var u := text + (marker + w);
    var at := |text|;
    IndexOfSpec(text, marker, 0);
    assert u[at..at + |marker|] == marker;
    forall j | 0 <= j < at
      ensures !OccursAt(u, marker, j)
    {
      if j + |marker| <= at {
        assert u[j..j + |marker|] == text[j..j + |marker|];
        assert !OccursAt(text, marker, j);
      } else {
        var k := at - j;
        assert u[j..j + |marker|][k] == u[at] == '<' != marker[k];
      }
    }
    IndexOfFirst(u, marker, 0, at);
  }

  /** A text free of a single-open marker is read up to exactly the marker that follows it. */
  lemma ReadUntil(text: string, marker: string, w: string)
    requires SingleOpen(marker)
    requires IndexOf(text, marker, 0).None?
    ensures Until(text + (marker + w), marker) == Some((text, w))
  {
    var u := text + (marker + w);
    MarkerAfter(text, marker, w);
    assert u[..|text|] == text;
    assert u[|text| + |marker|..] == w;
  }

  /** A digit string followed by a space is exactly the greedy digit run at the front. */
  lemma DigitsThenSpace(digits: string, u: string)
    requires forall i :: 0 <= i < |digits| ==> IsDigit(digits[i])
    ensures var t := digits + (" " + u);
      && Run(t, 0, IsDigit) == |digits| < |t|
      && t[|digits|] == ' '
      && t[..|digits|] == digits
      && t[|digits| + 1..] == u
  {
    var t := digits + (" " + u);
    RunSpec(t, 0, IsDigit);
    assert forall k :: 0 <= k < |digits| ==> t[k] == digits[k];
    assert !IsDigit(t[|digits|]);
    assert t[..|digits|] == digits;
    assert t[|digits| + 1..] == u;
  }

  /** The head, the decimal form of `n` and a space are read back as `n`. */
  lemma NumberOf(head: string, n: nat, u: string)
    ensures NumberAt(head, head + (NatToString(n) + (" " + u))) == Some((n, u))
  {
    var digits := NatToString(n);
    var t := digits + (" " + u);
    Front(head, t);
    DigitsThenSpace(digits, u);
    ParseNatToString(n);
  }

  lemma SourceBlockLayout(m: Markers, first: nat, text: string, more: string)
    ensures SourceBlock(m, first, text) + more
         == m.sourceHead + (NatToString(first) + (" " + (text + (m.sourceEnd + ("\n" + more)))))
  {
  }

  /** One source block at the front is read back as its number and its text. */
  lemma BlockParse(m: Markers, first: nat, text: string, more: string)
    requires SingleOpen(m.sourceEnd)
    requires IndexOf(text, m.sourceEnd, 0).None?
    ensures BlockAt(m, SourceBlock(m, first, text) + more) == Some((Numbered(first, text), more))
  {
    var w := "\n" + more;
    SourceBlockLayout(m, first, text, more);
    NumberOf(m.sourceHead, first, text + (m.sourceEnd + w));
    ReadUntil(text, m.sourceEnd, w);
    assert AfterNewline(w) == Some(more);
  }

  lemma BlocksCons(m: Markers, sources: seq<Source>, first: nat, tail: string)
    requires sources != []
    ensures SourceBlocks(m, sources, first) + tail
         == SourceBlock(m, first, TextOf(sources[0])) + (SourceBlocks(m, sources[1..], first + 1) + tail)
  {
  }

  lemma NumberingCons(sources: seq<Source>, first: nat)
    requires sources != []
    ensures Numbering(sources, first) == [Numbered(first, TextOf(sources[0]))] + Numbering(sources[1..], first + 1)
  {
    assert Numbering(sources, first) == [Numbered(first, TextOf(sources[0]))] + Numbering(sources[1..], first + 1);
  }

  lemma {:induction false} ParseBlocksRoundTrip(m: Markers, sources: seq<Source>, first: nat, tail: string)
    requires SingleOpen(m.sourceEnd)
    requires forall s <- sources :: IndexOf(TextOf(s), m.sourceEnd, 0).None?
    requires !OccursAt(tail, m.sourceHead, 0)
    ensures ParseBlocks(m, SourceBlocks(m, sources, first) + tail) == (Numbering(sources, first), tail)
    decreases |sources|
  {
    if sources != [] {
      var text := TextOf(sources[0]);
      var more := SourceBlocks(m, sources[1..], first + 1) + tail;
      BlocksCons(m, sources, first, tail);
      BlockParse(m, first, text, more);
      ParseBlocksRoundTrip(m, sources[1..], first + 1, tail);
      NumberingCons(sources, first);
    } else {
      assert SourceBlocks(m, sources, first) + tail == tail;
    }
  }

  /** The trailer after the last block is not itself the start of a block. */
  lemma TrailerIsNoBlock(m: Markers)
    requires Readable(m)
    ensures !OccursAt(m.languageStart + "\n", m.sourceHead, 0)
  {
  }

  lemma PromptLayout(m: Markers, query: string, sources: seq<Source>)
    ensures PromptWith(m, query, sources)
         == m.queryStart + (query + (m.queryEnd + ("\n" + (SourceBlocks(m, sources, 1) + (m.languageStart + "\n")))))
  {
  }

  /** The query line of a prompt is read back as the query, followed by the blocks and the trailer. */
  lemma QueryParse(m: Markers, query: string, body: string)
    requires SingleOpen(m.queryEnd)
    requires IndexOf(query, m.queryEnd, 0).None?
    ensures QueryAt(m, m.queryStart + (query + (m.queryEnd + ("\n" + body)))) == Some((query, body))
  {
    var w := "\n" + body;
    Front(m.queryStart, query + (m.queryEnd + w));
    ReadUntil(query, m.queryEnd, w);
    assert AfterNewline(w) == Some(body);
  }

  lemma PromptWithRoundTrip(m: Markers, query: string, sources: seq<Source>)
    requires Readable(m)
    requires IndexOf(query, m.queryEnd, 0).None?
    requires forall s <- sources :: IndexOf(TextOf(s), m.sourceEnd, 0).None?
    ensures ParsePromptWith(m, PromptWith(m, query, sources)) == Some((query, Numbering(sources, 1)))
  {
    var tail := m.languageStart + "\n";
    var body := SourceBlocks(m, sources, 1) + tail;
    PromptLayout(m, query, sources);
    QueryParse(m, query, body);
    TrailerIsNoBlock(m);
    ParseBlocksRoundTrip(m, sources, 1, tail);
  }

  /**
   * Reading the prompt back gives the query and every source text, numbered 1, 2, ... in list
   * order: format_prompt neither reorders nor drops sources, and the numbers are positional.
   */
  lemma PromptRoundTrip(query: string, sources: seq<Source>)
    requires Unambiguous(query, sources)
    ensures ParsePrompt(Prompt(query, sources)) == Some((query, Numbering(sources, 1)))
  {
    ProtocolReadable();
    PromptWithRoundTrip(PROMPT_MARKERS, query, sources);
  }
}
