/**
 * GenerationEngine: the token loops of the llama.cpp back end and `generate`, which formats the
 * prompt, runs the one-shot loop, splits the output into sections and extracts the citations of
 * the answer.
 *
 * The language model is a parameter: `pieces` is the sequence of detokenized text pieces the model
 * produces for a prompt, and `model` maps a prompt to that sequence.
 */
module Generation {
  import opened Wrappers
  import opened Text
  import opened PromptFormat
  import opened SectionExtract
  import opened CitationExtract

  /** The piece that ends generation. */
  const END_OF_TEXT := "<|end_of_text|>"

  /** The key extract_sections stores the answer under. */
  const ANSWER := "answer"

  /**
   * The "processed" dict of a response: the sections, and the result of extract_citations on the
   * answer (the "clean_answer" and "citations" keys) when there is an answer.
   */
  datatype Processed = Processed(sections: map<string, string>, citationInfo: Option<Extracted>)

  /** The dict `generate` returns. */
  datatype Response = Response(rawResponse: string, processed: Processed, sources: seq<Source>, backendUsed: string)

  /** The text the one-shot loop returns: the pieces before the stop, joined and trimmed. */
  function OneShotText(pieces: seq<string>, cap: int): string {
    Strip(Concat(pieces[..StopIndex(pieces, END_OF_TEXT, cap)]))
  }

  /** What the streaming loop leaves in `_last_raw`: the pieces it yielded and the piece it stopped on. */
  function StreamRaw(pieces: seq<string>, cap: int): string {
    Concat(pieces[..Min(StopIndex(pieces, END_OF_TEXT, cap) + 1, |pieces|)])
  }

  /** Sections of the raw text, with citation information when an answer section was found. */
  function Process(raw: string): Processed {
    var sections := Sections(raw);
    if ANSWER in sections then Processed(sections, Some(CitationsOf(REF, sections[ANSWER])))
    else Processed(sections, None)
  }

  class GenerationEngine {
    const maxTokens: int
    const backend: string
    /** `_last_raw`: absent until the first streaming run. */
    var lastRaw: Option<string>

    constructor (maxTokens: int, backend: string)
      ensures this.maxTokens == maxTokens && this.backend == backend && lastRaw == None
    {
      this.maxTokens := maxTokens;
      this.backend := backend;
      lastRaw := None;
    }

    /** _generate_llama_cpp: append pieces until the end-of-text piece or the token cap, then strip. */
    method GenerateOneShot(pieces: seq<string>) returns (text: string)
      ensures text == OneShotText(pieces, maxTokens)
    {
      var generatedText := "";
      var i := 0;
      StopIndexSpec(pieces, END_OF_TEXT, maxTokens);
      while i < |pieces|
        invariant i <= StopIndex(pieces, END_OF_TEXT, maxTokens)
        invariant generatedText == Concat(pieces[..i])
      {
        var piece := pieces[i];
        if piece == END_OF_TEXT || i >= maxTokens {
          break;
        }
        ConcatSnoc(pieces[..i], piece);
        assert pieces[..i + 1] == pieces[..i] + [piece];
        generatedText := generatedText + piece;
        i := i + 1;
      }
      text := Strip(generatedText);
    }

    /**
     * _generate_llama_cpp_stream, run to the end: the pieces it yields, in order; `_last_raw`
     * holds every piece it read, including the one it stopped on.
     */
    method GenerateStream(pieces: seq<string>) returns (yielded: seq<string>)
      modifies this
      ensures yielded == pieces[..StopIndex(pieces, END_OF_TEXT, maxTokens)]
      ensures lastRaw == Some(StreamRaw(pieces, maxTokens))
    {
      lastRaw := Some("");
      yielded := [];
      var i := 0;
      StopIndexSpec(pieces, END_OF_TEXT, maxTokens);
      while i < |pieces|
        invariant i <= StopIndex(pieces, END_OF_TEXT, maxTokens)
        invariant yielded == pieces[..i]
        invariant lastRaw == Some(Concat(pieces[..i]))
      {
        var piece := pieces[i];
        ConcatSnoc(pieces[..i], piece);
        assert pieces[..i + 1] == pieces[..i] + [piece];
        lastRaw := Some(lastRaw.value + piece);
        if piece == END_OF_TEXT || i >= maxTokens {
          break;
        }
        yielded := yielded + [piece];
        i := i + 1;
      }
    }

    /** generate: prompt, one-shot generation, sections, then citations of the answer. */
    method Generate(query: string, sources: seq<Source>, model: string -> seq<string>) returns (response: Response)
      ensures response.rawResponse == OneShotText(model(Prompt(query, sources)), maxTokens)
      ensures response.processed == Process(response.rawResponse)
      ensures response.sources == sources && response.backendUsed == backend
    {
      var formattedPrompt := FormatPrompt(query, sources);
      var rawResponse := GenerateOneShot(model(formattedPrompt));
      var sections := ExtractSections(rawResponse);
      var citationInfo := None;
      if ANSWER in sections {
        var info := ExtractCitations(sections[ANSWER]);
        citationInfo := Some(info);
      }
      response := Response(rawResponse, Processed(sections, citationInfo), sources, backend);
    }
  }

  // ---------------------------------------------------------------------------
  // What the loops and `generate` promise.

  /** The one-shot text never contains the end-of-text piece, holds at most `cap` pieces and is trimmed. */
  lemma OneShotStops(pieces: seq<string>, cap: int)
    ensures var k := StopIndex(pieces, END_OF_TEXT, cap);
      && (forall j :: 0 <= j < k ==> pieces[j] != END_OF_TEXT)
      && (k > 0 ==> k <= cap)
      && (k < |pieces| ==> pieces[k] == END_OF_TEXT || k >= cap)
    ensures var t := OneShotText(pieces, cap); |t| > 0 ==> !IsSpace(t[0]) && !IsSpace(t[|t| - 1])
  {
    var k := StopIndex(pieces, END_OF_TEXT, cap);
    StopIndexSpec(pieces, END_OF_TEXT, cap);
    if k > 0 {
      assert pieces[k - 1] != END_OF_TEXT && k - 1 < cap;
    }
    StripEnds(Concat(pieces[..k]));
  }

  /**
   * The streaming run reads exactly the pieces the one-shot run keeps, plus the piece it stopped
   * on (the end-of-text piece, or the first piece over the cap) when the pieces did not run out.
   * `_last_raw` is not stripped.
   */
  lemma StreamRawIsOneShotPlusStop(pieces: seq<string>, cap: int)
    ensures var k := StopIndex(pieces, END_OF_TEXT, cap);
      && (k == |pieces| ==> StreamRaw(pieces, cap) == Concat(pieces[..k]))
      && (k < |pieces| ==> StreamRaw(pieces, cap) == Concat(pieces[..k]) + pieces[k])
  {
    var k := StopIndex(pieces, END_OF_TEXT, cap);
    if k < |pieces| {
      ConcatSnoc(pieces[..k], pieces[k]);
      assert pieces[..k + 1] == pieces[..k] + [pieces[k]];
    }
  }

  /**
   * The response carries citation information exactly when the raw text has an answer span, and
   * it is extract_citations of that trimmed span.
   */
  lemma ProcessAnswer(raw: string)
    ensures var answer := SECTION_PATTERNS[3];
      && (Process(raw).citationInfo.Some? <==> Span(raw, answer.open, answer.close).Some?)
      && (Process(raw).citationInfo.Some? ==> Process(raw).citationInfo.value == CitationsOf(REF, SectionValue(raw, answer)))
  {
    SectionsWellFormed(raw);
    assert SECTION_PATTERNS[3].name == ANSWER;
  }
}
