/**
 * PleiasBot: turns full-text search hits into numbered sources, and wires search, prompt,
 * generation and post-processing together, in one shot (`predict`) or as a stream of packets
 * (`stream_predict`).
 *
 * The search table is a parameter: `table` is the ranked list of rows the full-text query returns,
 * each row a map from column name to value.
 */
module Inference {
  import opened Wrappers
  import opened Text
  import opened PromptFormat
  import opened SectionExtract
  import opened CitationExtract
  import opened Generation

  /** The column holding a row's text. */
  const TEXT := "text"

  type Row = map<string, string>

  /** What stream_predict yields: a raw text piece, or the final dict with the processed sections and the sources. */
  datatype Packet = Chunk(text: string) | Done(processed: Processed, sources: seq<Source>)

  /**
   * The sources `search` builds from its rows: numbered from 1 in rank order, with the row's text
   * and every other column as metadata; None when a row has no text column (the KeyError).
   */
  function SourcesOf(rows: seq<Row>): Option<seq<Source>>
    decreases |rows|
  {
    if rows == [] then Some([])
    else
      var row := rows[|rows| - 1];
      match SourcesOf(rows[..|rows| - 1])
      case None => None
      case Some(init) =>
        if TEXT in row then Some(init + [Source(|rows|, Some(row[TEXT]), row - {TEXT})]) else None
  }

  /** A failed prefix makes the whole search fail. */
  lemma {:induction false} SourcesOfFails(rows: seq<Row>, n: nat)
    requires n <= |rows| && SourcesOf(rows[..n]).None?
    ensures SourcesOf(rows).None?
    decreases |rows| - n
  {
    if n < |rows| {
      assert rows[..n + 1][..n] == rows[..n];
      SourcesOfFails(rows, n + 1);
    } else {
      assert rows[..n] == rows;
    }
  }

  /**
   * The search succeeds exactly when every row has a text; then source i has id i + 1, the text
   * of row i, and as metadata row i without its text.
   */
  lemma {:induction false} SourcesOfSpec(rows: seq<Row>)
    ensures SourcesOf(rows).Some? <==> forall i :: 0 <= i < |rows| ==> TEXT in rows[i]
    ensures SourcesOf(rows).Some? ==> var sources := SourcesOf(rows).value;
      && |sources| == |rows|
      && forall i :: 0 <= i < |rows| ==>
        sources[i] == Source(i + 1, Some(rows[i][TEXT]), rows[i] - {TEXT})
    decreases |rows|
  {
    if rows != [] {
      var init := rows[..|rows| - 1];
      SourcesOfSpec(init);
      assert forall i :: 0 <= i < |init| ==> init[i] == rows[i];
    }
  }

  /** A source gives back the row it was built from: its metadata with the text put back. */
  lemma SourcesOfRoundTrip(rows: seq<Row>, i: nat)
    requires SourcesOf(rows).Some? && i < |rows|
    ensures i < |SourcesOf(rows).value|
    ensures var s := SourcesOf(rows).value[i]; s.text.Some? && s.metadata[TEXT := s.text.value] == rows[i]
  {
    SourcesOfSpec(rows);
    var s := SourcesOf(rows).value[i];
    assert s.metadata[TEXT := s.text.value] == rows[i];
  }

  class PleiasBot {
    const engine: GenerationEngine
    const searchLimit: int

    constructor (engine: GenerationEngine, searchLimit: int)
      ensures this.engine == engine && this.searchLimit == searchLimit
    {
      this.engine := engine;
      this.searchLimit := searchLimit;
    }

    /** search: the first `limit` rows of the ranking, reshaped into sources. */
    static method Search(table: seq<Row>, limit: int) returns (sources: Option<seq<Source>>)
      ensures sources == SourcesOf(table[..Max(0, Min(limit, |table|))])
    {
      var rows := table[..Max(0, Min(limit, |table|))];
      var acc: seq<Source> := [];
      for n := 0 to |rows|
        invariant SourcesOf(rows[..n]) == Some(acc)
      {
        var row := rows[n];
        assert rows[..n + 1][..n] == rows[..n];
        if TEXT !in row {
          SourcesOfFails(rows, n + 1);
          return None;
        }
        var metadata := map subkey | subkey in row && subkey != TEXT :: row[subkey];
        assert metadata == row - {TEXT};
        acc := acc + [Source(n + 1, Some(row[TEXT]), metadata)];
      }
      assert rows[..|rows|] == rows;
      sources := Some(acc);
    }

    /**
     * predict: search, then generate. The search runs outside the `try`, so its KeyError leaves
     * predict; None stands for that raised KeyError, not for predict's own `return None`.
     */
    method Predict(userMessage: string, table: seq<Row>, model: string -> seq<string>) returns (response: Option<Response>)
      ensures var sources := SourcesOf(table[..Max(0, Min(searchLimit, |table|))]);
        && (sources.None? ==> response.None?)
        && (sources.Some? ==>
              && response.Some?
              && response.value.rawResponse == OneShotText(model(Prompt(userMessage, sources.value)), engine.maxTokens)
              && response.value.processed == Process(response.value.rawResponse)
              && response.value.sources == sources.value
              && response.value.backendUsed == engine.backend)
    {
      var sources := Search(table, searchLimit);
      if sources.None? {
        return None;
      }
      var r := engine.Generate(userMessage, sources.value, model);
      response := Some(r);
    }

    /**
     * stream_predict: every piece the streaming loop yields, then the final packet with the
     * sections and citations of the engine's `_last_raw` and the sources. None stands for the
     * KeyError the search raises before the first yield.
     */
    method StreamPredict(userMessage: string, table: seq<Row>, model: string -> seq<string>) returns (packets: Option<seq<Packet>>)
      modifies engine
      ensures var sources := SourcesOf(table[..Max(0, Min(searchLimit, |table|))]);
        && (sources.None? ==> packets.None?)
        && (sources.Some? ==>
              var pieces := model(Prompt(userMessage, sources.value));
              var k := StopIndex(pieces, END_OF_TEXT, engine.maxTokens);
              && engine.lastRaw == Some(StreamRaw(pieces, engine.maxTokens))
              && packets == Some(Chunks(pieces[..k]) + [Done(Process(StreamRaw(pieces, engine.maxTokens)), sources.value)]))
    {
      var sources := Search(table, searchLimit);
      if sources.None? {
        return None;
      }
      var prompt := FormatPrompt(userMessage, sources.value);
      var pieces := engine.GenerateStream(model(prompt));
      var raw := engine.lastRaw.value;
      var out: seq<Packet> := [];
      for n := 0 to |pieces|
        invariant out == Chunks(pieces[..n])
        invariant engine.lastRaw == Some(raw)
      {
        assert pieces[..n + 1] == pieces[..n] + [pieces[n]];
        ChunksSnoc(pieces[..n], pieces[n]);
        out := out + [Chunk(pieces[n])];
      }
      assert pieces[..|pieces|] == pieces;
      var sections := ExtractSections(raw);
      var info := None;
      if ANSWER in sections {
        var extracted := ExtractCitations(sections[ANSWER]);
        info := Some(extracted);
      }
      packets := Some(out + [Done(Processed(sections, info), sources.value)]);
    }
  }

  /** One Chunk packet per piece. */
  function Chunks(pieces: seq<string>): seq<Packet>
    decreases |pieces|
  {
    if pieces == [] then [] else Chunks(pieces[..|pieces| - 1]) + [Chunk(pieces[|pieces| - 1])]
  }

  lemma ChunksSnoc(pieces: seq<string>, p: string)
    ensures Chunks(pieces + [p]) == Chunks(pieces) + [Chunk(p)]
  {
    assert (pieces + [p])[..|pieces|] == pieces;
  }

  /** The chunks carry the pieces in order, and none of them is the final packet. */
  lemma {:induction false} ChunksSpec(pieces: seq<string>)
    ensures |Chunks(pieces)| == |pieces|
    ensures forall i :: 0 <= i < |pieces| ==> Chunks(pieces)[i] == Chunk(pieces[i])
    decreases |pieces|
  {
    if pieces != [] {
      var init := pieces[..|pieces| - 1];
      ChunksSpec(init);
      assert forall i :: 0 <= i < |init| ==> init[i] == pieces[i];
    }
  }
}
