/**
 * The streaming bot: `search` keeps the first row of each hash and renders the kept rows as prompt
 * blocks and as an html source listing; `predict_stream` builds the prompt and yields the model's
 * pieces up to the end-of-answer piece or the token cap.
 *
 * The search table is a parameter: `table` is the ranked list of rows the full-text query returns,
 * each row a map from column name to its value as text. The model is a parameter too: `model` maps
 * a prompt to the sequence of detokenized pieces it produces.
 */
module InferenceStream {
  import opened Wrappers
  import opened Text
  import PromptFormat
  import Inference

  const HASH := "hash"
  const SECTION := "section"

  /** The `.limit(1)` of the full-text query. */
  const SEARCH_LIMIT := 1

  /** The default max_new_tokens. */
  const MAX_NEW_TOKENS := 1200

  const SOURCE_START := "<|source_start|>"
  const SOURCE_ID_START := "<|source_id_start|>"
  const SOURCE_ID_END := "<|source_id_end|>"
  const SOURCE_END := "<|source_end|>"
  const LISTING_OPEN := "<div id=\"source_listing\">"
  const LISTING_CLOSE := "</div>"
  const QUERY_START := "<|query_start|>"
  const QUERY_END := "<|query_end|>"
  const ANALYSIS_START := "<|source_analysis_start|>"
  const ANSWER_END := "<|answer_end|>"

  type Row = map<string, string>

  // ---------------------------------------------------------------------------
  // De-duplication by hash

  function HashOf(row: Row): Option<string> {
    if HASH in row then Some(row[HASH]) else None
  }

  /** Row `i` is the first with its hash. */
  predicate IsFirst(rows: seq<Row>, i: nat)
    requires i < |rows|
  {
    forall j :: 0 <= j < i ==> HashOf(rows[j]) != HashOf(rows[i])
  }

  /** A kept row: its hash, its title (the section column) and its content (the text column). */
  datatype Kept = Kept(hash: string, title: string, content: string)

  /** A column's value, or "" when it is missing (used only where the columns are present). */
  function Column(row: Row, name: string): string {
    if name in row then row[name] else ""
  }

  function KeptOf(row: Row): Kept {
    Kept(Column(row, HASH), Column(row, SECTION), Column(row, Inference.TEXT))
  }

  /** The first row of each hash among the first `n` rows, in row order. */
  function KeptList(rows: seq<Row>, n: nat): seq<Kept>
    requires n <= |rows|
  {
    if n == 0 then []
    else if IsFirst(rows, n - 1) then KeptList(rows, n - 1) + [KeptOf(rows[n - 1])]
    else KeptList(rows, n - 1)
  }

  /**
   * The loop goes through without a KeyError: every row has a hash, and every row it keeps has a
   * section and a text (a later duplicate is skipped before those are read).
   */
  predicate Searchable(rows: seq<Row>) {
    && (forall i :: 0 <= i < |rows| ==> HASH in rows[i])
    && (forall i :: 0 <= i < |rows| && IsFirst(rows, i) ==> SECTION in rows[i] && Inference.TEXT in rows[i])
  }

  /** The kept rows, or None when the loop raises a KeyError. */
  function Dedupe(rows: seq<Row>): Option<seq<Kept>> {
    if Searchable(rows) then Some(KeptList(rows, |rows|)) else None
  }

  /** The hashes of the first `n` rows: seen_hashes after `n` iterations. */
  function RowHashes(rows: seq<Row>, n: nat): set<string>
    requires n <= |rows|
  {
    set i | 0 <= i < n && HASH in rows[i] :: rows[i][HASH]
  }

  /** With every earlier row hashed, a row is the first of its hash exactly when its hash is unseen. */
  lemma FirstIffUnseen(rows: seq<Row>, n: nat)
    requires n < |rows| && HASH in rows[n]
    requires forall i :: 0 <= i < n ==> HASH in rows[i]
    ensures IsFirst(rows, n) <==> rows[n][HASH] !in RowHashes(rows, n)
  {
    if !IsFirst(rows, n) {
      var j :| 0 <= j < n && HashOf(rows[j]) == HashOf(rows[n]);
      assert rows[j][HASH] in RowHashes(rows, n);
    }
  }

  lemma RowHashesGrow(rows: seq<Row>, n: nat)
    requires n < |rows| && HASH in rows[n]
    ensures RowHashes(rows, n + 1) == RowHashes(rows, n) + {rows[n][HASH]}
  {
    assert rows[n][HASH] in RowHashes(rows, n + 1);
  }

  /** The indices of the rows among the first `n` that are the first of their hash, ascending. */
  function FirstIndices(rows: seq<Row>, n: nat): seq<nat>
    requires n <= |rows|
  {
    if n == 0 then []
    else if IsFirst(rows, n - 1) then FirstIndices(rows, n - 1) + [n - 1]
    else FirstIndices(rows, n - 1)
  }

  /** The hashes of the kept rows. */
  function KeptHashes(ks: seq<Kept>): set<string> {
    set k | k in ks :: k.hash
  }

  /** Kept row `a` is the row at the `a`-th first index; the indices ascend and miss no first row. */
  lemma {:induction false} KeptAtFirsts(rows: seq<Row>, n: nat)
    requires n <= |rows|
    ensures var ks := KeptList(rows, n);
      var idx := FirstIndices(rows, n);
      && |ks| == |idx|
      && (forall a :: 0 <= a < |idx| ==> idx[a] < n && IsFirst(rows, idx[a]) && ks[a] == KeptOf(rows[idx[a]]))
      && (forall a, b :: 0 <= a < b < |idx| ==> idx[a] < idx[b])
      && (forall i :: 0 <= i < n && IsFirst(rows, i) ==> i in idx)
  {
    if n > 0 {
      KeptAtFirsts(rows, n - 1);
      var ks := KeptList(rows, n - 1);
      var idx := FirstIndices(rows, n - 1);
      if IsFirst(rows, n - 1) {
        assert forall a :: 0 <= a < |ks| ==> (ks + [KeptOf(rows[n - 1])])[a] == ks[a];
        assert forall a :: 0 <= a < |idx| ==> (idx + [n - 1])[a] == idx[a];
      }
    }
  }

  lemma KeptHashesSnoc(ks: seq<Kept>, k: Kept)
    ensures KeptHashes(ks + [k]) == KeptHashes(ks) + {k.hash}
  {
    assert k in ks + [k];
    assert forall x :: x in ks + [k] <==> x in ks || x == k;
  }

  /** Among hashed rows, every row's hash is the hash of a kept row. */
  lemma {:induction false} KeptCovers(rows: seq<Row>, n: nat)
    requires n <= |rows|
    requires forall i :: 0 <= i < n ==> HASH in rows[i]
    ensures forall i :: 0 <= i < n ==> rows[i][HASH] in KeptHashes(KeptList(rows, n))
  {
    if n > 0 {
      KeptCovers(rows, n - 1);
      var ks := KeptList(rows, n - 1);
      var row := rows[n - 1];
      if IsFirst(rows, n - 1) {
        KeptHashesSnoc(ks, KeptOf(row));
      } else {
        var j :| 0 <= j < n - 1 && HashOf(rows[j]) == HashOf(row);
        assert row[HASH] == rows[j][HASH];
      }
    }
  }

  /**
   * A successful search keeps, in row order, exactly the rows that are the first of their hash,
   * each as its hash, section and text.
   */
  lemma DedupeFirsts(rows: seq<Row>)
    requires Dedupe(rows).Some?
    ensures var ks := Dedupe(rows).value;
      var idx := FirstIndices(rows, |rows|);
      && |ks| == |idx|
      && (forall a :: 0 <= a < |idx| ==> idx[a] < |rows| && IsFirst(rows, idx[a]) && ks[a] == Kept(rows[idx[a]][HASH], rows[idx[a]][SECTION], rows[idx[a]][Inference.TEXT]))
      && (forall a, b :: 0 <= a < b < |idx| ==> idx[a] < idx[b])
      && (forall i :: 0 <= i < |rows| && IsFirst(rows, i) ==> i in idx)
  {
    KeptAtFirsts(rows, |rows|);
  }

  /** A successful search keeps one row per hash: the kept hashes are distinct and cover every row. */
  lemma DedupeOnePerHash(rows: seq<Row>)
    requires Dedupe(rows).Some?
    ensures var ks := Dedupe(rows).value;
      && (forall a, b :: 0 <= a < b < |ks| ==> ks[a].hash != ks[b].hash)
      && (forall i :: 0 <= i < |rows| ==> rows[i][HASH] in KeptHashes(ks))
  {
    var ks := Dedupe(rows).value;
    var idx := FirstIndices(rows, |rows|);
    KeptAtFirsts(rows, |rows|);
    KeptCovers(rows, |rows|);
    forall a, b | 0 <= a < b < |ks|
      ensures ks[a].hash != ks[b].hash
    {
      assert HashOf(rows[idx[a]]) != HashOf(rows[idx[b]]);
    }
  }

  // ---------------------------------------------------------------------------
  // The document and the html listing

  /** The prompt block of a kept row. */
  function Block(k: Kept): string {
    SOURCE_START + SOURCE_ID_START + k.hash + SOURCE_ID_END + k.title + "\n" + k.content + SOURCE_END
  }

  /** The html card of a kept row. */
  function Fiche(k: Kept): string {
    "<div class=\"source\" id=\"" + k.hash + "\"><p><b>" + k.hash + "</b> : " + k.title + "<br>" + k.content + "</div>"
  }

  /** One rendering per kept row, in order. */
  function Each(ks: seq<Kept>, render: Kept -> string): seq<string>
    decreases |ks|
  {
    if ks == [] then [] else Each(ks[..|ks| - 1], render) + [render(ks[|ks| - 1])]
  }

  lemma EachSnoc(ks: seq<Kept>, k: Kept, render: Kept -> string)
    ensures Each(ks + [k], render) == Each(ks, render) + [render(k)]
  {
    assert (ks + [k])[..|ks|] == ks;
  }

  /** The renderings line up with the kept rows, one each, in the same order. */
  lemma {:induction false} EachSpec(ks: seq<Kept>, render: Kept -> string)
    ensures |Each(ks, render)| == |ks|
    ensures forall a :: 0 <= a < |ks| ==> Each(ks, render)[a] == render(ks[a])
    decreases |ks|
  {
    if ks != [] {
      var init := ks[..|ks| - 1];
      EachSpec(init, render);
      assert forall a :: 0 <= a < |init| ==> init[a] == ks[a];
    }
  }

  /** "\n".join of the blocks. */
  function Document(ks: seq<Kept>): string {
    Join(Each(ks, Block), "\n")
  }

  /** The html cards, wrapped in the listing div. */
  function Listing(ks: seq<Kept>): string {
    LISTING_OPEN + Concat(Each(ks, Fiche)) + LISTING_CLOSE
  }

  /** What `search` returns: the document, the html listing and the rows of the query. */
  datatype SearchResult = SearchResult(document: string, fichesHtml: string, results: seq<Row>)

  // ---------------------------------------------------------------------------
  // The prompt

  /** The prompt predict_stream sends to the model. */
  function StreamPrompt(userMessage: string, document: string): string {
    QUERY_START + userMessage + QUERY_END + "\n" + document + "\n" + ANALYSIS_START
  }

  /**
   * The prompt opens with the query line of the one-shot prompt format: reading that line back
   * gives the message, as long as the message does not itself close the query, and the rest is the
   * document followed by the opening of the source analysis.
   */
  lemma StreamPromptQuery(userMessage: string, document: string)
    requires IndexOf(userMessage, QUERY_END, 0).None?
    ensures PromptFormat.QueryAt(PromptFormat.PROMPT_MARKERS, StreamPrompt(userMessage, document))
         == Some((userMessage, document + "\n" + ANALYSIS_START))
  {
    var m := PromptFormat.PROMPT_MARKERS;
    PromptFormat.ProtocolReadable();
    var body := document + "\n" + ANALYSIS_START;
    var w := "\n" + body;
    var p := StreamPrompt(userMessage, document);
    assert m.queryStart == QUERY_START && m.queryEnd == QUERY_END;
    assert p == m.queryStart + (userMessage + (m.queryEnd + w));
    PromptFormat.Front(m.queryStart, userMessage + (m.queryEnd + w));
    PromptFormat.ReadUntil(userMessage, m.queryEnd, w);
    assert PromptFormat.Until(p[|m.queryStart|..], m.queryEnd) == Some((userMessage, w));
    assert w[1..] == body;
    assert PromptFormat.AfterNewline(w) == Some(body);
  }

  // ---------------------------------------------------------------------------
  // search and predict_stream

  class PleiasBot {
    const maxNewTokens: int

    constructor (maxNewTokens: int)
      ensures this.maxNewTokens == maxNewTokens
    {
      this.maxNewTokens := maxNewTokens;
    }

    /** search: the query's rows, de-duplicated by hash and rendered; None on a KeyError. */
    static method Search(table: seq<Row>) returns (r: Option<SearchResult>)
      ensures var results := table[..Min(SEARCH_LIMIT, |table|)];
        && (Dedupe(results).None? ==> r.None?)
        && (Dedupe(results).Some? ==> r == Some(SearchResult(Document(Dedupe(results).value), Listing(Dedupe(results).value), results)))
    {
      var results := table[..Min(SEARCH_LIMIT, |table|)];
      var seenHashes: set<string> := {};
      var document: seq<string> := [];
      var fichesHtml: seq<string> := [];
      ghost var kept: seq<Kept> := [];
      for n := 0 to |results|
        invariant forall i :: 0 <= i < n ==> HASH in results[i]
        invariant forall i :: 0 <= i < n && IsFirst(results, i) ==> SECTION in results[i] && Inference.TEXT in results[i]
        invariant seenHashes == RowHashes(results, n)
        invariant kept == KeptList(results, n)
        invariant document == Each(kept, Block) && fichesHtml == Each(kept, Fiche)
      {
        var row := results[n];
        if HASH !in row {
          return None;
        }
        var hashId := row[HASH];
        FirstIffUnseen(results, n);
        RowHashesGrow(results, n);
        if hashId in seenHashes {
          continue;
        }
        seenHashes := seenHashes + {hashId};
        if SECTION !in row || Inference.TEXT !in row {
          return None;
        }
        var title := row[SECTION];
        var content := row[Inference.TEXT];
        EachSnoc(kept, KeptOf(row), Block);
        EachSnoc(kept, KeptOf(row), Fiche);
        kept := kept + [KeptOf(row)];
        document := document + [SOURCE_START + SOURCE_ID_START + hashId + SOURCE_ID_END + title + "\n" + content + SOURCE_END];
        fichesHtml := fichesHtml + ["<div class=\"source\" id=\"" + hashId + "\"><p><b>" + hashId + "</b> : " + title + "<br>" + content + "</div>"];
      }
      r := Some(SearchResult(Join(document, "\n"), LISTING_OPEN + Concat(fichesHtml) + LISTING_CLOSE, results));
    }

    /**
     * The loop of predict_stream over the model's pieces: it yields them in order and stops before
     * the first end-of-answer piece or once the token cap is reached, whichever comes first.
     */
    method StreamPieces(pieces: seq<string>) returns (ys: seq<string>)
      ensures |ys| <= |pieces| && ys == pieces[..|ys|]
      ensures forall j :: 0 <= j < |ys| ==> ys[j] != ANSWER_END
      ensures |ys| > 0 ==> |ys| <= maxNewTokens
      ensures |ys| < |pieces| ==> pieces[|ys|] == ANSWER_END || |ys| >= maxNewTokens
    {
      var generatedText := "";
      ys := [];
      var i := 0;
      while i < |pieces|
        invariant i <= |pieces| && ys == pieces[..i]
        invariant forall j :: 0 <= j < i ==> pieces[j] != ANSWER_END
        invariant i > 0 ==> i <= maxNewTokens
        invariant generatedText == Concat(ys)
      {
        var piece := pieces[i];
        if piece == ANSWER_END || i >= maxNewTokens {
          break;
        }
        ConcatSnoc(ys, piece);
        assert pieces[..i + 1] == pieces[..i] + [piece];
        generatedText := generatedText + piece;
        ys := ys + [piece];
        i := i + 1;
      }
    }

    /**
     * predict_stream, run to the end: the pieces it yields, None when the search raises. The
     * pieces are the model's, in order, up to the first end-of-answer piece or the token cap,
     * whichever comes first; the piece it stops on is not yielded.
     */
    method PredictStream(userMessage: string, table: seq<Row>, model: string -> seq<string>) returns (yielded: Option<seq<string>>)
      ensures var results := table[..Min(SEARCH_LIMIT, |table|)];
        && (Dedupe(results).None? ==> yielded.None?)
        && (Dedupe(results).Some? ==>
              var pieces := model(StreamPrompt(userMessage, Document(Dedupe(results).value)));
              && yielded.Some?
              && var ys := yielded.value;
              && |ys| <= |pieces| && ys == pieces[..|ys|]
              && (forall j :: 0 <= j < |ys| ==> ys[j] != ANSWER_END)
              && (|ys| > 0 ==> |ys| <= maxNewTokens)
              && (|ys| < |pieces| ==> pieces[|ys|] == ANSWER_END || |ys| >= maxNewTokens))
    {
      var search := Search(table);
      if search.None? {
        return None;
      }
      var detailedPrompt := QUERY_START + userMessage + QUERY_END + "\n" + search.value.document + "\n" + ANALYSIS_START;
      assert detailedPrompt == StreamPrompt(userMessage, search.value.document);
      var ys := StreamPieces(model(detailedPrompt));
      yielded := Some(ys);
    }
  }
}
