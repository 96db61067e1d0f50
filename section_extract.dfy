/**
 * GenerationEngine.extract_sections: splits the model's output into its marked sections.
 *
 * "language" is the trimmed text before the first <|language_end|>; each of query_report,
 * source_analysis, draft and answer is the trimmed text between the first start marker and the
 * nearest end marker after it (a DOTALL, non-greedy `<|X_start|>(.*?)<|X_end|>` search); when
 * nothing was found the result is {"full_text": text}, untrimmed.
 */
module SectionExtract {
  import opened Wrappers
  import opened Text

  /** One entry of section_patterns: the key and the two markers around the section. */
  datatype Pattern = Pattern(name: string, open: string, close: string)

  const LANGUAGE_END := "<|language_end|>"
  const LANGUAGE := "language"
  const FULL_TEXT := "full_text"

  /** section_patterns, in the dict's iteration order. */
  const SECTION_PATTERNS := [
    Pattern("query_report", "<|query_report_start|>", "<|query_report_end|>"),
    Pattern("source_analysis", "<|source_analysis_start|>", "<|source_analysis_end|>"),
    Pattern("draft", "<|draft_start|>", "<|draft_end|>"),
    Pattern("answer", "<|answer_start|>", "<|answer_end|>")
  ]

  /** `p` occurs at `i` and nowhere before it. */
  predicate FirstAt(s: string, p: string, i: nat) {
    OccursAt(s, p, i) && forall k :: 0 <= k < i ==> !OccursAt(s, p, k)
  }

  /**
   * The span (content start, content end) of `re.search(open + "(.*?)" + close, text, re.DOTALL)`:
   * the content starts after the first `open` and ends at the nearest `close` after it.
   */
  function Span(text: string, open: string, close: string): (r: Option<(nat, nat)>)
    ensures r.Some? ==> r.value.0 <= r.value.1 <= |text|
  {
    match IndexOf(text, open, 0)
    case None => None
    case Some(i) =>
      match IndexOf(text, close, i + |open|)
      case None => None
      case Some(j) => Some((i + |open|, j))
  }

  /** A span starts right after the first `open` and ends at the nearest `close` after it. */
  lemma SpanFound(text: string, open: string, close: string)
    requires Span(text, open, close).Some?
    ensures var r := Span(text, open, close).value;
      && |open| <= r.0
      && FirstAt(text, open, r.0 - |open|)
      && OccursAt(text, close, r.1)
      && forall k :: r.0 <= k < r.1 ==> !OccursAt(text, close, k)
  {
    var i := IndexOf(text, open, 0).value;
    IndexOfSpec(text, open, 0);
    IndexOfSpec(text, close, i + |open|);
  }

  /** There is no span exactly when no `close` follows any `open`. */
  lemma SpanMissing(text: string, open: string, close: string)
    requires Span(text, open, close).None?
    ensures forall i: nat, j: nat :: OccursAt(text, open, i) && i + |open| <= j ==> !OccursAt(text, close, j)
  {
    IndexOfSpec(text, open, 0);
    if IndexOf(text, open, 0).Some? {
      var first := IndexOf(text, open, 0).value;
      IndexOfSpec(text, close, first + |open|);
      forall i: nat, j: nat | OccursAt(text, open, i) && i + |open| <= j
        ensures !OccursAt(text, close, j)
      {
        assert first <= i;
      }
    }
  }

  /** The value stored for a pattern that matched: group(1).strip(). */
  function SectionValue(text: string, p: Pattern): string
    requires Span(text, p.open, p.close).Some?
  {
    var span := Span(text, p.open, p.close).value;
    Strip(text[span.0..span.1])
  }

  /** The result after the language step: "language" when the marker `languageEnd` occurs. */
  function LanguageEntry(text: string, languageEnd: string): map<string, string> {
    match IndexOf(text, languageEnd, 0)
    case None => map[]
    case Some(e) => map[LANGUAGE := Strip(text[..e])]
  }

  /** One round of the pattern loop. */
  function AddSection(text: string, result: map<string, string>, p: Pattern): map<string, string> {
    if Span(text, p.open, p.close).Some? then result[p.name := SectionValue(text, p)] else result
  }

  /** The pattern loop over `patterns`, in order, starting from `result`. */
  function AddSections(text: string, result: map<string, string>, patterns: seq<Pattern>): map<string, string>
    decreases |patterns|
  {
    if patterns == [] then result
    else AddSection(text, AddSections(text, result, patterns[..|patterns| - 1]), patterns[|patterns| - 1])
  }

  /** The language step, the pattern loop over `patterns`, then the fallback. */
  function SectionsWith(text: string, languageEnd: string, patterns: seq<Pattern>): map<string, string> {
    var found := AddSections(text, LanguageEntry(text, languageEnd), patterns);
    if found == map[] then map[FULL_TEXT := text] else found
  }

  /** The dict extract_sections returns. */
  function Sections(text: string): map<string, string> {
    SectionsWith(text, LANGUAGE_END, SECTION_PATTERNS)
  }

  /** extract_sections: the language step, the pattern loop, then the fallback. */
  method ExtractSections(text: string) returns (result: map<string, string>)
    ensures result == Sections(text)
    ensures WellFormed(text, result)
  {
    result := map[];
    var languageEnd := IndexOf(text, LANGUAGE_END, 0);
    if languageEnd.Some? {
      result := result[LANGUAGE := Strip(text[..languageEnd.value])];
    }
    var base := result;
    for n := 0 to |SECTION_PATTERNS|
      invariant result == AddSections(text, base, SECTION_PATTERNS[..n])
    {
      var p := SECTION_PATTERNS[n];
      var span := Span(text, p.open, p.close);
      AddSectionsSnoc(text, base, SECTION_PATTERNS, n);
      if span.Some? {
        result := result[p.name := Strip(text[span.value.0..span.value.1])];
      }
    }
    assert SECTION_PATTERNS[..|SECTION_PATTERNS|] == SECTION_PATTERNS;
    if result == map[] {
      result := result[FULL_TEXT := text];
    }
    SectionsWellFormed(text);
  }

  lemma AddSectionsSnoc(text: string, base: map<string, string>, patterns: seq<Pattern>, n: nat)
    requires n < |patterns|
    ensures AddSections(text, base, patterns[..n + 1]) == AddSection(text, AddSections(text, base, patterns[..n]), patterns[n])
  {
    assert patterns[..n + 1][..n] == patterns[..n];
  }

  // ---------------------------------------------------------------------------
  // What the returned dict holds.

  /** No two patterns share a key, and none uses one of the reserved keys. */
  predicate DistinctNames(patterns: seq<Pattern>, reserved: set<string>) {
    && (forall i, j :: 0 <= i < j < |patterns| ==> patterns[i].name != patterns[j].name)
    && (forall i :: 0 <= i < |patterns| ==> patterns[i].name !in reserved)
  }

  /** The entries of `base` survive into `r`. */
  ghost predicate KeepsBase(base: map<string, string>, r: map<string, string>) {
    forall k :: k in base ==> k in r && r[k] == base[k]
  }

  /** Each pattern's key is in `r` exactly when it matched, with its trimmed section. */
  ghost predicate Describes(text: string, patterns: seq<Pattern>, r: map<string, string>) {
    forall i :: 0 <= i < |patterns| ==>
      && (patterns[i].name in r <==> Span(text, patterns[i].open, patterns[i].close).Some?)
      && (patterns[i].name in r ==> r[patterns[i].name] == SectionValue(text, patterns[i]))
  }

  /** Every key of `r` was in `base` or is a pattern's key. */
  ghost predicate KeysFrom(base: map<string, string>, patterns: seq<Pattern>, r: map<string, string>) {
    forall k :: k in r ==> k in base || exists i :: 0 <= i < |patterns| && patterns[i].name == k
  }

  /** What the pattern loop leaves in the dict. */
  ghost predicate PatternLoopResult(text: string, base: map<string, string>, patterns: seq<Pattern>, r: map<string, string>) {
    KeepsBase(base, r) && Describes(text, patterns, r) && KeysFrom(base, patterns, r)
  }

  lemma KeepsBaseStep(text: string, base: map<string, string>, last: Pattern, r: map<string, string>)
    requires last.name !in base
    requires KeepsBase(base, r)
    ensures KeepsBase(base, AddSection(text, r, last))
  {
  }

  lemma DescribesStep(text: string, init: seq<Pattern>, last: Pattern, r: map<string, string>)
    requires forall i :: 0 <= i < |init| ==> init[i].name != last.name
    requires last.name !in r
    requires Describes(text, init, r)
    ensures Describes(text, init + [last], AddSection(text, r, last))
  {
    var patterns := init + [last];
    var r' := AddSection(text, r, last);
    forall i | 0 <= i < |patterns|
      ensures && (patterns[i].name in r' <==> Span(text, patterns[i].open, patterns[i].close).Some?)
              && (patterns[i].name in r' ==> r'[patterns[i].name] == SectionValue(text, patterns[i]))
    {
      if i < |init| {
        assert patterns[i] == init[i] && init[i].name != last.name;
        assert init[i].name in r' <==> init[i].name in r;
      } else {
        assert patterns[i] == last;
      }
    }
  }

  lemma KeysFromStep(text: string, base: map<string, string>, init: seq<Pattern>, last: Pattern, r: map<string, string>)
    requires KeysFrom(base, init, r)
    ensures KeysFrom(base, init + [last], AddSection(text, r, last))
  {
    var patterns := init + [last];
    forall k | k in AddSection(text, r, last)
      ensures k in base || exists i :: 0 <= i < |patterns| && patterns[i].name == k
    {
      if k == last.name {
        assert patterns[|init|].name == k;
      } else if k !in base {
        var i :| 0 <= i < |init| && init[i].name == k;
        assert patterns[i].name == k;
      }
    }
  }

  /** A key that is neither in `base` nor a key of `init` is not in the loop's result yet. */
  lemma NotYetKey(base: map<string, string>, init: seq<Pattern>, last: Pattern, r: map<string, string>)
    requires KeysFrom(base, init, r)
    requires last.name !in base
    requires forall i :: 0 <= i < |init| ==> init[i].name != last.name
    ensures last.name !in r
  {
  }

  lemma {:induction false} AddSectionsResult(text: string, base: map<string, string>, patterns: seq<Pattern>)
    requires DistinctNames(patterns, base.Keys)
    ensures PatternLoopResult(text, base, patterns, AddSections(text, base, patterns))
    decreases |patterns|
  {
    if patterns != [] {
      var init := patterns[..|patterns| - 1];
      var last := patterns[|patterns| - 1];
      assert patterns == init + [last];
      assert DistinctNames(init, base.Keys);
      AddSectionsResult(text, base, init);
      var r := AddSections(text, base, init);
      assert forall i :: 0 <= i < |init| ==> init[i].name != last.name by {
        forall i | 0 <= i < |init|
          ensures init[i].name != last.name
        {
          assert patterns[i] == init[i] && patterns[|init|] == last;
        }
      }
      NotYetKey(base, init, last, r);
      KeepsBaseStep(text, base, last, r);
      DescribesStep(text, init, last, r);
      KeysFromStep(text, base, init, last, r);
    }
  }

  /** The dict the language step, the loop over `patterns` and the fallback return, described key by key. */
  ghost predicate WellFormedWith(text: string, languageEnd: string, patterns: seq<Pattern>, r: map<string, string>) {
    && (LANGUAGE in r <==> exists i: nat :: OccursAt(text, languageEnd, i))
    && (forall e: nat :: FirstAt(text, languageEnd, e) ==> LANGUAGE in r && r[LANGUAGE] == Strip(text[..e]))
    && Describes(text, patterns, r)
    && (FULL_TEXT in r <==> r == map[FULL_TEXT := text])
    && (FULL_TEXT in r <==>
          && (forall i: nat :: !OccursAt(text, languageEnd, i))
          && (forall i :: 0 <= i < |patterns| ==> Span(text, patterns[i].open, patterns[i].close).None?))
    && (forall k :: k in r ==> k == LANGUAGE || k == FULL_TEXT || exists i :: 0 <= i < |patterns| && patterns[i].name == k)
    && |r| > 0
  }

  /** The dict extract_sections returns, described key by key. */
  ghost predicate WellFormed(text: string, r: map<string, string>) {
    WellFormedWith(text, LANGUAGE_END, SECTION_PATTERNS, r)
  }

  lemma PatternsDistinct()
    ensures DistinctNames(SECTION_PATTERNS, {LANGUAGE, FULL_TEXT})
  {
    var ps := SECTION_PATTERNS;
    assert ps[0].name[0] == 'q' && ps[1].name[0] == 's' && ps[2].name[0] == 'd' && ps[3].name[0] == 'a';
    assert LANGUAGE[0] == 'l' && FULL_TEXT[0] == 'f';
  }

  lemma LanguageEntryFacts(text: string, languageEnd: string)
    ensures LanguageEntry(text, languageEnd).Keys <= {LANGUAGE}
    ensures LANGUAGE in LanguageEntry(text, languageEnd) <==> exists i: nat :: OccursAt(text, languageEnd, i)
    ensures forall e: nat :: FirstAt(text, languageEnd, e) ==>
      LANGUAGE in LanguageEntry(text, languageEnd) && LanguageEntry(text, languageEnd)[LANGUAGE] == Strip(text[..e])
  {
    var found := IndexOf(text, languageEnd, 0);
    IndexOfSpec(text, languageEnd, 0);
    if found.Some? {
      forall e: nat | FirstAt(text, languageEnd, e)
        ensures e == found.value
      {
      }
    }
  }

  /** After the loop: the language entry is kept, and nothing but known keys was added. */
  lemma FoundFacts(text: string, languageEnd: string, patterns: seq<Pattern>)
    requires DistinctNames(patterns, {LANGUAGE, FULL_TEXT})
    ensures var found := AddSections(text, LanguageEntry(text, languageEnd), patterns);
      && (LANGUAGE in found <==> exists i: nat :: OccursAt(text, languageEnd, i))
      && (forall e: nat :: FirstAt(text, languageEnd, e) ==> LANGUAGE in found && found[LANGUAGE] == Strip(text[..e]))
      && Describes(text, patterns, found)
      && FULL_TEXT !in found
      && (forall k :: k in found ==> k == LANGUAGE || exists i :: 0 <= i < |patterns| && patterns[i].name == k)
  {
    var base := LanguageEntry(text, languageEnd);
    LanguageEntryFacts(text, languageEnd);
    AddSectionsResult(text, base, patterns);
    var found := AddSections(text, base, patterns);
    assert LANGUAGE !in found ==> LANGUAGE !in base;
    assert LANGUAGE in found ==> LANGUAGE in base;
    assert FULL_TEXT !in found;
  }

  /** The loop found nothing exactly when no marker (pair) occurs. */
  lemma EmptyIffNothing(text: string, languageEnd: string, patterns: seq<Pattern>, found: map<string, string>)
    requires LANGUAGE in found <==> exists i: nat :: OccursAt(text, languageEnd, i)
    requires Describes(text, patterns, found)
    requires forall k :: k in found ==> k == LANGUAGE || exists i :: 0 <= i < |patterns| && patterns[i].name == k
    ensures found == map[] <==>
      && (forall i: nat :: !OccursAt(text, languageEnd, i))
      && (forall i :: 0 <= i < |patterns| ==> Span(text, patterns[i].open, patterns[i].close).None?)
  {
    if found != map[] {
      var k :| k in found;
      if k != LANGUAGE {
        var i :| 0 <= i < |patterns| && patterns[i].name == k;
        assert Span(text, patterns[i].open, patterns[i].close).Some?;
      }
    } else {
      forall i | 0 <= i < |patterns|
        ensures Span(text, patterns[i].open, patterns[i].close).None?
      {
        assert patterns[i].name !in found;
      }
    }
  }

  lemma SectionsWithWellFormed(text: string, languageEnd: string, patterns: seq<Pattern>)
    requires DistinctNames(patterns, {LANGUAGE, FULL_TEXT})
    ensures WellFormedWith(text, languageEnd, patterns, SectionsWith(text, languageEnd, patterns))
  {
    var found := AddSections(text, LanguageEntry(text, languageEnd), patterns);
    FoundFacts(text, languageEnd, patterns);
    EmptyIffNothing(text, languageEnd, patterns, found);
    if found == map[] {
      var r := map[FULL_TEXT := text];
      assert LANGUAGE !in r;
      forall i | 0 <= i < |patterns|
        ensures patterns[i].name !in r
      {
      }
    }
  }

  /**
   * Every key is present exactly when its marker (pair) occurs and holds the trimmed text
   * it marks; "full_text" appears, alone and untrimmed, exactly when nothing else was found.
   */
  lemma SectionsWellFormed(text: string)
    ensures WellFormed(text, Sections(text))
  {
    PatternsDistinct();
    SectionsWithWellFormed(text, LANGUAGE_END, SECTION_PATTERNS);
  }
}
