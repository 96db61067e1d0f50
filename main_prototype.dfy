/**
 * The older chat window's post-processing: prepare_for_format, which splits a generated text into
 * the source analysis and the answer, and the loop of display_format_references, which numbers the
 * cited hashes in order of first appearance and skips hashes absent from the search results.
 *
 * The search results are a parameter: `known` maps each hash of the result table to the url and
 * text of its first row. What the loop puts on screen is recorded as a sequence of `Element`s.
 */
module MainPrototype {
  import opened Wrappers
  import opened Text

  const ANALYSIS_END := "<|source_analysis_end|>"
  const ANSWER_START := "<|answer_start|>"
  const ANSWER_END := "<|answer_end|>"

  // ---------------------------------------------------------------------------
  // prepare_for_format

  /** prepare_for_format: (analysis, answer). */
  function PrepareForFormat(generated: string): (string, string) {
    var parts := Split(generated, ANALYSIS_END);
    if |parts| == 2 then
      (Strip(parts[0]), Strip(Replace(Replace(parts[1], ANSWER_START, ""), ANSWER_END, "")))
    else
      ("", generated)
  }

  /**
   * Splitting gives two parts exactly when the separator occurs once; the parts are then the text
   * before and the separator-free text after that occurrence, and the text is rebuilt from them.
   */
  lemma SplitInTwo(s: string, sep: string)
    requires |sep| > 0
    ensures |Split(s, sep)| == 2 <==> Count(s, sep) == 1
    ensures Count(s, sep) == 1 ==>
      && IndexOf(s, sep, 0).Some?
      && var i := IndexOf(s, sep, 0).value;
      && Split(s, sep) == [s[..i], s[i + |sep|..]]
      && IndexOf(s[i + |sep|..], sep, 0).None?
      && s == s[..i] + sep + s[i + |sep|..]
  {
    SplitCount(s, sep);
    if Count(s, sep) == 1 {
      var i := IndexOf(s, sep, 0).value;
      IndexOfSpec(s, sep, 0);
      Around(s, i, sep);
    }
  }

  /**
   * With exactly one end-of-analysis marker, the analysis is the trimmed text before it and the
   * answer the text after it without answer markers, trimmed; with none or several, the analysis
   * is empty and the answer is the whole text.
   */
  lemma PrepareForFormatSpec(generated: string)
    ensures Count(generated, ANALYSIS_END) == 1 ==>
      && IndexOf(generated, ANALYSIS_END, 0).Some?
      && var i := IndexOf(generated, ANALYSIS_END, 0).value;
      && var after := generated[i + |ANALYSIS_END|..];
      && generated == generated[..i] + ANALYSIS_END + after
      && IndexOf(after, ANALYSIS_END, 0).None?
      && PrepareForFormat(generated) == (Strip(generated[..i]), Strip(Replace(Replace(after, ANSWER_START, ""), ANSWER_END, "")))
    ensures Count(generated, ANALYSIS_END) != 1 ==> PrepareForFormat(generated) == ("", generated)
  {
    SplitInTwo(generated, ANALYSIS_END);
  }

  // ---------------------------------------------------------------------------
  // The reference tag `<ref name="([^"]+)">"([^"]+)"</ref>\.\s*`.

  /** A match: its length, group(1) (the hash) and group(2) (the quoted text). */
  datatype RefMatch = RefMatch(len: nat, hash: string, quoted: string)

  /** The class `[^"]`. */
  predicate NotQuote(c: char) {
    c != '"'
  }

  const REF_OPEN := "<ref name=\""
  const REF_MID := "\">\""
  const REF_CLOSE := "\"</ref>."

  /**
   * The match at the front of `u`, if any. Each `[^"]+` is greedy and must be followed by a quote,
   * so it ends at the first quote and no backtracking can change it; `\s*` takes every following
   * whitespace character.
   */
  function RefAt(u: string): Option<RefMatch> {
    if !OccursAt(u, REF_OPEN, 0) then None
    else
      var a := |REF_OPEN|;
      var h := Run(u, a, NotQuote);
      if h == 0 || !OccursAt(u, REF_MID, a + h) then None
      else
        var b := a + h + |REF_MID|;
        var q := Run(u, b, NotQuote);
        if q == 0 || !OccursAt(u, REF_CLOSE, b + q) then None
        else
          var e := b + q + |REF_CLOSE|;
          Some(RefMatch(e + Run(u, e, IsSpace), u[a..a + h], u[b..b + q]))
  }

  /** A match starts with the opening text, fits in `u`, and both groups are non-empty and quote-free. */
  lemma RefAtFacts(u: string)
    requires RefAt(u).Some?
    ensures var m := RefAt(u).value;
      && OccursAt(u, REF_OPEN, 0)
      && 0 < m.len <= |u|
      && |m.hash| > 0 && '"' !in m.hash
      && |m.quoted| > 0 && '"' !in m.quoted
  {
    var a := |REF_OPEN|;
    var h := Run(u, a, NotQuote);
    RunSpec(u, a, NotQuote);
    var b := a + h + |REF_MID|;
    RunSpec(u, b, NotQuote);
    var q := Run(u, b, NotQuote);
    RunSpec(u, b + q + |REF_CLOSE|, IsSpace);
    assert RefAt(u).value.hash == u[a..a + h];
    assert RefAt(u).value.quoted == u[b..b + q];
  }

  /** What the search needs of a pattern: its matches are not empty and fit. */
  ghost predicate RefMatcher(at: string -> Option<RefMatch>) {
    forall u {:trigger at(u)} :: at(u).Some? ==> 0 < at(u).value.len <= |u|
  }

  lemma RefAtMatcher()
    ensures RefMatcher(RefAt)
  {
    forall u | RefAt(u).Some?
      ensures 0 < RefAt(u).value.len <= |u|
    {
      RefAtFacts(u);
    }
  }

  /** re.finditer: the matches left to right, each search resuming where the previous match ended. */
  function Matches(at: string -> Option<RefMatch>, text: string, from: nat): seq<(nat, RefMatch)>
    requires RefMatcher(at)
    decreases |text| - from
  {
    match FindFirst(at, text, from)
    case None => []
    case Some((p, m)) =>
      FindFirstFound(at, text, from);
      [(p, m)] + Matches(at, text, p + m.len)
  }

  /** The matches of the reference tag in `text`. */
  function RefMatches(text: string): seq<(nat, RefMatch)> {
    RefAtMatcher();
    Matches(RefAt, text, 0)
  }

  /**
   * Each element is a match at its position; they come left to right without overlapping, and no
   * match starts in a gap between them or after the last one.
   */
  lemma {:induction false} MatchesSpec(at: string -> Option<RefMatch>, text: string, from: nat)
    requires RefMatcher(at)
    ensures var ms := Matches(at, text, from);
      && (forall i :: 0 <= i < |ms| ==> from <= ms[i].0 && ms[i].0 + ms[i].1.len <= |text| && at(text[ms[i].0..]) == Some(ms[i].1))
      && (forall i :: 0 <= i < |ms| - 1 ==> ms[i].0 + ms[i].1.len <= ms[i + 1].0)
      && (ms == [] ==> forall q :: from <= q < |text| ==> at(text[q..]).None?)
      && (ms != [] ==> forall q :: from <= q < ms[0].0 ==> at(text[q..]).None?)
    decreases |text| - from
  {
    match FindFirst(at, text, from)
    case None =>
      FindFirstMissing(at, text, from);
    case Some((p, m)) =>
      FindFirstFound(at, text, from);
      MatchesSpec(at, text, p + m.len);
  }

  // ---------------------------------------------------------------------------
  // display_format_references

  /** The url and text of the first search result with a given hash. */
  datatype Row = Row(url: string, text: string)

  /** An entry of seen_hashes. */
  datatype Entry = Entry(number: nat, url: string, text: string)

  /** What the loop shows: a reference with the text before it, or the closing label. */
  datatype Element =
    | Reference(before: string, hash: string, quoted: string, url: string, number: nat)
    | Label(text: string)

  /**
   * The loop's variables: seen_hashes, as its keys in insertion order and its entries; hash_count;
   * current_pos; and the elements shown so far.
   */
  datatype Numbering = Numbering(keys: seq<string>, seen: map<string, Entry>, hashCount: nat, currentPos: nat, shown: seq<Element>)

  const START := Numbering([], map[], 0, 0, [])

  /**
   * One match: skipped without any change when its hash is not among the search results;
   * otherwise numbered (a new hash gets the next number, a repeated one its earlier number) and
   * shown, and current_pos moves past it.
   */
  function Accept(text: string, known: map<string, Row>, st: Numbering, p: nat, m: RefMatch): Numbering {
    if m.hash !in known then st
    else
      var row := known[m.hash];
      var before := RStrip(PySlice(text, st.currentPos, p));
      if m.hash !in st.seen then
        var n := st.hashCount + 1;
        Numbering(st.keys + [m.hash], st.seen[m.hash := Entry(n, row.url, row.text)], n, p + m.len,
                  st.shown + [Reference(before, m.hash, Strip(m.quoted), row.url, n)])
      else
        Numbering(st.keys, st.seen, st.hashCount, p + m.len,
                  st.shown + [Reference(before, m.hash, Strip(m.quoted), row.url, st.seen[m.hash].number)])
  }

  /** The loop's variables after the matches `ms`. */
  function NumberRefs(text: string, known: map<string, Row>, ms: seq<(nat, RefMatch)>): Numbering
    decreases |ms|
  {
    if ms == [] then START
    else
      var last := ms[|ms| - 1];
      Accept(text, known, NumberRefs(text, known, ms[..|ms| - 1]), last.0, last.1)
  }

  /** The hashes of the matches that are among the search results, in order. */
  function Accepted(known: map<string, Row>, ms: seq<(nat, RefMatch)>): (r: seq<string>)
    ensures |r| <= |ms|
    decreases |ms|
  {
    if ms == [] then []
    else
      var init := Accepted(known, ms[..|ms| - 1]);
      var h := ms[|ms| - 1].1.hash;
      if h in known then init + [h] else init
  }

  /** The distinct elements of `hs` in order of first appearance. */
  function Firsts(hs: seq<string>): seq<string>
    decreases |hs|
  {
    if hs == [] then []
    else
      var init := Firsts(hs[..|hs| - 1]);
      var h := hs[|hs| - 1];
      if h in init then init else init + [h]
  }

  /** Firsts keeps every element once and nothing else. */
  lemma {:induction false} FirstsSpec(hs: seq<string>)
    ensures forall h :: h in Firsts(hs) <==> h in hs
    ensures forall i, j :: 0 <= i < j < |Firsts(hs)| ==> Firsts(hs)[i] != Firsts(hs)[j]
    decreases |hs|
  {
    if hs != [] {
      var init := hs[..|hs| - 1];
      FirstsSpec(init);
      assert hs == init + [hs[|hs| - 1]];
    }
  }

  /**
   * seen_hashes holds exactly the accepted hashes, in order of first appearance, numbered 1, 2, ...
   * in that order, with hash_count the number of entries; each entry has the url and text of its
   * search result.
   */
  lemma {:induction false} NumberRefsSeen(text: string, known: map<string, Row>, ms: seq<(nat, RefMatch)>)
    ensures var st := NumberRefs(text, known, ms);
      && st.keys == Firsts(Accepted(known, ms))
      && st.hashCount == |st.keys|
      && (forall h :: h in st.seen <==> h in st.keys)
      && (forall i :: 0 <= i < |st.keys| ==> st.keys[i] in st.seen && st.seen[st.keys[i]].number == i + 1)
      && (forall h :: h in st.seen ==> h in known && st.seen[h].url == known[h].url && st.seen[h].text == known[h].text)
    decreases |ms|
  {
    if ms != [] {
      NumberRefsSeen(text, known, ms[..|ms| - 1]);
    }
  }

  /**
   * One reference is shown per accepted match, in order; each shows the number its hash holds in
   * seen_hashes, so a repeated hash shows its earlier number, and the url of its search result.
   */
  lemma {:induction false} NumberRefsShown(text: string, known: map<string, Row>, ms: seq<(nat, RefMatch)>)
    ensures var st := NumberRefs(text, known, ms);
      && |st.shown| == |Accepted(known, ms)|
      && forall i :: 0 <= i < |st.shown| ==>
           && st.shown[i].Reference?
           && st.shown[i].hash == Accepted(known, ms)[i]
           && st.shown[i].hash in st.seen && st.shown[i].hash in known
           && st.shown[i].number == st.seen[st.shown[i].hash].number
           && st.shown[i].url == known[st.shown[i].hash].url
    decreases |ms|
  {
    if ms != [] {
      NumberRefsShown(text, known, ms[..|ms| - 1]);
      NumberRefsSeen(text, known, ms[..|ms| - 1]);
    }
  }

  /** The end of the last accepted match, or 0 when there is none. */
  function AcceptedEnd(known: map<string, Row>, ms: seq<(nat, RefMatch)>): nat
    decreases |ms|
  {
    if ms == [] then 0
    else
      var last := ms[|ms| - 1];
      if last.1.hash in known then last.0 + last.1.len else AcceptedEnd(known, ms[..|ms| - 1])
  }

  /** current_pos moves past accepted matches only: a skipped match leaves it where it was. */
  lemma {:induction false} NumberRefsPos(text: string, known: map<string, Row>, ms: seq<(nat, RefMatch)>)
    ensures NumberRefs(text, known, ms).currentPos == AcceptedEnd(known, ms)
    decreases |ms|
  {
    if ms != [] {
      NumberRefsPos(text, known, ms[..|ms| - 1]);
    }
  }

  /** The loop over the matches of `at`, then the label with the rest of the text. */
  method NumberReferences(at: string -> Option<RefMatch>, text: string, known: map<string, Row>)
    returns (keys: seq<string>, seenHashes: map<string, Entry>, shown: seq<Element>)
    requires RefMatcher(at)
    ensures var st := NumberRefs(text, known, Matches(at, text, 0));
      && keys == st.keys && seenHashes == st.seen
      && shown == st.shown + [Label(PySlice(text, st.currentPos, |text|))]
  {
    var ms := Matches(at, text, 0);
    keys := [];
    seenHashes := map[];
    var hashCount: nat := 0;
    var currentPos: nat := 0;
    shown := [];
    for k := 0 to |ms|
      invariant Numbering(keys, seenHashes, hashCount, currentPos, shown) == NumberRefs(text, known, ms[..k])
    {
      var (start, m) := ms[k];
      assert ms[..k + 1][..k] == ms[..k];
      var textBefore := RStrip(PySlice(text, currentPos, start));
      var currentHash := m.hash;
      if currentHash !in known {
        continue;
      }
      var row := known[currentHash];
      var hashNumber;
      if currentHash !in seenHashes {
        hashCount := hashCount + 1;
        hashNumber := hashCount;
        seenHashes := seenHashes[currentHash := Entry(hashNumber, row.url, row.text)];
        keys := keys + [currentHash];
      } else {
        hashNumber := seenHashes[currentHash].number;
      }
      var quotedText := Strip(m.quoted);
      shown := shown + [Reference(textBefore, currentHash, quotedText, row.url, hashNumber)];
      currentPos := start + m.len;
    }
    assert ms[..|ms|] == ms;
    shown := shown + [Label(PySlice(text, currentPos, |text|))];
  }

  /** display_format_references: returns seen_hashes (keys in insertion order, and entries). */
  method DisplayFormatReferences(text: string, known: map<string, Row>)
    returns (keys: seq<string>, seenHashes: map<string, Entry>, shown: seq<Element>)
    ensures var st := NumberRefs(text, known, RefMatches(text));
      && keys == st.keys && seenHashes == st.seen
      && shown == st.shown + [Label(PySlice(text, st.currentPos, |text|))]
  {
    RefAtMatcher();
    keys, seenHashes, shown := NumberReferences(RefAt, text, known);
  }
}
