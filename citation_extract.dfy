/**
 * GenerationEngine.extract_citations: rewrites every `<ref name="<|source_id|>N">text</ref>` tag of
 * an answer, leftmost first, into a sequential `[k]`, records what each tag cited, and appends a
 * "**Citations**" listing.
 *
 * The regular expression `<ref name="(?:<\|source_id\|>)?(\d+)">(.*?)<\/ref>` (without DOTALL) is
 * modelled by TagAt, which reads one tag off the front of a string, and FindTag, the leftmost
 * position where TagAt succeeds.
 */
module CitationExtract {
  import opened Wrappers
  import opened Text

  /** The literal parts of a citation tag. */
  datatype RefSyntax = RefSyntax(open: string, sourceId: string, quote: string, close: string)

  /** `<ref name="`, the optional `<|source_id|>`, `">` and `</ref>`. */
  const REF := RefSyntax("<ref name=\"", "<|source_id|>", "\">", "</ref>")

  /** What the tag syntax must satisfy for the rewrite to terminate and for a tag to be read locally. */
  predicate ValidSyntax(syn: RefSyntax) {
    && |syn.open| > 0 && syn.open[0] == '<'
    && |syn.sourceId| > 0 && !IsDigit(syn.sourceId[0])
    && |syn.quote| > 0 && !IsDigit(syn.quote[0])
    && |syn.close| > 0
  }

  /** One matched tag: the length of the whole match, group(1) and group(2). */
  datatype Tag = Tag(len: nat, sourceId: string, body: string)

  /** All characters of `s` are ASCII digits. */
  predicate AllDigits(s: string) {
    forall i :: 0 <= i < |s| ==> IsDigit(s[i])
  }

  /** The length of the optional `(?:<\|source_id\|>)?` group at index `i` of `u`. */
  function SourcePrefix(syn: RefSyntax, u: string, i: nat): nat {
    if OccursAt(u, syn.sourceId, i) then |syn.sourceId| else 0
  }

  /** `(\d+)">` at index `i`: the length of the greedy digit run, when it is non-empty and the quote follows. */
  function DigitsThenQuote(syn: RefSyntax, u: string, i: nat): (r: Option<nat>)
    requires i <= |u|
  {
    var d := Run(u, i, IsDigit);
    if d > 0 && OccursAt(u, syn.quote, i + d) then Some(d) else None
  }

  /** No newline in `u[i..j]`, checked character by character (`.` does not match a newline). */
  predicate NewlineFree(u: string, i: nat, j: nat)
    requires i <= j <= |u|
    decreases j - i
  {
    i == j || (u[i] != '\n' && NewlineFree(u, i + 1, j))
  }

  lemma {:induction false} NewlineFreeIn(u: string, i: nat, j: nat)
    requires i <= j <= |u|
    ensures NewlineFree(u, i, j) <==> '\n' !in u[i..j]
    decreases j - i
  {
    if i < j {
      NewlineFreeIn(u, i + 1, j);
      assert u[i..j] == [u[i]] + u[i + 1..j];
    }
  }

  /**
   * `(.*?)</ref>` without DOTALL, from index `i`: the body ends at the first closing tag, and the
   * match fails when a newline comes first.
   */
  function BodyEnd(syn: RefSyntax, u: string, i: nat): (r: Option<nat>)
  {
    match IndexOf(u, syn.close, i)
    case None => None
    case Some(j) => if NewlineFree(u, i, j) then Some(j) else None
  }

  /** Where the parts of a tag at the front of `u` lie: the start of the digits, their count and the start of the closing tag. */
  datatype Layout = Layout(digits: nat, count: nat, closeAt: nat)

  /**
   * The regex match starting at the front of `u`, located. The optional prefix is taken whenever
   * present (without it the digit group would have to start at a non-digit); `\d+` is greedy and
   * `(.*?)` ends at the first closing tag.
   */
  function TagLayout(syn: RefSyntax, u: string): Option<Layout> {
    if !ValidSyntax(syn) || !OccursAt(u, syn.open, 0) then None
    else LayoutFrom(syn, u, |syn.open| + SourcePrefix(syn, u, |syn.open|))
  }

  /** The digits, the quote, the body and the closing tag, from index `k1` of `u`. */
  function LayoutFrom(syn: RefSyntax, u: string, k1: nat): Option<Layout> {
    if k1 > |u| then None
    else
      match DigitsThenQuote(syn, u, k1)
      case None => None
      case Some(d) =>
        match BodyEnd(syn, u, k1 + d + |syn.quote|)
        case None => None
        case Some(j) => Some(Layout(k1, d, j))
  }

  /** What a located tag satisfies: each stage matched where the previous one ended. */
  lemma LayoutFacts(syn: RefSyntax, u: string, l: Layout)
    requires TagLayout(syn, u) == Some(l)
    ensures ValidSyntax(syn) && OccursAt(u, syn.open, 0)
    ensures l.digits == |syn.open| + SourcePrefix(syn, u, |syn.open|) <= |u|
    ensures DigitsThenQuote(syn, u, l.digits) == Some(l.count)
    ensures BodyEnd(syn, u, l.digits + l.count + |syn.quote|) == Some(l.closeAt)
    ensures l.digits + l.count + |syn.quote| <= l.closeAt && l.closeAt + |syn.close| <= |u|
    ensures l.count > 0 && IsDigit(u[l.digits]) && LayoutFrom(syn, u, l.digits) == Some(l)
  {
  }

  /** The parts of a located tag lie in order within `u`. */
  lemma LayoutBounds(syn: RefSyntax, u: string, l: Layout)
    requires TagLayout(syn, u) == Some(l)
    ensures l.digits + l.count + |syn.quote| <= l.closeAt && l.closeAt + |syn.close| <= |u|
  {
    LayoutFacts(syn, u, l);
  }

  /** The regex match at the front of `u`, if any: its length, group(1) and group(2). */
  function TagAt(syn: RefSyntax, u: string): Option<Tag> {
    match TagLayout(syn, u)
    case None => None
    case Some(l) =>
      LayoutBounds(syn, u, l);
      Some(Tag(l.closeAt + |syn.close|, u[l.digits..l.digits + l.count], u[l.digits + l.count + |syn.quote|..l.closeAt]))
  }

  /** TagAt reads the parts TagLayout located. */
  lemma TagAtOf(syn: RefSyntax, u: string, l: Layout)
    requires TagLayout(syn, u) == Some(l)
    ensures l.digits + l.count + |syn.quote| <= l.closeAt && l.closeAt + |syn.close| <= |u|
    ensures TagAt(syn, u) == Some(Tag(l.closeAt + |syn.close|, u[l.digits..l.digits + l.count], u[l.digits + l.count + |syn.quote|..l.closeAt]))
  {
    LayoutBounds(syn, u, l);
  }

  /**
   * A matched tag starts with `<ref name="`, lies within the text, carries a non-empty run of
   * digits as its source id and has no newline in its body.
   */
  lemma TagFacts(syn: RefSyntax, u: string)
    requires TagAt(syn, u).Some?
    ensures var t := TagAt(syn, u).value;
      && |syn.open| <= t.len <= |u|
      && OccursAt(u, syn.open, 0)
      && |t.sourceId| > 0 && AllDigits(t.sourceId)
      && '\n' !in t.body
  {
    var l := TagLayout(syn, u).value;
    LayoutFacts(syn, u, l);
    RunSpec(u, l.digits, IsDigit);
    NewlineFreeIn(u, l.digits + l.count + |syn.quote|, l.closeAt);
  }

  /** The text between `b` and the first occurrence of a marker after `b` does not contain it. */
  lemma NoCloseBefore(c: string, close: string, b: nat, j: nat)
    requires |close| > 0
    requires IndexOf(c, close, b) == Some(j)
    ensures IndexOf(c[b..j], close, 0).None?
  {
    IndexOfSpec(c, close, b);
    var d := c[b..j];
    forall q: nat | q + |close| <= |d|
      ensures !OccursAt(d, close, q)
    {
      OccursInSlice(c, b, d, close, q);
    }
    IndexOfSpec(d, close, 0);
  }

  /** `(.*?)</ref>` is lazy: the body of a tag holds no closing tag. */
  lemma TagBodyHasNoClose(syn: RefSyntax, u: string)
    requires TagAt(syn, u).Some?
    ensures IndexOf(TagAt(syn, u).value.body, syn.close, 0).None?
  {
    var l := TagLayout(syn, u).value;
    LayoutFacts(syn, u, l);
    TagAtOf(syn, u, l);
    var b := l.digits + l.count + |syn.quote|;
    assert IndexOf(u, syn.close, b) == Some(l.closeAt);
    NoCloseBefore(u, syn.close, b, l.closeAt);
  }


  /** re.search's match when it starts at `p`. */
  function CitationAt(syn: RefSyntax, s: string, p: nat): Option<Tag>
    requires p <= |s|
  {
    TagAt(syn, s[p..])
  }

  /** re.search from `from`: the leftmost position where a tag matches. */
  function FindTag(syn: RefSyntax, s: string, from: nat): Option<(nat, Tag)>
    decreases |s| - from
  {
    if from > |s| then None
    else
      match CitationAt(syn, s, from)
      case Some(t) => Some((from, t))
      case None => FindTag(syn, s, from + 1)
  }

  /** FindTag returns the leftmost position where a tag matches, or None when there is none. */
  lemma {:induction false} FindTagSpec(syn: RefSyntax, s: string, from: nat)
    ensures var r := FindTag(syn, s, from);
      && (r.Some? ==>
           && from <= r.value.0 <= |s|
           && CitationAt(syn, s, r.value.0) == Some(r.value.1)
           && forall q :: from <= q < r.value.0 ==> CitationAt(syn, s, q).None?)
      && (r.None? ==> forall q :: from <= q <= |s| ==> CitationAt(syn, s, q).None?)
    decreases |s| - from
  {
    if from <= |s| && CitationAt(syn, s, from).None? {
      FindTagSpec(syn, s, from + 1);
    }
  }

  // ---------------------------------------------------------------------------
  // A match depends only on the text it covers.

  /** `x` and `y` have the same first `n` characters. */
  predicate Agree(x: string, y: string, n: nat) {
    n <= |x| && n <= |y| && forall k :: 0 <= k < n ==> x[k] == y[k]
  }

  lemma AgreeSlice(x: string, y: string, n: nat, i: nat, k: nat)
    requires Agree(x, y, n) && i <= k <= n
    ensures x[i..k] == y[i..k]
  {
  }

  lemma AgreeOccurs(x: string, y: string, n: nat, p: string, i: nat)
    requires Agree(x, y, n) && i + |p| <= n
    ensures OccursAt(x, p, i) <==> OccursAt(y, p, i)
  {
    AgreeSlice(x, y, n, i, i + |p|);
  }

  lemma AgreeRun(x: string, y: string, n: nat, i: nat, d: nat)
    requires Agree(x, y, n) && i + d < n
    requires Run(x, i, IsDigit) == d
    ensures Run(y, i, IsDigit) == d
  {
    RunSpec(x, i, IsDigit);
    RunSpec(y, i, IsDigit);
    assert forall k :: i <= k <= i + d ==> x[k] == y[k];
  }

  lemma AgreeIndexOf(x: string, y: string, n: nat, p: string, from: nat, j: nat)
    requires Agree(x, y, n) && j + |p| <= n
    requires IndexOf(x, p, from) == Some(j)
    ensures IndexOf(y, p, from) == Some(j)
  {
    IndexOfSpec(x, p, from);
    AgreeOccurs(x, y, n, p, j);
    forall q | from <= q < j
      ensures !OccursAt(y, p, q)
    {
      AgreeOccurs(x, y, n, p, q);
    }
    IndexOfFirst(y, p, from, j);
  }

  lemma AgreeSourcePrefix(syn: RefSyntax, u: string, v: string, n: nat, i: nat)
    requires ValidSyntax(syn) && Agree(u, v, n)
    requires SourcePrefix(syn, u, i) > 0 ==> i + |syn.sourceId| <= n
    requires SourcePrefix(syn, u, i) == 0 ==> i < n && IsDigit(u[i])
    ensures SourcePrefix(syn, v, i) == SourcePrefix(syn, u, i)
  {
    if SourcePrefix(syn, u, i) > 0 {
      AgreeOccurs(u, v, n, syn.sourceId, i);
    }
  }

  lemma AgreeDigitsThenQuote(syn: RefSyntax, u: string, v: string, n: nat, i: nat, d: nat)
    requires Agree(u, v, n) && i <= |u| && i <= |v|
    requires DigitsThenQuote(syn, u, i) == Some(d) && i + d + |syn.quote| <= n && |syn.quote| > 0
    ensures DigitsThenQuote(syn, v, i) == Some(d)
  {
    AgreeRun(u, v, n, i, d);
    AgreeOccurs(u, v, n, syn.quote, i + d);
  }

  lemma {:induction false} AgreeNewlineFree(x: string, y: string, n: nat, i: nat, j: nat)
    requires Agree(x, y, n) && i <= j <= n
    ensures NewlineFree(x, i, j) <==> NewlineFree(y, i, j)
    decreases j - i
  {
    if i < j {
      AgreeNewlineFree(x, y, n, i + 1, j);
    }
  }

  lemma AgreeBodyEnd(syn: RefSyntax, u: string, v: string, n: nat, i: nat, j: nat)
    requires Agree(u, v, n)
    requires BodyEnd(syn, u, i) == Some(j) && j + |syn.close| <= n
    ensures BodyEnd(syn, v, i) == Some(j)
  {
    AgreeIndexOf(u, v, n, syn.close, i, j);
    AgreeNewlineFree(u, v, n, i, j);
  }

  /** The layout of a tag depends only on the characters the tag covers. */
  lemma LayoutPrefix(syn: RefSyntax, u: string, v: string, l: Layout)
    requires TagLayout(syn, u) == Some(l)
    requires Agree(u, v, l.closeAt + |syn.close|)
    ensures TagLayout(syn, v) == Some(l)
  {
    var n := l.closeAt + |syn.close|;
    LayoutFacts(syn, u, l);
    AgreeOccurs(u, v, n, syn.open, 0);
    AgreeSourcePrefix(syn, u, v, n, |syn.open|);
    LayoutFromPrefix(syn, u, v, l);
  }

  lemma LayoutFromPrefix(syn: RefSyntax, u: string, v: string, l: Layout)
    requires |syn.quote| > 0
    requires LayoutFrom(syn, u, l.digits) == Some(l)
    requires Agree(u, v, l.closeAt + |syn.close|)
    ensures LayoutFrom(syn, v, l.digits) == Some(l)
  {
    var n := l.closeAt + |syn.close|;
    AgreeDigitsThenQuote(syn, u, v, n, l.digits, l.count);
    AgreeBodyEnd(syn, u, v, n, l.digits + l.count + |syn.quote|, l.closeAt);
  }

  /**
   * A tag is read the same from any text that starts with the characters it covers: the match
   * does not look past its own end.
   */
  lemma TagPrefix(syn: RefSyntax, u: string, v: string, t: Tag)
    requires TagAt(syn, u) == Some(t)
    requires Agree(u, v, t.len)
    ensures TagAt(syn, v) == Some(t)
  {
    var l := TagLayout(syn, u).value;
    LayoutBounds(syn, u, l);
    LayoutPrefix(syn, u, v, l);
    var b := l.digits + l.count + |syn.quote|;
    AgreeSlice(u, v, t.len, l.digits, l.digits + l.count);
    AgreeSlice(u, v, t.len, b, l.closeAt);
    SameTag(syn, u, v, l);
  }

  /** Two texts with the same layout and the same characters in its groups hold the same tag. */
  lemma SameTag(syn: RefSyntax, u: string, v: string, l: Layout)
    requires TagLayout(syn, u) == Some(l) && TagLayout(syn, v) == Some(l)
    requires l.digits + l.count + |syn.quote| <= l.closeAt && l.closeAt + |syn.close| <= |u| && l.closeAt + |syn.close| <= |v|
    requires u[l.digits..l.digits + l.count] == v[l.digits..l.digits + l.count]
    requires u[l.digits + l.count + |syn.quote|..l.closeAt] == v[l.digits + l.count + |syn.quote|..l.closeAt]
    ensures TagAt(syn, u) == TagAt(syn, v)
  {
    TagAtOf(syn, u, l);
    TagAtOf(syn, v, l);
  }

  // ---------------------------------------------------------------------------
  // `clean_text.replace(full_match, "[k]", 1)` replaces the match itself.

  /** The matched tag at `p` lies in `s` and starts with the `<` of its opening. */
  lemma MatchFacts(syn: RefSyntax, s: string, p: nat, t: Tag)
    requires FindTag(syn, s, 0) == Some((p, t))
    ensures p + t.len <= |s| && t.len > 0
    ensures s[p] == '<' && OccursAt(s, s[p..p + t.len], p)
    ensures |t.sourceId| > 0 && AllDigits(t.sourceId) && '\n' !in t.body
  {
    FindTagSpec(syn, s, 0);
    TagFacts(syn, s[p..]);
    var l := TagLayout(syn, s[p..]).value;
    LayoutFacts(syn, s[p..], l);
    assert s[p] == s[p..][0];
  }

  /** Where the matched text occurs again, the text there agrees with the text at the match. */
  lemma AgreeAtOccurrence(s: string, m: string, p: nat, q: nat)
    requires p + |m| <= |s| && m == s[p..p + |m|]
    requires OccursAt(s, m, q)
    ensures Agree(s[p..], s[q..], |m|)
  {
    forall k | 0 <= k < |m|
      ensures s[p..][k] == s[q..][k]
    {
      assert s[q..q + |m|][k] == m[k];
    }
  }

  /**
   * The first occurrence of the matched text is the match: an earlier occurrence would be read
   * as a tag there, and the search is leftmost.
   */
  lemma MatchIsFirstOccurrence(syn: RefSyntax, s: string, p: nat, t: Tag)
    requires FindTag(syn, s, 0) == Some((p, t))
    ensures p + t.len <= |s|
    ensures IndexOf(s, s[p..p + t.len], 0) == Some(p)
  {
    FindTagSpec(syn, s, 0);
    MatchFacts(syn, s, p, t);
    var m := s[p..p + t.len];
    forall q | 0 <= q < p
      ensures OccursAt(s, m, q) ==> CitationAt(syn, s, q) == Some(t)
    {
      RepeatedMatch(syn, s, p, t, q);
    }
    IndexOfFirst(s, m, 0, p);
  }

  /** Wherever the text of a match occurs again, a tag is read there too. */
  lemma RepeatedMatch(syn: RefSyntax, s: string, p: nat, t: Tag, q: nat)
    requires p + t.len <= |s| && q <= |s|
    requires CitationAt(syn, s, p) == Some(t)
    ensures OccursAt(s, s[p..p + t.len], q) ==> CitationAt(syn, s, q) == Some(t)
  {
    var m := s[p..p + t.len];
    if OccursAt(s, m, q) {
      AgreeAtOccurrence(s, m, p, q);
      TagPrefix(syn, s[p..], s[q..], t);
    }
  }

  /** `f"[{n}]"` */
  function Label(n: nat): (r: string)
    ensures '<' !in r && '\n' !in r
  {
    var digits := NatToString(n);
    assert forall i :: 0 <= i < |digits| ==> IsDigit(digits[i]);
    "[" + digits + "]"
  }

  /** One step of the loop: the tag at `p` becomes `[n]` and the rest of the text is kept. */
  lemma ReplaceStep(syn: RefSyntax, s: string, p: nat, t: Tag, n: nat)
    requires FindTag(syn, s, 0) == Some((p, t))
    ensures 0 < t.len && p + t.len <= |s|
    ensures ReplaceFirst(s, s[p..p + t.len], Label(n)) == Spliced(s, p, t, n)
    ensures multiset(ReplaceFirst(s, s[p..p + t.len], Label(n)))['<'] < multiset(s)['<']
  {
    MatchFacts(syn, s, p, t);
    MatchIsFirstOccurrence(syn, s, p, t);
    ReplaceFirstAt(s, s[p..p + t.len], Label(n), p);
    ReplaceFirstLowers(s, s[p..p + t.len], Label(n), '<');
  }

  // ---------------------------------------------------------------------------
  // supported_text

  /** The sentence boundaries searched backwards from a tag. */
  const BOUNDARIES := [". ", "! ", "? ", "\n"]

  /** `max(before.rfind(m) for m in marks)`, with -1 when `marks` is empty or none occurs. */
  function LastBoundary(before: string, marks: seq<string>): (b: int)
    ensures -1 <= b <= |before|
  {
    if marks == [] then -1
    else Max(LastBoundary(before, marks[..|marks| - 1]), LastIndexOf(before, marks[|marks| - 1]))
  }

  /** The last boundary is the greatest position where some mark occurs, or -1 when none does. */
  lemma {:induction false} LastBoundarySpec(before: string, marks: seq<string>)
    ensures var b := LastBoundary(before, marks);
      && (forall i, j: nat :: 0 <= i < |marks| && b < j ==> !OccursAt(before, marks[i], j))
      && (b >= 0 ==> exists i :: 0 <= i < |marks| && OccursAt(before, marks[i], b))
  {
    if marks != [] {
      var init := marks[..|marks| - 1];
      LastBoundarySpec(before, init);
      LastIndexOfSpec(before, marks[|marks| - 1]);
      assert forall i :: 0 <= i < |init| ==> marks[i] == init[i];
    }
  }

  /** The context a citation supports, given the last boundary `b` of the text before it (or -1). */
  function SupportedText(before: string, marks: seq<string>): string {
    SupportedAfter(before, LastBoundary(before, marks))
  }

  /**
   * The stripped text from two characters past the boundary at `b`, whatever the boundary's length,
   * or the stripped last 150 characters when `b` is -1.
   */
  function SupportedAfter(before: string, b: int): string
    requires -1 <= b
  {
    if b == -1 then Strip(before[|before| - Min(150, |before|)..])
    else Strip(PySlice(before, b + 2, |before|))
  }

  /** The start of the text SupportedAfter strips. */
  function SupportedStart(before: string, b: int): (c: nat)
    requires -1 <= b
    ensures c > b
  {
    if b == -1 then |before| - Min(150, |before|) else b + 2
  }

  /** The supported text is the stripped text from SupportedStart on, or empty when that lies past the end. */
  lemma SupportedFrom(before: string, b: int)
    requires -1 <= b
    ensures var c := SupportedStart(before, b);
      SupportedAfter(before, b) == if c <= |before| then Strip(before[c..]) else []
  {
    if b != -1 {
      if b + 2 <= |before| {
        assert PySlice(before, b + 2, |before|) == before[b + 2..];
      } else {
        assert PySlice(before, b + 2, |before|) == [];
      }
    }
  }

  /** The supported text is no longer than the text before the tag, and at most 150 characters when no boundary occurs. */
  lemma SupportedTextLength(before: string, marks: seq<string>)
    ensures |SupportedText(before, marks)| <= |before|
    ensures LastBoundary(before, marks) == -1 ==> |SupportedText(before, marks)| <= 150
  {
    SupportedFrom(before, LastBoundary(before, marks));
  }

  /** A piece of a suffix is a piece of the whole string. */
  lemma PieceOfSuffix(s: string, c: nat, r: string, a: nat) returns (start: nat)
    requires c <= |s| && a + |r| <= |s| - c && r == s[c..][a..a + |r|]
    ensures c <= start && start + |r| <= |s| && r == s[start..start + |r|]
  {
    start := c + a;
    assert s[c..][a..a + |r|] == s[start..start + |r|];
  }

  /** Stripping a suffix leaves a piece of the whole string that starts no earlier than the suffix. */
  lemma StripSuffix(s: string, c: nat) returns (start: nat)
    requires c <= |s|
    ensures var r := Strip(s[c..]); c <= start && start + |r| <= |s| && r == s[start..start + |r|]
  {
    var a := StripInfix(s[c..]);
    start := PieceOfSuffix(s, c, Strip(s[c..]), a);
  }

  /** When the boundary lies inside the text, the supported text is a piece of the text after it. */
  lemma SupportedIsSlice(before: string, b: int) returns (start: nat)
    requires -1 <= b && SupportedStart(before, b) <= |before|
    ensures var r := SupportedAfter(before, b);
      b < start && start + |r| <= |before| && r == before[start..start + |r|]
  {
    var c := SupportedStart(before, b);
    SupportedFrom(before, b);
    start := StripSuffix(before, c);
  }

  /** An occurrence inside a slice is an occurrence in the whole string, and conversely. */
  lemma OccursInSlice(s: string, start: nat, r: string, mark: string, i: nat)
    requires start + |r| <= |s| && r == s[start..start + |r|]
    ensures OccursAt(r, mark, i) <==> i + |mark| <= |r| && OccursAt(s, mark, start + i)
  {
    if i + |mark| <= |r| {
      var x, y := r[i..i + |mark|], s[start + i..start + i + |mark|];
      forall k | 0 <= k < |mark|
        ensures x[k] == y[k]
      {
        assert r[i + k] == s[start + i + k];
      }
      assert x == y;
    }
  }

  /** The supported text never contains a sentence boundary. */
  lemma SupportedTextHasNoBoundary(before: string, marks: seq<string>, k: nat)
    requires k < |marks| && |marks[k]| > 0
    ensures forall i: nat :: !OccursAt(SupportedText(before, marks), marks[k], i)
  {
    var r := SupportedText(before, marks);
    var b := LastBoundary(before, marks);
    if SupportedStart(before, b) <= |before| {
      var start := SupportedIsSlice(before, b);
      LastBoundarySpec(before, marks);
      forall i: nat
        ensures !OccursAt(r, marks[k], i)
      {
        OccursInSlice(before, start, r, marks[k], i);
      }
    } else {
      SupportedFrom(before, b);
    }
  }

  /**
   * After a newline boundary the character following the newline is dropped too: the `+ 2` meant
   * for `". "` is applied to the one-character `"\n"`.
   */
  lemma NewlineBoundarySkipsOne(x: string, c: char, y: string, marks: seq<string>)
    requires "\n" in marks
    requires forall i, j :: 0 <= i < |marks| && |x| < j ==> !OccursAt(x + "\n" + [c] + y, marks[i], j)
    ensures SupportedText(x + "\n" + [c] + y, marks) == Strip(y)
  {
    var before := x + "\n" + [c] + y;
    var k :| 0 <= k < |marks| && marks[k] == "\n";
    assert OccursAt(before, marks[k], |x|) by {
      assert before[|x|..|x| + 1] == "\n";
    }
    var b := LastBoundary(before, marks);
    LastBoundarySpec(before, marks);
    assert b == |x|;
    assert PySlice(before, b + 2, |before|) == y;
  }

  // ---------------------------------------------------------------------------
  // The rewrite loop and the listing.

  /** One entry of the `citations` list. */
  datatype Citation = Citation(number: nat, sourceId: string, citedText: string, supportedText: string)

  /** The returned dictionary: `clean_text` and `citations`. */
  datatype Extracted = Extracted(cleanText: string, citations: seq<Citation>)

  /** A matched tag and the working text before it, as one pass of the loop sees them. */
  datatype Hit = Hit(before: string, tag: Tag)

  /**
   * What the loop computes from working text `s` once `count` tags have been replaced: the final
   * working text and the tags still to be matched.
   */
  function Rewrite(syn: RefSyntax, s: string, count: nat): (string, seq<Hit>)
    decreases multiset(s)['<']
  {
    match FindTag(syn, s, 0)
    case None => (s, [])
    case Some((p, t)) =>
      ReplaceStep(syn, s, p, t, count + 1);
      var rest := Rewrite(syn, Spliced(s, p, t, count + 1), count + 1);
      (rest.0, [Hit(s[..p], t)] + rest.1)
  }

  /** The working text after the tag at `p` has become `[n]`. */
  function Spliced(s: string, p: nat, t: Tag, n: nat): string
    requires p + t.len <= |s|
  {
    s[..p] + Label(n) + s[p + t.len..]
  }

  /** The record the loop appends for its `n`-th match. */
  function Record(n: nat, h: Hit): Citation {
    Citation(n, h.tag.sourceId, h.tag.body, SupportedText(h.before, BOUNDARIES))
  }

  /** The records of `hits`, numbered from `first` in the order the tags were matched. */
  function Records(hits: seq<Hit>, first: nat): seq<Citation>
    decreases |hits|
  {
    if hits == [] then [] else [Record(first, hits[0])] + Records(hits[1..], first + 1)
  }

  /** The `i`-th record is numbered `first + i` and carries the `i`-th tag's source id and body. */
  lemma {:induction false} RecordsFacts(hits: seq<Hit>, first: nat)
    ensures var cs := Records(hits, first);
      && |cs| == |hits|
      && forall i :: 0 <= i < |cs| ==>
           cs[i].number == first + i && cs[i].sourceId == hits[i].tag.sourceId && cs[i].citedText == hits[i].tag.body
    decreases |hits|
  {
    if hits != [] {
      RecordsFacts(hits[1..], first + 1);
    }
  }

  lemma RecordsCons(h: Hit, hits: seq<Hit>, first: nat)
    ensures Records([h] + hits, first) == [Record(first, h)] + Records(hits, first + 1)
  {
    assert ([h] + hits)[1..] == hits;
  }

  /** One step of Rewrite. */
  lemma RewriteStep(syn: RefSyntax, s: string, p: nat, t: Tag, count: nat)
    requires FindTag(syn, s, 0) == Some((p, t))
    ensures p + t.len <= |s|
    ensures var next := Spliced(s, p, t, count + 1);
      && multiset(next)['<'] < multiset(s)['<']
      && Rewrite(syn, s, count) == (Rewrite(syn, next, count + 1).0, [Hit(s[..p], t)] + Rewrite(syn, next, count + 1).1)
  {
    ReplaceStep(syn, s, p, t, count + 1);
  }

  /** When the loop stops, no tag is left anywhere in the cleaned text. */
  lemma {:induction false} RewriteLeavesNoTag(syn: RefSyntax, s: string, count: nat)
    ensures FindTag(syn, Rewrite(syn, s, count).0, 0).None?
    decreases multiset(s)['<']
  {
    match FindTag(syn, s, 0)
    case None =>
    case Some((p, t)) =>
      RewriteStep(syn, s, p, t, count);
      RewriteLeavesNoTag(syn, Spliced(s, p, t, count + 1), count + 1);
  }

  /** Every matched tag carries a non-empty digit string as its source id and a one-line body. */
  lemma {:induction false} RewriteTags(syn: RefSyntax, s: string, count: nat)
    ensures var hits := Rewrite(syn, s, count).1;
      forall i :: 0 <= i < |hits| ==>
        |hits[i].tag.sourceId| > 0 && AllDigits(hits[i].tag.sourceId) && '\n' !in hits[i].tag.body
    decreases multiset(s)['<']
  {
    match FindTag(syn, s, 0)
    case None =>
    case Some((p, t)) =>
      MatchFacts(syn, s, p, t);
      RewriteStep(syn, s, p, t, count);
      RewriteTags(syn, Spliced(s, p, t, count + 1), count + 1);
  }

  /** There are at most as many matches as `<` characters in the text: each replacement removes one. */
  lemma {:induction false} RewriteCount(syn: RefSyntax, s: string, count: nat)
    ensures |Rewrite(syn, s, count).1| <= multiset(s)['<']
    decreases multiset(s)['<']
  {
    match FindTag(syn, s, 0)
    case None =>
    case Some((p, t)) =>
      RewriteStep(syn, s, p, t, count);
      RewriteCount(syn, Spliced(s, p, t, count + 1), count + 1);
  }

  /** No tag is matched exactly when the text holds none, and then the text is unchanged. */
  lemma RewriteNothing(syn: RefSyntax, s: string, count: nat)
    ensures Rewrite(syn, s, count).1 == [] <==> FindTag(syn, s, 0).None?
    ensures FindTag(syn, s, 0).None? ==> Rewrite(syn, s, count).0 == s
  {
  }

  /** `"\n\n**Citations**\n"` */
  const CITATIONS_HEADER := "\n\n**Citations**\n"

  /** `f'[{n}] "{cited_text}" [Source {source_id}]\n'` */
  function CitationLine(c: Citation): string {
    Label(c.number) + " \"" + c.citedText + "\" [Source " + c.sourceId + "]\n"
  }

  /** The listing lines of `cs`, in order. */
  function Listing(cs: seq<Citation>): string {
    if cs == [] then "" else Listing(cs[..|cs| - 1]) + CitationLine(cs[|cs| - 1])
  }

  /** extract_citations(answer): the cleaned text with its listing, or the answer untouched when it holds no tag. */
  function CitationsOf(syn: RefSyntax, answer: string): Extracted {
    var (clean, hits) := Rewrite(syn, answer, 0);
    var cs := Records(hits, 1);
    if cs == [] then Extracted(answer, []) else Extracted(clean + CITATIONS_HEADER + Listing(cs), cs)
  }

  /** A listing line ends in its only newline, when neither the cited text nor the source id has one. */
  lemma LineNewlines(c: Citation)
    requires '\n' !in c.citedText && '\n' !in c.sourceId
    ensures multiset(CitationLine(c))['\n'] == 1
  {
    var prefix, quoteOpen, quoteClose, close := Label(c.number), " \"", "\" [Source ", "]\n";
    assert CitationLine(c) == prefix + quoteOpen + c.citedText + quoteClose + c.sourceId + close;
    assert multiset(quoteOpen)['\n'] == 0 && multiset(quoteClose)['\n'] == 0 && multiset(close)['\n'] == 1;
    assert multiset(prefix)['\n'] == 0 && multiset(c.citedText)['\n'] == 0 && multiset(c.sourceId)['\n'] == 0;
  }

  /** The listing holds exactly one line per record, when no cited text spans a line. */
  lemma {:induction false} ListingLines(cs: seq<Citation>)
    requires forall i :: 0 <= i < |cs| ==> '\n' !in cs[i].citedText && '\n' !in cs[i].sourceId
    ensures multiset(Listing(cs))['\n'] == |cs|
  {
    if cs != [] {
      ListingLines(cs[..|cs| - 1]);
      LineNewlines(cs[|cs| - 1]);
    }
  }

  /** The records of extract_citations are numbered 1..N, and each cites a digit source id and one line of text. */
  lemma CitationsOfRecords(syn: RefSyntax, answer: string)
    ensures var cs := CitationsOf(syn, answer).citations;
      forall i :: 0 <= i < |cs| ==>
        && cs[i].number == i + 1
        && |cs[i].sourceId| > 0 && AllDigits(cs[i].sourceId)
        && '\n' !in cs[i].citedText
  {
    RewriteTags(syn, answer, 0);
    RecordsFacts(Rewrite(syn, answer, 0).1, 1);
    CitationsOfRecordsAre(syn, answer);
  }

  /** The records extract_citations returns are those of the tags Rewrite matched. */
  lemma CitationsOfRecordsAre(syn: RefSyntax, answer: string)
    ensures CitationsOf(syn, answer).citations == Records(Rewrite(syn, answer, 0).1, 1)
  {
  }

  /** The listing holds exactly one line per record. */
  lemma CitationsOfListing(syn: RefSyntax, answer: string)
    ensures var cs := CitationsOf(syn, answer).citations;
      multiset(Listing(cs))['\n'] == |cs|
  {
    var cs := CitationsOf(syn, answer).citations;
    CitationsOfRecords(syn, answer);
    forall i | 0 <= i < |cs|
      ensures '\n' !in cs[i].sourceId
    {
      assert AllDigits(cs[i].sourceId);
    }
    ListingLines(cs);
  }

  /**
   * The text extract_citations returns: untouched when it holds no tag; otherwise the text with
   * every tag replaced, no tag left, followed by the listing.
   */
  lemma CitationsOfShape(syn: RefSyntax, answer: string)
    ensures var r := CitationsOf(syn, answer);
      && (r.citations == [] <==> FindTag(syn, answer, 0).None?)
      && (r.citations == [] ==> r.cleanText == answer)
      && (r.citations != [] ==>
           && r.cleanText == Rewrite(syn, answer, 0).0 + CITATIONS_HEADER + Listing(r.citations)
           && FindTag(syn, Rewrite(syn, answer, 0).0, 0).None?)
  {
    RewriteNothing(syn, answer, 0);
    RewriteLeavesNoTag(syn, answer, 0);
  }

  /** What one pass of the loop keeps: the final text, and the records so far followed by those to come. */
  lemma LoopStep(syn: RefSyntax, s: string, count: nat, done: seq<Citation>, p: nat, t: Tag)
    requires FindTag(syn, s, 0) == Some((p, t))
    ensures 0 < t.len && p + t.len <= |s|
    ensures var next := ReplaceFirst(s, s[p..p + t.len], Label(count + 1));
      var record := Citation(count + 1, t.sourceId, t.body, SupportedText(s[..p], BOUNDARIES));
      && multiset(next)['<'] < multiset(s)['<']
      && Rewrite(syn, next, count + 1).0 == Rewrite(syn, s, count).0
      && done + [record] + Records(Rewrite(syn, next, count + 1).1, count + 2)
         == done + Records(Rewrite(syn, s, count).1, count + 1)
  {
    MatchFacts(syn, s, p, t);
    RewriteStep(syn, s, p, t, count);
    ReplaceStep(syn, s, p, t, count + 1);
    var rest := Rewrite(syn, Spliced(s, p, t, count + 1), count + 1).1;
    RecordsCons(Hit(s[..p], t), rest, count + 1);
    var record := Record(count + 1, Hit(s[..p], t));
    assert done + [record] + Records(rest, count + 2) == done + ([record] + Records(rest, count + 2));
  }

  /** The loop stops on a text that holds no tag, and that text is its result. */
  lemma RewriteDone(syn: RefSyntax, s: string, count: nat)
    requires FindTag(syn, s, 0).None?
    ensures Rewrite(syn, s, count).0 == s && Records(Rewrite(syn, s, count).1, count + 1) == []
  {
  }

  /** CitationsOf in terms of what the loop computed. */
  lemma CitationsOfRewrite(syn: RefSyntax, answer: string, clean: string, cs: seq<Citation>)
    requires Rewrite(syn, answer, 0).0 == clean && Records(Rewrite(syn, answer, 0).1, 1) == cs
    ensures CitationsOf(syn, answer) == if cs == [] then Extracted(answer, []) else Extracted(clean + CITATIONS_HEADER + Listing(cs), cs)
  {
  }

  /** Where the loop stops, what it has gathered is what Rewrite computes from the answer. */
  lemma LoopExit(syn: RefSyntax, answer: string, clean: string, count: nat, cs: seq<Citation>)
    requires FindTag(syn, clean, 0).None?
    requires Rewrite(syn, clean, count).0 == Rewrite(syn, answer, 0).0
    requires cs + Records(Rewrite(syn, clean, count).1, count + 1) == Records(Rewrite(syn, answer, 0).1, 1)
    ensures clean == Rewrite(syn, answer, 0).0 && cs == Records(Rewrite(syn, answer, 0).1, 1)
  {
    RewriteDone(syn, clean, count);
    assert cs + [] == cs;
  }

  /** GenerationEngine.extract_citations: the rewrite loop, then the listing when a tag was found. */
  method ExtractCitations(answer: string) returns (result: Extracted)
    ensures result == CitationsOf(REF, answer)
  {
    result := ExtractCitationsWith(REF, answer);
  }

  /** extract_citations for any tag syntax. */
  method ExtractCitationsWith(syn: RefSyntax, answer: string) returns (result: Extracted)
    ensures result == CitationsOf(syn, answer)
  {
    var cleanText, citations := ReplaceTags(syn, answer);
    CitationsOfRewrite(syn, answer, cleanText, citations);
    if citations == [] {
      return Extracted(answer, []);
    }
    var section := ListingSection(citations);
    result := Extracted(cleanText + section, citations);
  }

  /** The while loop of extract_citations: replaces each first tag by `[n]` and records it. */
  method ReplaceTags(syn: RefSyntax, answer: string) returns (cleanText: string, citations: seq<Citation>)
    ensures cleanText == Rewrite(syn, answer, 0).0
    ensures citations == Records(Rewrite(syn, answer, 0).1, 1)
  {
    ghost var whole := Rewrite(syn, answer, 0);
    ghost var final := whole.0;
    ghost var all := Records(whole.1, 1);
    cleanText := answer;
    citations := [];
    var citationCount := 0;
    assert Rewrite(syn, cleanText, citationCount) == whole;
    assert citations + Records(whole.1, citationCount + 1) == all;
    while true
      invariant citationCount == |citations|
      invariant Rewrite(syn, cleanText, citationCount).0 == final
      invariant citations + Records(Rewrite(syn, cleanText, citationCount).1, citationCount + 1) == all
      decreases multiset(cleanText)['<']
    {
      var found := FindTag(syn, cleanText, 0);
      if found.None? {
        break;
      }
      var (start, tag) := found.value;
      LoopStep(syn, cleanText, citationCount, citations, start, tag);
      citationCount := citationCount + 1;
      var supported := SupportedText(cleanText[..start], BOUNDARIES);
      var record := Citation(citationCount, tag.sourceId, tag.body, supported);
      cleanText := ReplaceFirst(cleanText, cleanText[start..start + tag.len], Label(citationCount));
      citations := citations + [record];
    }
    LoopExit(syn, answer, cleanText, citationCount, citations);
  }

  /** The `citations_section` loop: the header, then one line per record. */
  method ListingSection(citations: seq<Citation>) returns (section: string)
    ensures section == CITATIONS_HEADER + Listing(citations)
  {
    section := CITATIONS_HEADER;
    assert citations[..0] == [];
    for i := 0 to |citations|
      invariant section == CITATIONS_HEADER + Listing(citations[..i])
    {
      assert citations[..i + 1][..i] == citations[..i];
      section := section + CitationLine(citations[i]);
    }
    assert citations[..|citations|] == citations;
  }
}
