/**
 * The pieces of Python's str and list behaviour that the protocol code relies on:
 * find/rfind, strip/rstrip, split/join/count/replace, slicing, str(int) and the
 * `for i, piece in enumerate(...)` stop test of the token loops.
 */
module Text {
  import opened Wrappers

  /** str.isspace(): the characters str.strip() removes and the regex class `\s` matches. */
  predicate IsSpace(c: char) {
    || c == ' '
    || '\t' <= c <= '\r'
    || '\U{1c}' <= c <= '\U{1f}'
    || c == '\U{85}' || c == '\U{a0}' || c == '\U{1680}'
    || '\U{2000}' <= c <= '\U{200a}'
    || c == '\U{2028}' || c == '\U{2029}' || c == '\U{202f}' || c == '\U{205f}' || c == '\U{3000}'
  }

  /** The regex class `\d`, restricted to ASCII digits. */
  predicate IsDigit(c: char) {
    '0' <= c <= '9'
  }

  function Min(a: int, b: int): int {
    if a <= b then a else b
  }

  function Max(a: int, b: int): int {
    if a >= b then a else b
  }

  /** `p` occurs in `s` starting at index `i`. */
  predicate OccursAt(s: string, p: string, i: nat) {
    i + |p| <= |s| && s[i..i + |p|] == p
  }

  /** s.find(p, from), with None for -1: the first occurrence at or after `from`. */
  function IndexOf(s: string, p: string, from: nat): (r: Option<nat>)
    ensures r.Some? ==> from <= r.value && r.value + |p| <= |s|
    decreases |s| - from
  {
    if from + |p| > |s| then None
    else if OccursAt(s, p, from) then Some(from)
    else IndexOf(s, p, from + 1)
  }

  /** s.find(p, from) is the first occurrence at or after `from`; None means there is none. */
  lemma {:induction false} IndexOfSpec(s: string, p: string, from: nat)
    ensures var r := IndexOf(s, p, from);
      && (r.Some? ==> OccursAt(s, p, r.value) && forall j :: from <= j < r.value ==> !OccursAt(s, p, j))
      && (r.None? ==> forall j :: from <= j ==> !OccursAt(s, p, j))
    decreases |s| - from
  {
    if from + |p| <= |s| && !OccursAt(s, p, from) {
      IndexOfSpec(s, p, from + 1);
    }
  }

  /** The greatest index below `n` where `p` occurs, or -1. */
  function LastIndexBelow(s: string, p: string, n: nat): (r: int)
    ensures -1 <= r < n
  {
    if n == 0 then -1
    else if OccursAt(s, p, n - 1) then n - 1
    else LastIndexBelow(s, p, n - 1)
  }

  /** The index LastIndexBelow finds is an occurrence, and none lies between it and `n`. */
  lemma {:induction false} LastIndexBelowSpec(s: string, p: string, n: nat)
    ensures var r := LastIndexBelow(s, p, n);
      && (r >= 0 ==> OccursAt(s, p, r))
      && forall j: nat :: r < j < n ==> !OccursAt(s, p, j)
  {
    if n > 0 && !OccursAt(s, p, n - 1) {
      LastIndexBelowSpec(s, p, n - 1);
    }
  }

  /** s.rfind(p): the last occurrence, or -1. */
  function LastIndexOf(s: string, p: string): (r: int)
    ensures -1 <= r <= |s|
  {
    LastIndexBelow(s, p, |s| + 1)
  }

  /** s.rfind(p) is an occurrence of `p`, or -1, and no occurrence lies after it. */
  lemma LastIndexOfSpec(s: string, p: string)
    ensures var r := LastIndexOf(s, p);
      && (r >= 0 ==> OccursAt(s, p, r))
      && forall j: nat :: r < j ==> !OccursAt(s, p, j)
  {
    LastIndexBelowSpec(s, p, |s| + 1);
    forall j: nat | LastIndexOf(s, p) < j
      ensures !OccursAt(s, p, j)
    {
      if j > |s| {
        assert j + |p| > |s|;
      }
    }
  }

  /** The length of the longest run of characters of a class starting at `i` (a greedy `[...]*`). */
  function Run(s: string, i: nat, inClass: char -> bool): (n: nat)
    requires i <= |s|
    ensures i + n <= |s|
    decreases |s| - i
  {
    if i < |s| && inClass(s[i]) then 1 + Run(s, i + 1, inClass) else 0
  }

  /** The run is all in the class, and is followed by the end of `s` or a character outside it. */
  lemma {:induction false} RunSpec(s: string, i: nat, inClass: char -> bool)
    requires i <= |s|
    ensures var n := Run(s, i, inClass);
      && (forall k :: i <= k < i + n ==> inClass(s[k]))
      && (i + n < |s| ==> !inClass(s[i + n]))
    decreases |s| - i
  {
    if i < |s| && inClass(s[i]) {
      RunSpec(s, i + 1, inClass);
    }
  }

  /** s.rstrip() */
  function RStrip(s: string): (r: string)
    ensures |r| <= |s|
  {
    if |s| > 0 && IsSpace(s[|s| - 1]) then RStrip(s[..|s| - 1]) else s
  }

  /** s.rstrip() is a prefix of `s` that does not end in whitespace. */
  lemma {:induction false} RStripPrefix(s: string)
    ensures var r := RStrip(s); r == s[..|r|] && (|r| > 0 ==> !IsSpace(r[|r| - 1]))
    decreases |s|
  {
    if |s| > 0 && IsSpace(s[|s| - 1]) {
      RStripPrefix(s[..|s| - 1]);
    }
  }

  /** s.lstrip() */
  function LStrip(s: string): (r: string)
    ensures |r| <= |s|
  {
    if |s| > 0 && IsSpace(s[0]) then LStrip(s[1..]) else s
  }

  /** s.lstrip() is a suffix of `s` that does not start with whitespace. */
  lemma {:induction false} LStripSuffix(s: string)
    ensures var r := LStrip(s); r == s[|s| - |r|..] && (|r| > 0 ==> !IsSpace(r[0]))
    decreases |s|
  {
    if |s| > 0 && IsSpace(s[0]) {
      LStripSuffix(s[1..]);
    }
  }

  /** s.strip() */
  function Strip(s: string): (r: string)
    ensures |r| <= |s|
  {
    LStrip(RStrip(s))
  }

  /** s.strip() neither starts nor ends with whitespace, and leaves a string that does neither unchanged. */
  lemma StripEnds(s: string)
    ensures var r := Strip(s);
      && (|r| > 0 ==> !IsSpace(r[0]) && !IsSpace(r[|r| - 1]))
      && (|s| == 0 || (!IsSpace(s[0]) && !IsSpace(s[|s| - 1])) ==> r == s)
  {
    var m := RStrip(s);
    var r := Strip(s);
    assert r == LStrip(m);
    RStripPrefix(s);
    LStripSuffix(m);
    assert m == s[..|m|];
    assert r == m[|m| - |r|..];
    if |r| > 0 {
      assert r[|r| - 1] == m[|m| - 1];
    }
    if |s| == 0 || (!IsSpace(s[0]) && !IsSpace(s[|s| - 1])) {
      assert m == s;
      assert LStrip(s) == s;
    }
  }

  /** s[a:b] for non-negative a and b: an end past the string is clamped, an empty range gives "". */
  function PySlice(s: string, a: nat, b: nat): (r: string)
    ensures a <= b <= |s| ==> r == s[a..b]
  {
    var e := Min(b, |s|);
    if a <= e then s[a..e] else ""
  }

  /** "".join(parts), and the result of appending every part in turn with +=. */
  function Concat(parts: seq<string>): string {
    if parts == [] then "" else Concat(parts[..|parts| - 1]) + parts[|parts| - 1]
  }

  /** Appending one more part appends its text. */
  lemma ConcatSnoc(parts: seq<string>, last: string)
    ensures Concat(parts + [last]) == Concat(parts) + last
  {
    assert (parts + [last])[..|parts|] == parts;
  }

  /** Concatenation distributes over appending part lists. */
  lemma {:induction false} ConcatAppend(a: seq<string>, b: seq<string>)
    ensures Concat(a + b) == Concat(a) + Concat(b)
    decreases |b|
  {
    if b != [] {
      var init := b[..|b| - 1];
      ConcatAppend(a, init);
      assert (a + b)[..|a + b| - 1] == a + init;
      assert b[..|b| - 1] == init;
    } else {
      assert a + b == a;
    }
  }

  /** sep.join(parts) */
  function Join(parts: seq<string>, sep: string): string {
    if |parts| == 0 then ""
    else if |parts| == 1 then parts[0]
    else parts[0] + sep + Join(parts[1..], sep)
  }

  /** s.split(sep) for a non-empty separator. */
  function Split(s: string, sep: string): (r: seq<string>)
    requires |sep| > 0
    ensures |r| > 0
    decreases |s|
  {
    match IndexOf(s, sep, 0)
    case None => [s]
    case Some(i) => [s[..i]] + Split(s[i + |sep|..], sep)
  }

  /** s.split(sep, 1) for a non-empty separator: the text before the first occurrence and the rest. */
  function SplitOnce(s: string, sep: string): (r: seq<string>)
    requires |sep| > 0
    ensures 1 <= |r| <= 2
  {
    match IndexOf(s, sep, 0)
    case None => [s]
    case Some(i) => [s[..i], s[i + |sep|..]]
  }

  /** s.count(sub) for a non-empty sub: non-overlapping occurrences, scanned left to right. */
  function Count(s: string, sub: string): nat
    requires |sub| > 0
    decreases |s|
  {
    match IndexOf(s, sub, 0)
    case None => 0
    case Some(i) => 1 + Count(s[i + |sub|..], sub)
  }

  /** s.replace(pat, rep) for a non-empty pat. */
  function Replace(s: string, pat: string, rep: string): string
    requires |pat| > 0
    decreases |s|
  {
    match IndexOf(s, pat, 0)
    case None => s
    case Some(i) => s[..i] + rep + Replace(s[i + |pat|..], pat, rep)
  }

  /** s.replace(pat, rep, 1) for a non-empty pat. */
  function ReplaceFirst(s: string, pat: string, rep: string): string
    requires |pat| > 0
  {
    match IndexOf(s, pat, 0)
    case None => s
    case Some(i) => s[..i] + rep + s[i + |pat|..]
  }

  function DigitChar(d: nat): (c: char)
    requires d < 10
    ensures IsDigit(c)
  {
    ('0' as int + d) as char
  }

  function DigitValue(c: char): (d: nat)
    requires IsDigit(c)
    ensures d < 10
  {
    c as int - '0' as int
  }

  /** str(n) for a non-negative int: its decimal digits, without leading zeros. */
  function NatToString(n: nat): (r: string)
    ensures |r| > 0
    ensures forall i :: 0 <= i < |r| ==> IsDigit(r[i])
    ensures r[0] == '0' ==> n == 0
  {
    if n < 10 then [DigitChar(n)] else NatToString(n / 10) + [DigitChar(n % 10)]
  }

  /** int(s) for a string of decimal digits. */
  function ParseNat(s: string): nat
    requires forall i :: 0 <= i < |s| ==> IsDigit(s[i])
  {
    if s == [] then 0 else ParseNat(s[..|s| - 1]) * 10 + DigitValue(s[|s| - 1])
  }

  /**
   * Where `for i, piece in enumerate(pieces): if piece == sentinel or i >= cap: break`
   * stops: the number of pieces that pass the test.
   */
  function StopIndex(pieces: seq<string>, sentinel: string, cap: int): (k: nat)
    ensures k <= |pieces|
  {
    if pieces == [] || pieces[0] == sentinel || cap <= 0 then 0
    else 1 + StopIndex(pieces[1..], sentinel, cap - 1)
  }

  /** Every piece before the stop passes the test; the piece at the stop, if any, fails it. */
  lemma {:induction false} StopIndexSpec(pieces: seq<string>, sentinel: string, cap: int)
    ensures var k := StopIndex(pieces, sentinel, cap);
      && (forall j :: 0 <= j < k ==> pieces[j] != sentinel && j < cap)
      && (k < |pieces| ==> pieces[k] == sentinel || k >= cap)
  {
    if !(pieces == [] || pieces[0] == sentinel || cap <= 0) {
      var rest := pieces[1..];
      StopIndexSpec(rest, sentinel, cap - 1);
      var k := StopIndex(pieces, sentinel, cap);
      assert k == 1 + StopIndex(rest, sentinel, cap - 1);
      forall j | 0 <= j < k
        ensures pieces[j] != sentinel && j < cap
      {
        if j > 0 {
          assert pieces[j] == rest[j - 1];
        }
      }
      if k < |pieces| {
        assert pieces[k] == rest[k - 1];
      }
    }
  }

  /** A string is the text before an occurrence, the occurrence and the text after it. */
  lemma Around(s: string, i: nat, p: string)
    requires OccursAt(s, p, i)
    ensures s == s[..i] + p + s[i + |p|..]
  {
    assert s[i..i + |p|] == p;
  }

  /** split gives one more part than count finds separators. */
  lemma {:induction false} SplitCount(s: string, sep: string)
    requires |sep| > 0
    ensures |Split(s, sep)| == Count(s, sep) + 1
    decreases |s|
  {
    match IndexOf(s, sep, 0)
    case None =>
    case Some(i) => SplitCount(s[i + |sep|..], sep);
  }

  /** int(str(n)) == n */
  lemma {:induction false} ParseNatToString(n: nat)
    ensures ParseNat(NatToString(n)) == n
  {
    if n >= 10 {
      ParseNatToString(n / 10);
      var s := NatToString(n);
      assert s[..|s| - 1] == NatToString(n / 10);
    }
  }

  /** Replacing every occurrence of a character by a text without it leaves none of that character. */
  lemma {:induction false} ReplaceRemovesChar(s: string, c: char, rep: string)
    requires c !in rep
    ensures c !in Replace(s, [c], rep)
    decreases |s|
  {
    IndexOfSpec(s, [c], 0);
    match IndexOf(s, [c], 0)
    case None =>
      if c in s {
        var j :| 0 <= j < |s| && s[j] == c;
        assert s[j..j + 1] == [c];
        assert OccursAt(s, [c], j);
      }
    case Some(i) =>
      ReplaceRemovesChar(s[i + 1..], c, rep);
      if c in s[..i] {
        var j :| 0 <= j < i && s[..i][j] == c;
        assert s[j..j + 1] == [c];
        assert OccursAt(s, [c], j);
      }
  }

  /** Appending text after a found occurrence does not move the first occurrence. */
  lemma IndexOfExtend(s: string, t: string, p: string, from: nat)
    requires IndexOf(s, p, from).Some?
    ensures IndexOf(s + t, p, from) == IndexOf(s, p, from)
  {
    var i := IndexOf(s, p, from).value;
    IndexOfSpec(s, p, from);
    forall j | from <= j <= i
      ensures OccursAt(s + t, p, j) <==> OccursAt(s, p, j)
    {
      if j + |p| <= |s| {
        assert (s + t)[j..j + |p|] == s[j..j + |p|];
      }
    }
    IndexOfFirst(s + t, p, from, i);
  }

  /** The first occurrence at or after `from` is the one nothing precedes. */
  lemma {:induction false} IndexOfFirst(s: string, p: string, from: nat, at: nat)
    requires from <= at && OccursAt(s, p, at)
    requires forall q :: from <= q < at ==> !OccursAt(s, p, q)
    ensures IndexOf(s, p, from) == Some(at)
    decreases at - from
  {
    if from < at {
      IndexOfFirst(s, p, from + 1, at);
    }
  }

  /** replace(pat, rep, 1) splices `rep` in at the first occurrence. */
  lemma ReplaceFirstAt(s: string, pat: string, rep: string, at: nat)
    requires |pat| > 0
    requires IndexOf(s, pat, 0) == Some(at)
    ensures ReplaceFirst(s, pat, rep) == s[..at] + rep + s[at + |pat|..]
  {
  }

  /** A replacement that removes an occurrence holding `c` and puts in text without `c` lowers the count of `c`. */
  lemma ReplaceFirstLowers(s: string, pat: string, rep: string, c: char)
    requires |pat| > 0 && pat[0] == c && c !in rep
    requires IndexOf(s, pat, 0).Some?
    ensures multiset(ReplaceFirst(s, pat, rep))[c] < multiset(s)[c]
  {
    var at := IndexOf(s, pat, 0).value;
    IndexOfSpec(s, pat, 0);
    Around(s, at, pat);
    assert multiset(pat)[c] > 0 by {
      assert pat[0] in multiset(pat);
    }
    assert multiset(rep)[c] == 0;
  }

  /** s.strip() is a contiguous piece of `s`: it starts `a` characters in. */
  lemma StripInfix(s: string) returns (a: nat)
    ensures a + |Strip(s)| <= |s| && Strip(s) == s[a..a + |Strip(s)|]
  {
    var m := RStrip(s);
    var r := Strip(s);
    RStripPrefix(s);
    LStripSuffix(m);
    a := |m| - |r|;
    assert r == m[a..];
    assert m[a..] == s[a..a + |r|];
  }

  // ---------------------------------------------------------------------------
  // re.finditer: the leftmost match of a pattern, tried at each position in turn.

  /** The leftmost position at or after `from` where `at` matches the rest of `s`, with the match. */
  function FindFirst<M>(at: string -> Option<M>, s: string, from: nat): Option<(nat, M)>
    decreases |s| - from
  {
    if from >= |s| then None
    else
      match at(s[from..])
      case Some(m) => Some((from, m))
      case None => FindFirst(at, s, from + 1)
  }

  /** The leftmost match is a match, and nothing matches between `from` and it. */
  lemma {:induction false} FindFirstFound<M>(at: string -> Option<M>, s: string, from: nat)
    requires FindFirst(at, s, from).Some?
    ensures var r := FindFirst(at, s, from).value;
      && from <= r.0 < |s| && at(s[r.0..]) == Some(r.1)
      && forall q :: from <= q < r.0 ==> at(s[q..]).None?
    decreases |s| - from
  {
    if at(s[from..]).None? {
      FindFirstFound(at, s, from + 1);
    }
  }

  /** No leftmost match means no match at all from `from` on. */
  lemma {:induction false} FindFirstMissing<M>(at: string -> Option<M>, s: string, from: nat)
    requires FindFirst(at, s, from).None?
    ensures forall q :: from <= q < |s| ==> at(s[q..]).None?
    decreases |s| - from
  {
    if from < |s| {
      FindFirstMissing(at, s, from + 1);
    }
  }
}
