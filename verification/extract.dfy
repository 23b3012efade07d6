/**
 * `extract_json`: find one JSON object in the free text a language model
 * returned. First a fenced code block is searched for; failing that, the
 * text is scanned from its first `{` with a brace-depth counter.
 */
module Extract {
  import opened Wrappers
  import opened Text

  // ---------------------------------------------------------------------
  // The fenced-block search: re.search(r"```(?:json)?\s*(\{.*?\})\s*```", text, re.DOTALL)
  //
  // The pattern is deterministic once its backtracking is worked out:
  //  * `(?:json)?` first tries to consume "json"; the alternative without it
  //    can never succeed when "json" is present, since `\s*\{` cannot start
  //    at the letter 'j';
  //  * `\s*` before `\{` and before the closing "```" must consume the whole
  //    run of whitespace, because neither '{' nor '`' is whitespace;
  //  * the lazy `.*?\}` stops at the first '}' (after the opening '{') that
  //    is followed by whitespace and "```";
  //  * `re.search` reports the leftmost starting position that matches.
  // ---------------------------------------------------------------------

  /** A run of three backticks starts at `i`. */
  predicate TicksAt(s: string, i: nat)
  {
    i + 3 <= |s| && s[i..i + 3] == "```"
  }

  /** The first index at or after `i` that is not whitespace (`\s*` matched greedily). */
  function SkipSpaces(s: string, i: nat): (j: nat)
    requires i <= |s|
    ensures i <= j <= |s|
    ensures forall k | i <= k < j :: IsSpace(s[k])
    ensures j < |s| ==> !IsSpace(s[j])
    decreases |s| - i
  {
    if i < |s| && IsSpace(s[i]) then SkipSpaces(s, i + 1) else i
  }

  /** Where the optional `json` tag after the opening backticks at `p` ends. */
  function TagEnd(s: string, p: nat): (q: nat)
    requires TicksAt(s, p)
    ensures q <= |s|
    ensures q == p + 3 || (q == p + 7 && s[p + 3..q] == "json")
    ensures p + 7 <= |s| && s[p + 3..p + 7] == "json" ==> q == p + 7
  {
    if p + 7 <= |s| && s[p + 3..p + 7] == "json" then p + 7 else p + 3
  }

  /** The '}' at `e` ends the group: it is followed by optional whitespace and "```". */
  predicate ClosesFence(s: string, e: nat)
    requires e < |s|
  {
    s[e] == '}' && TicksAt(s, SkipSpaces(s, e + 1))
  }

  /** The least index at or after `e` where the group can end (the lazy `.*?\}`). */
  function FirstClose(s: string, e: nat): (r: Option<nat>)
    requires e <= |s|
    ensures r.Some? ==> e <= r.value < |s| && ClosesFence(s, r.value)
    ensures r.Some? ==> forall k | e <= k < r.value :: !ClosesFence(s, k)
    ensures r.None? ==> forall k | e <= k < |s| :: !ClosesFence(s, k)
    decreases |s| - e
  {
    if e == |s| then None
    else if ClosesFence(s, e) then Some(e)
    else FirstClose(s, e + 1)
  }

  /** The lazy group ends at `c` when `c` closes it and nothing between `e` and `c` does. */
  lemma {:induction false} FirstCloseIs(s: string, e: nat, c: nat)
    requires e <= c < |s| && ClosesFence(s, c)
    requires forall k | e <= k < c :: !ClosesFence(s, k)
    ensures FirstClose(s, e) == Some(c)
    decreases c - e
  {
    if e < c {
      FirstCloseIs(s, e + 1, c);
    }
  }

  /**
   * The regular expression anchored at `p`: the bounds `(b, e)` of the
   * captured group `s[b..e+1]`, or None when no match starts at `p`.
   */
  function MatchAt(s: string, p: nat): (r: Option<(nat, nat)>)
    ensures r.Some? ==> TicksAt(s, p) && p + 3 <= r.value.0 < r.value.1 < |s|
    ensures r.Some? ==> r.value.0 == SkipSpaces(s, TagEnd(s, p))
    ensures r.Some? ==> s[r.value.0] == '{' && ClosesFence(s, r.value.1)
    ensures r.Some? ==> forall k | r.value.0 < k < r.value.1 :: !ClosesFence(s, k)
  {
    if !TicksAt(s, p) then None
    else
      var b := SkipSpaces(s, TagEnd(s, p));
      if b < |s| && s[b] == '{' then
        match FirstClose(s, b + 1)
        case None => None
        case Some(e) => Some((b, e))
      else None
  }

  /** `re.search` from position `p`: the leftmost start `q >= p` that matches, with its group bounds. */
  function SearchFrom(s: string, p: nat): (r: Option<(nat, nat, nat)>)
    requires p <= |s|
    ensures r.Some? ==> p <= r.value.0 < |s| && MatchAt(s, r.value.0) == Some((r.value.1, r.value.2))
    decreases |s| - p
  {
    if p == |s| then None
    else
      var m := MatchAt(s, p);
      if m.Some? then Some((p, m.value.0, m.value.1)) else SearchFrom(s, p + 1)
  }

  /** No match of the pattern starts before the one `SearchFrom` reports; when it reports none, none starts at all. */
  lemma {:induction false} SearchFromLeftmost(s: string, p: nat)
    requires p <= |s|
    ensures SearchFrom(s, p).Some? ==> forall q | p <= q < SearchFrom(s, p).value.0 :: MatchAt(s, q).None?
    ensures SearchFrom(s, p).None? ==> forall q | p <= q < |s| :: MatchAt(s, q).None?
    decreases |s| - p
  {
    if p < |s| && MatchAt(s, p).None? {
      SearchFromLeftmost(s, p + 1);
      var r := SearchFrom(s, p + 1);
      assert SearchFrom(s, p) == r;
      NoMatchExtends(s, p, if r.Some? then r.value.0 else |s|);
    }
  }

  /** A start with no match extends a match-free range by one to the left. */
  lemma NoMatchExtends(s: string, p: nat, n: nat)
    requires forall q | p + 1 <= q < n :: MatchAt(s, q).None?
    requires MatchAt(s, p).None?
    ensures forall q | p <= q < n :: MatchAt(s, q).None?
  {
  }

  /** Group 1 of the fenced-block pattern, if the pattern occurs in `s`. */
  function FenceGroup(s: string): (r: Option<string>)
    ensures r.Some? ==> 2 <= |r.value| && r.value[0] == '{' && r.value[|r.value| - 1] == '}'
    ensures r.Some? ==> '{' in s
  {
    match SearchFrom(s, 0)
    case None => None
    case Some((q, b, e)) => assert s[b] in s; Some(s[b..e + 1])
  }

  // ---------------------------------------------------------------------
  // The brace scan from the first '{'.
  // ---------------------------------------------------------------------

  /** `s[..n]` is the shortest non-empty prefix of `s` whose braces balance. */
  ghost predicate ClosesOutermost(s: string, n: nat)
  {
    0 < n <= |s| && Depth(s[..n]) == 0 && forall m | 0 < m < n :: Depth(s[..m]) > 0
  }

  /** There is at most one shortest balanced prefix. */
  lemma ClosesOutermostUnique(s: string, n1: nat, n2: nat)
    requires ClosesOutermost(s, n1) && ClosesOutermost(s, n2)
    ensures n1 == n2
  {
  }

  /**
   * Starting at an opening brace, if no prefix is the shortest balanced one,
   * the depth stays positive all the way: it only moves in steps of one, so it
   * cannot skip over zero.
   */
  lemma {:induction false} DepthStaysPositive(s: string, n: nat)
    requires s != [] && s[0] == '{'
    requires forall k :: !ClosesOutermost(s, k)
    requires 0 < n <= |s|
    ensures forall m | 0 < m <= n :: Depth(s[..m]) > 0
  {
    if n == 1 {
      DepthStep(s, 0);
    } else {
      DepthStaysPositive(s, n - 1);
      DepthStep(s, n - 1);
      assert !ClosesOutermost(s, n);
    }
  }

  /**
   * The outermost object at the start of `s` (which begins with '{'): the
   * shortest prefix whose braces balance, or None when the depth never
   * returns to zero.
   */
  ghost function Outermost(s: string): (r: Option<string>)
    requires s != [] && s[0] == '{'
    ensures r.Some? ==> ClosesOutermost(s, |r.value|) && r.value == s[..|r.value|]
    ensures r.None? ==> forall n | 0 < n <= |s| :: Depth(s[..n]) > 0
  {
    if exists n :: ClosesOutermost(s, n) then
      var n: nat :| ClosesOutermost(s, n);
      Some(s[..n])
    else
      DepthStaysPositive(s, |s|);
      None
  }

  /** Trailing whitespace does not change the outermost object. */
  lemma OutermostIgnoresTrailingSpaces(s: string, k: nat)
    requires 0 < k <= |s| && s[0] == '{'
    requires forall j | k <= j < |s| :: IsSpace(s[j])
    ensures Outermost(s[..k]) == Outermost(s)
  {
    var t := s[..k];
    assert forall m | 0 < m <= k :: t[..m] == s[..m];
    match Outermost(t)
    case Some(g) =>
      assert ClosesOutermost(s, |g|);
      ClosesOutermostUnique(s, |g|, |Outermost(s).value|);
    case None =>
      forall m | k < m <= |s| ensures Depth(s[..m]) > 0 {
        DepthOverSpaces(s, k, m);
        assert Depth(t[..k]) > 0;
      }
  }

  // ---------------------------------------------------------------------
  // extract_json as a whole.
  // ---------------------------------------------------------------------

  /** What `extract_json(text)` returns: the fenced group, else the outermost object after the first '{'. */
  ghost function ExtractSpec(text: string): Option<string>
  {
    match FenceGroup(text)
    case Some(g) => Some(g)
    case None =>
      match Find(text, '{')
      case None => None
      case Some(b) => Outermost(text[b..])
  }

  /**
   * `extract_json`: the fence search, then the depth-counting scan over
   * `text[start:].strip()` that returns as soon as the depth comes back to zero.
   */
  method ExtractJson(text: string) returns (r: Option<string>)
    ensures r == ExtractSpec(text)
  {
    var fenced := FenceGroup(text);
    if fenced.Some? {
      return fenced;
    }
    var start := Find(text, '{');
    if start.None? {
      return None;
    }
    var potential := Strip(text[start.value..]);
    ScanTarget(text, start.value);
    r := ScanOutermost(potential);
  }

  /**
   * The depth-counting loop of `extract_json` over `potential`, which starts
   * with '{': it returns as soon as the depth comes back to zero.
   */
  method ScanOutermost(potential: string) returns (r: Option<string>)
    requires potential != [] && potential[0] == '{'
    ensures r == Outermost(potential)
  {
    var depth := 0;
    for i := 0 to |potential|
      invariant depth == Depth(potential[..i])
      invariant forall m | 0 < m <= i :: Depth(potential[..m]) > 0
    {
      DepthStep(potential, i);
      if potential[i] == '{' {
        depth := depth + 1;
      } else if potential[i] == '}' {
        depth := depth - 1;
        if depth == 0 {
          ClosesAt(potential, i + 1);
          return Some(potential[..i + 1]);
        }
      }
    }
    ClosesNowhere(potential);
    return None;
  }

  /**
   * Without a fenced block, the specification's answer is the outermost
   * object of the stripped text from the first '{', which still starts with '{'.
   */
  lemma ScanTarget(text: string, b: nat)
    requires FenceGroup(text).None? && Find(text, '{') == Some(b)
    ensures Strip(text[b..]) != [] && Strip(text[b..])[0] == '{'
    ensures ExtractSpec(text) == Outermost(Strip(text[b..]))
  {
    var tail := text[b..];
    StripKeepsNonSpaceStart(tail);
    OutermostIgnoresTrailingSpaces(tail, |Strip(tail)|);
  }

  /** A depth that first returns to zero after `n` characters closes the outermost object there. */
  lemma ClosesAt(s: string, n: nat)
    requires s != [] && s[0] == '{' && 0 < n <= |s|
    requires Depth(s[..n]) == 0
    requires forall m | 0 < m < n :: Depth(s[..m]) > 0
    ensures Outermost(s) == Some(s[..n])
  {
    assert ClosesOutermost(s, n);
    ClosesOutermostUnique(s, n, |Outermost(s).value|);
  }

  /** A depth that stays positive to the end leaves no outermost object. */
  lemma ClosesNowhere(s: string)
    requires s != [] && s[0] == '{'
    requires forall m | 0 < m <= |s| :: Depth(s[..m]) > 0
    ensures Outermost(s) == None
  {
    assert forall k :: !ClosesOutermost(s, k);
  }
}

/** Properties of `extract_json`, stated on its specification. */
module ExtractFacts {
  import opened Wrappers
  import opened Text
  import opened Extract

  /** The depth counted from the start of `t` never returns to zero. */
  ghost predicate NeverCloses(t: string)
  {
    forall n | 0 < n <= |t| :: Depth(t[..n]) > 0
  }

  /**
   * No candidate is found exactly when the text has no '{' at all, or when
   * there is no fenced block and the braces counted from the first '{' never
   * bring the depth back to zero.
   */
  lemma NoCandidateIff(text: string)
    ensures '{' !in text ==> ExtractSpec(text).None?
    ensures '{' in text ==>
      (ExtractSpec(text).None? <==> FenceGroup(text).None? && NeverCloses(text[Find(text, '{').value..]))
  {
  }

  /**
   * On the brace-scan path the candidate is the slice of the text that starts
   * at the first '{' and ends with a '}'; it holds as many '{' as '}', and
   * every proper non-empty prefix of it holds strictly more '{' than '}'.
   */
  lemma BraceScanShape(text: string, b: nat, r: string)
    requires FenceGroup(text).None? && Find(text, '{') == Some(b)
    requires ExtractSpec(text) == Some(r)
    ensures b + |r| <= |text| && r == text[b..b + |r|] && '{' !in text[..b]
    ensures 2 <= |r| && r[0] == '{' && r[|r| - 1] == '}'
    ensures Count(r, '{') == Count(r, '}')
    ensures forall m | 0 < m < |r| :: Count(r[..m], '{') > Count(r[..m], '}')
  {
    var t := text[b..];
    assert ClosesOutermost(t, |r|) && r == t[..|r|];
    assert t[..1] == ['{'];
    DepthStep(t, 0);
    assert |r| >= 2;
    DepthStep(t, |r| - 1);
    assert r[..|r| - 1] == t[..|r| - 1];
    assert forall m | 0 < m < |r| :: r[..m] == t[..m];
  }

  /**
   * A balanced object embedded in prose that contains no '{' before it, with
   * no fenced block anywhere, is returned exactly: the whole outer object,
   * never an inner one, whatever follows it.
   */
  lemma ObjectInProse(prose: string, obj: string, rest: string)
    requires '{' !in prose
    requires obj != [] && obj[0] == '{' && ClosesOutermost(obj, |obj|)
    requires FenceGroup(prose + obj + rest).None?
    ensures ExtractSpec(prose + obj + rest) == Some(obj)
  {
    var text := prose + obj + rest;
    assert text[|prose|] == '{';
    assert text[..|prose|] == prose;
    var b := Find(text, '{').value;
    assert b == |prose|;
    var t := text[b..];
    assert t == obj + rest;
    assert forall m | 0 < m <= |obj| :: t[..m] == obj[..m];
    assert ClosesOutermost(t, |obj|);
    ClosesOutermostUnique(t, |obj|, |Outermost(t).value|);
  }

  /** The candidate is never the empty string, so the pipeline's `if not json_str` tests only for None. */
  lemma CandidateNonEmpty(text: string)
    ensures ExtractSpec(text) != Some("")
  {
  }

  /** A match at position 0 decides `extract_json`: its group is the answer. */
  lemma FencedAtStart(s: string, b: nat, e: nat, g: string)
    requires MatchAt(s, 0) == Some((b, e))
    requires e < |s| && s[b..e + 1] == g
    ensures ExtractSpec(s) == Some(g)
  {
    assert SearchFrom(s, 0) == Some((0, b, e));
  }

  /** The pattern's pieces found at `p` give a match there. */
  lemma MatchAtIs(s: string, p: nat, b: nat, e: nat)
    requires TicksAt(s, p) && SkipSpaces(s, TagEnd(s, p)) == b && b < |s| && s[b] == '{'
    requires FirstClose(s, b + 1) == Some(e)
    ensures MatchAt(s, p) == Some((b, e))
  {
  }

  /** A fenced `json` block is returned without its fence and the surrounding newlines. */
  lemma FencedExample(s: string)
    requires s == "```json\n{\"a\":1}\n```"
    ensures ExtractSpec(s) == Some("{\"a\":1}")
  {
    var g := "{\"a\":1}";
    assert s[8..15] == g;
    FencedExampleMatch(s);
    FencedAtStart(s, 8, 14, g);
  }

  /** In that example the group runs from index 8 to index 14. */
  lemma FencedExampleMatch(s: string)
    requires s == "```json\n{\"a\":1}\n```"
    ensures MatchAt(s, 0) == Some((8, 14))
  {
    assert s[3..7] == "json";
    assert TagEnd(s, 0) == 7;
    assert SkipSpaces(s, 7) == 8;
    assert SkipSpaces(s, 15) == 16;
    assert s[16..19] == "```";
    assert ClosesFence(s, 14);
    assert forall k | 9 <= k < 14 :: s[k] != '}';
    FirstCloseIs(s, 9, 14);
    MatchAtIs(s, 0, 8, 14);
  }

  /**
   * A '}' inside a string literal: the fenced group is the whole object,
   * whereas the brace scan alone would stop at the quoted brace (see
   * ScanStopsAtQuotedBrace).
   */
  lemma FencePreferredOverScan(s: string)
    requires s == "```json\n{\"a\": \"}\"}\n```"
    ensures ExtractSpec(s) == Some("{\"a\": \"}\"}")
  {
    var g := "{\"a\": \"}\"}";
    assert s[8..18] == g;
    QuotedBraceMatch(s);
    FencedAtStart(s, 8, 17, g);
  }

  /** In that example the pattern matches at position 0, and the group runs from the first '{' to the last '}'. */
  lemma QuotedBraceMatch(s: string)
    requires s == "```json\n{\"a\": \"}\"}\n```"
    ensures MatchAt(s, 0) == Some((8, 17))
  {
    assert s[3..7] == "json";
    assert TagEnd(s, 0) == 7;
    assert SkipSpaces(s, 7) == 8;
    QuotedBraceCloses(s);
    FirstCloseIs(s, 9, 17);
    MatchAtIs(s, 0, 8, 17);
  }

  /** Only the last '}' of that example is followed by the closing fence. */
  lemma QuotedBraceCloses(s: string)
    requires s == "```json\n{\"a\": \"}\"}\n```"
    ensures ClosesFence(s, 17)
    ensures forall k | 9 <= k < 17 :: !ClosesFence(s, k)
  {
    assert SkipSpaces(s, 18) == 19;
    assert s[19..22] == "```";
    assert SkipSpaces(s, 16) == 16;
    assert s[16..19] != "```";
    assert !ClosesFence(s, 15);
    assert forall k | 9 <= k < 17 && k != 15 :: s[k] != '}';
  }

  /** The brace scan counts a quoted '}' like any other and stops there. */
  lemma ScanStopsAtQuotedBrace(t: string)
    requires t == "{\"a\": \"}\"}\n```"
    ensures Outermost(t) == Some("{\"a\": \"}")
  {
    assert t[..0] == [];
    DepthStep(t, 0);
    DepthStep(t, 1);
    DepthStep(t, 2);
    DepthStep(t, 3);
    DepthStep(t, 4);
    DepthStep(t, 5);
    DepthStep(t, 6);
    DepthStep(t, 7);
    assert ClosesOutermost(t, 8);
    ClosesOutermostUnique(t, 8, |Outermost(t).value|);
    assert t[..8] == "{\"a\": \"}";
  }
}
