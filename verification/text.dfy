/**
 * Character-level helpers used by the JSON extractor: Python's notion of
 * whitespace (`str.isspace`, which is also what `\s` matches in a `re`
 * pattern over `str`), `str.strip`, `str.find` and brace counting.
 */
module Text {
  import opened Wrappers

  /** The characters Python treats as whitespace in `str.isspace`, `str.strip` and `\s`. */
  predicate IsSpace(c: char)
  {
    c == ' ' || '\t' <= c <= '\r' || '\U{1C}' <= c <= '\U{1F}' ||
    c == '\U{85}' || c == '\U{A0}' || c == '\U{1680}' ||
    '\U{2000}' <= c <= '\U{200A}' || c == '\U{2028}' || c == '\U{2029}' ||
    c == '\U{202F}' || c == '\U{205F}' || c == '\U{3000}'
  }

  /** `str.lstrip()`: drop leading whitespace. */
  function LStrip(s: string): (r: string)
    ensures |r| <= |s| && r == s[|s| - |r|..]
    ensures forall j | 0 <= j < |s| - |r| :: IsSpace(s[j])
    ensures r != [] ==> !IsSpace(r[0])
  {
    if s != [] && IsSpace(s[0]) then LStrip(s[1..]) else s
  }

  /** `str.rstrip()`: drop trailing whitespace. */
  function RStrip(s: string): (r: string)
    ensures |r| <= |s| && r == s[..|r|]
    ensures forall j | |r| <= j < |s| :: IsSpace(s[j])
    ensures r != [] ==> !IsSpace(r[|r| - 1])
  {
    if s != [] && IsSpace(s[|s| - 1]) then RStrip(s[..|s| - 1]) else s
  }

  /**
   * `r` is what `str.strip()` leaves of `s` when the leading whitespace is
   * `k` characters long: the slice of `s` starting at `k`, with only
   * whitespace outside it, beginning and ending with a non-space unless empty.
   */
  predicate Stripped(s: string, k: nat, r: string)
  {
    k + |r| <= |s| && r == s[k..k + |r|] &&
    (forall j | 0 <= j < k :: IsSpace(s[j])) &&
    (forall j | k + |r| <= j < |s| :: IsSpace(s[j])) &&
    (r != [] ==> !IsSpace(r[0]) && !IsSpace(r[|r| - 1]))
  }

  /** `str.strip()`: drop whitespace at both ends. */
  function Strip(s: string): (r: string)
    ensures Stripped(s, |s| - |LStrip(s)|, r)
  {
    StripShape(s, LStrip(s), RStrip(LStrip(s)));
    RStrip(LStrip(s))
  }

  /** Stripping `l`, a suffix of `s` after leading whitespace, at the end leaves `r`, a slice of `s` with whitespace around it. */
  lemma StripShape(s: string, l: string, r: string)
    requires |l| <= |s| && l == s[|s| - |l|..] && (l != [] ==> !IsSpace(l[0]))
    requires forall j | 0 <= j < |s| - |l| :: IsSpace(s[j])
    requires |r| <= |l| && r == l[..|r|] && (forall j | |r| <= j < |l| :: IsSpace(l[j]))
    requires r != [] ==> !IsSpace(r[|r| - 1])
    ensures Stripped(s, |s| - |l|, r)
  {
    SliceOfSlice(s, l, r, |s| - |l|);
    if r != [] {
      assert r[0] == l[0];
    }
  }

  /** A prefix `r` of the suffix `l == s[k..]`, followed in `l` by whitespace only, is `s[k..k+|r|]` with whitespace after it in `s`. */
  lemma SliceOfSlice(s: string, l: string, r: string, k: nat)
    requires k + |l| == |s| && l == s[k..] && |r| <= |l| && r == l[..|r|]
    requires forall j | |r| <= j < |l| :: IsSpace(l[j])
    ensures k + |r| <= |s| && r == s[k..k + |r|]
    ensures forall j | k + |r| <= j < |s| :: IsSpace(s[j])
  {
    forall j | k + |r| <= j < |s| ensures IsSpace(s[j]) {
      assert s[j] == l[j - k];
    }
  }

  /** On a string that starts with a non-space, `strip()` only removes a run of trailing whitespace. */
  lemma StripKeepsNonSpaceStart(s: string)
    requires s != [] && !IsSpace(s[0])
    ensures 0 < |Strip(s)| <= |s| && Strip(s) == s[..|Strip(s)|]
    ensures forall j | |Strip(s)| <= j < |s| :: IsSpace(s[j])
  {
    assert LStrip(s) == s;
  }

  /** `s.find(c)`: the index of the first occurrence of `c`, if any. */
  function Find(s: string, c: char): (r: Option<nat>)
    ensures r.Some? ==> r.value < |s| && s[r.value] == c && c !in s[..r.value]
    ensures r.None? <==> c !in s
  {
    if s == [] then None
    else if s[0] == c then Some(0)
    else match Find(s[1..], c)
      case None => None
      case Some(i) => Some(i + 1)
  }

  /** `find` returns the position of the first occurrence, whatever way it is established. */
  lemma FindIs(s: string, c: char, i: nat)
    requires i < |s| && s[i] == c && c !in s[..i]
    ensures Find(s, c) == Some(i)
  {
  }

  /** Number of occurrences of `c` in `s`. */
  function Count(s: string, c: char): nat
  {
    if s == [] then 0 else Count(s[..|s| - 1], c) + (if s[|s| - 1] == c then 1 else 0)
  }

  /** Brace nesting depth after reading `s`: opening braces minus closing braces. */
  function Depth(s: string): int
  {
    Count(s, '{') - Count(s, '}')
  }

  /** The change of depth caused by one character. */
  function Delta(c: char): int
  {
    if c == '{' then 1 else if c == '}' then -1 else 0
  }

  /** Reading one more character changes the depth by that character's delta. */
  lemma DepthStep(s: string, i: nat)
    requires i < |s|
    ensures Depth(s[..i + 1]) == Depth(s[..i]) + Delta(s[i])
  {
    assert s[..i + 1][..i] == s[..i];
  }

  /** Whitespace never changes the depth: the depth after a prefix is the depth of the prefix before trailing spaces. */
  lemma {:induction false} DepthOverSpaces(s: string, k: nat, m: nat)
    requires k <= m <= |s|
    requires forall j | k <= j < |s| :: IsSpace(s[j])
    ensures Depth(s[..m]) == Depth(s[..k])
    decreases m - k
  {
    if m > k {
      DepthOverSpaces(s, k, m - 1);
      DepthStep(s, m - 1);
    }
  }
}
