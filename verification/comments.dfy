/**
 The comment engine of htmlpack: the regular expression `<!--(.*?)-->` with
 `re.DOTALL`, as used by `re.findall` (the reported comment bodies) and by
 `re.sub(pattern, '', ...)` (the stripped text).

 Python's matcher tries the pattern at position 0, 1, 2, ... of the text.
 At a position where the text starts with `<!--` it looks for the first
 `-->` that begins at or after the end of that opener (the lazy `.*?`
 matches any character, newlines included); when one exists the match
 covers the opener, the body and the closer, and the scan resumes right
 after the closer, otherwise the scan moves on by one character. The
 pattern never matches the empty string. Since the pattern has no anchors
 or look-behind, whether a match starts at position `i` depends only on the
 suffix `s[i..]`, so the scan is written over suffixes.
 */
module Comments {
  import opened Wrappers

  type Text = seq<char>

  const Opener: Text := "<!--"
  const Closer: Text := "-->"

  /** `s` holds the opener `<!--` at position `p`. */
  predicate OpensAt(s: Text, p: int) {
    0 <= p && p + 4 <= |s| && s[p] == '<' && s[p + 1] == '!' && s[p + 2] == '-' && s[p + 3] == '-'
  }

  /** `s` holds the closer `-->` at position `q`. */
  predicate ClosesAt(s: Text, q: int) {
    0 <= q && q + 3 <= |s| && s[q] == '-' && s[q + 1] == '-' && s[q + 2] == '>'
  }

  /** No opener anywhere in `s`. */
  predicate NoOpener(s: Text) {
    forall p :: 0 <= p < |s| ==> !OpensAt(s, p)
  }

  /** No closer anywhere in `s`. */
  predicate NoCloser(s: Text) {
    forall q :: 0 <= q < |s| ==> !ClosesAt(s, q)
  }

  /** `s` holds no opener followed, at or after its end, by a closer: the
      pattern matches nowhere in `s`. */
  predicate NoComment(s: Text) {
    forall p, q :: 0 <= p < |s| && 0 <= q < |s| && OpensAt(s, p) && p + 4 <= q ==> !ClosesAt(s, q)
  }

  /** The first closer of `s` at or after position `k`. */
  function FindCloserFrom(s: Text, k: nat): (r: Option<nat>)
    ensures r.Some? ==> k <= r.value && ClosesAt(s, r.value)
    ensures r.Some? ==> forall q :: k <= q < r.value ==> !ClosesAt(s, q)
    ensures r.None? ==> forall q :: k <= q ==> !ClosesAt(s, q)
    decreases |s| - k
  {
    if k + 3 > |s| then None
    else if ClosesAt(s, k) then Some(k)
    else FindCloserFrom(s, k + 1)
  }

  /** The attempt of the pattern at the front of `s`: the length of the
      body when a match starts there. The match then spans `s[..n + 7]` and
      its body is `s[4..4 + n]`. */
  function MatchAt(s: Text): (r: Option<nat>)
    ensures r.Some? ==> OpensAt(s, 0) && ClosesAt(s, 4 + r.value)
    ensures r.Some? ==> forall q :: 4 <= q < 4 + r.value ==> !ClosesAt(s, q)
    ensures r.None? ==> !OpensAt(s, 0) || forall q :: 4 <= q ==> !ClosesAt(s, q)
  {
    if OpensAt(s, 0) then
      match FindCloserFrom(s, 4)
      case Some(q) => Some(q - 4)
      case None => None
    else None
  }

  /** `re.findall(pattern, s, flags=re.DOTALL)`: the bodies of all matches,
      in document order. No body contains a closer (the match is lazy). */
  function FindAll(s: Text): (r: seq<Text>)
    ensures forall k :: 0 <= k < |r| ==> NoCloser(r[k])
    decreases |s|
  {
    if |s| == 0 then []
    else match MatchAt(s)
      case Some(n) =>
        var body := s[4..4 + n];
        assert NoCloser(body) by {
          forall q | 0 <= q < |body| ensures !ClosesAt(body, q) {
            if ClosesAt(body, q) { assert ClosesAt(s, 4 + q); }
          }
        }
        [body] + FindAll(s[n + 7..])
      case None => FindAll(s[1..])
  }

  /** `re.sub(pattern, '', s, flags=re.DOTALL)`: the text with every match
      deleted. */
  function Strip(s: Text): (r: Text)
    ensures |r| <= |s|
    decreases |s|
  {
    if |s| == 0 then []
    else match MatchAt(s)
      case Some(n) => Strip(s[n + 7..])
      case None => [s[0]] + Strip(s[1..])
  }

  /** The stretches of text between the matches: the first one precedes
      the first match and the last one follows the last match. */
  function Gaps(s: Text): (g: seq<Text>)
    ensures |g| == |FindAll(s)| + 1
    decreases |s|
  {
    if |s| == 0 then [[]]
    else match MatchAt(s)
      case Some(n) => [[]] + Gaps(s[n + 7..])
      case None =>
        var g := Gaps(s[1..]);
        [[s[0]] + g[0]] + g[1..]
  }

  /** Puts a text back together from its gaps and comment bodies. */
  function Rebuild(gaps: seq<Text>, bodies: seq<Text>): Text
    requires |gaps| == |bodies| + 1
    decreases |bodies|
  {
    if |bodies| == 0 then gaps[0]
    else gaps[0] + Opener + bodies[0] + Closer + Rebuild(gaps[1..], bodies[1..])
  }

  /** The concatenation of a sequence of texts. */
  function Concat(ts: seq<Text>): Text
    decreases |ts|
  {
    if |ts| == 0 then [] else ts[0] + Concat(ts[1..])
  }

  /** The total length of the spans whose bodies are `bodies`: each body
      plus the four characters of `<!--` and the three of `-->`. */
  function SpanTotal(bodies: seq<Text>): nat
    decreases |bodies|
  {
    if |bodies| == 0 then 0 else |bodies[0]| + 7 + SpanTotal(bodies[1..])
  }

  /** The declarative reading of the pattern, independent of the scan:
      `s` is `gaps[0] <!-- bodies[0] --> gaps[1] ... <!-- bodies[n-1] --> gaps[n]`
      where no body holds a closer (each match ends at the first closer),
      no gap before a match holds an opener (each match starts at the
      leftmost place a match can start), and the last gap holds no match. */
  predicate IsDecomposition(s: Text, gaps: seq<Text>, bodies: seq<Text>) {
    && |gaps| == |bodies| + 1
    && Rebuild(gaps, bodies) == s
    && (forall k :: 0 <= k < |bodies| ==> NoCloser(bodies[k]))
    && (forall k :: 0 <= k < |bodies| ==> NoOpener(gaps[k]))
    && NoComment(gaps[|bodies|])
  }
}
