/**
  The poster-link rewrite of `csvDataProcessing/moviePosterLinkCleaner.py`.

  `re.sub(r'(_V1_).*?(_AL_|\.jpg)', r'\1_AL_\2', link)` is modelled by an
  explicit matcher: the scan tries a match at each position from the left;
  a match is `_V1_`, then the shortest run of characters other than a
  newline (`.` does not match it) after which `_AL_` or `.jpg` follows, the
  first alternative winning where both could. A match is replaced by
  `_V1__AL_` and the terminator, and the scan resumes after it. When the
  result ends in `_AL_.jpg`, every occurrence of `_AL_.jpg` is then
  replaced by `.jpg`.
 */
module PosterLink {
  import opened Wrappers
  import opened Text
  import TitleJoin

  const Marker: string := "_V1_"
  const AlTag: string := "_AL_"
  const JpgTag: string := ".jpg"

  /** A match's terminator (group 2) and where it starts. */
  datatype Match = Match(termStart: nat, term: string)

  /**
    The lazy `.*?(_AL_|\.jpg)` tried from position `k`: the first position at
    or after `k` where a terminator starts, provided no newline lies before it.
   */
  function LazyFrom(s: string, k: nat): (r: Option<Match>)
    requires k <= |s|
    ensures r.Some? ==> k <= r.value.termStart && r.value.termStart + 4 <= |s| && |r.value.term| == 4
    decreases |s| - k
  {
    if OccursAt(s, AlTag, k) then Some(Match(k, AlTag))
    else if OccursAt(s, JpgTag, k) then Some(Match(k, JpgTag))
    else if k < |s| && s[k] != '\n' then LazyFrom(s, k + 1)
    else None
  }

  /** The match of the whole pattern starting at `i`, if there is one. */
  function MatchAt(s: string, i: nat): (r: Option<Match>)
    ensures r.Some? ==> i + 4 <= r.value.termStart && r.value.termStart + 4 <= |s| && |r.value.term| == 4
  {
    if OccursAt(s, Marker, i) then LazyFrom(s, i + 4) else None
  }

  /**
    Reference reading of the lazy part: the terminator `t` starts at `k`, at
    or after `from`; no character before it is a newline or starts a
    terminator; and `.jpg` is chosen only where `_AL_` does not also fit.
   */
  predicate LazyStop(s: string, from: nat, k: nat, t: string) {
    from <= k
    && (t == AlTag || (t == JpgTag && !OccursAt(s, AlTag, k)))
    && OccursAt(s, t, k)
    && forall j :: from <= j < k ==> s[j] != '\n' && !OccursAt(s, AlTag, j) && !OccursAt(s, JpgTag, j)
  }

  /** A match of the whole pattern at `i` whose terminator `t` starts at `k`. */
  predicate IsLazyMatch(s: string, i: nat, k: nat, t: string) {
    OccursAt(s, Marker, i) && LazyStop(s, i + 4, k, t)
  }

  lemma {:induction false} LazyFromSound(s: string, k0: nat)
    requires k0 <= |s|
    ensures LazyFrom(s, k0).Some? ==> LazyStop(s, k0, LazyFrom(s, k0).value.termStart, LazyFrom(s, k0).value.term)
    decreases |s| - k0
  {
    if !OccursAt(s, AlTag, k0) && !OccursAt(s, JpgTag, k0) && k0 < |s| && s[k0] != '\n' {
      LazyFromSound(s, k0 + 1);
    }
  }

  lemma {:induction false} LazyFromComplete(s: string, k0: nat, k: nat, t: string)
    requires k0 <= |s|
    requires LazyStop(s, k0, k, t)
    ensures LazyFrom(s, k0) == Some(Match(k, t))
    decreases k - k0
  {
    if k0 < k {
      assert s[k0] != '\n' && !OccursAt(s, AlTag, k0) && !OccursAt(s, JpgTag, k0);
      LazyFromComplete(s, k0 + 1, k, t);
    }
  }

  /** The matcher finds exactly the reference matches. */
  lemma MatchAtIsLazyMatch(s: string, i: nat, k: nat, t: string)
    ensures MatchAt(s, i) == Some(Match(k, t)) <==> IsLazyMatch(s, i, k, t)
  {
    if OccursAt(s, Marker, i) {
      LazyFromSound(s, i + 4);
      if IsLazyMatch(s, i, k, t) {
        LazyFromComplete(s, i + 4, k, t);
      }
    }
  }

  lemma MatchAtSound(s: string, i: nat)
    ensures MatchAt(s, i).Some? ==> IsLazyMatch(s, i, MatchAt(s, i).value.termStart, MatchAt(s, i).value.term)
  {
    if OccursAt(s, Marker, i) {
      LazyFromSound(s, i + 4);
    }
  }

  /** Without an `_V1_` at `i` nothing matches there. */
  lemma MatchAtNeedsMarker(s: string, i: nat)
    ensures MatchAt(s, i).Some? ==> OccursAt(s, Marker, i)
  {
  }

  /** The text `re.sub` produces from position `i` on. */
  function SubFrom(s: string, i: nat): string
    requires i <= |s|
    decreases |s| - i
  {
    if i == |s| then ""
    else if MatchAt(s, i).Some? then Marker + AlTag + MatchAt(s, i).value.term + SubFrom(s, MatchAt(s, i).value.termStart + 4)
    else [s[i]] + SubFrom(s, i + 1)
  }

  /** `re.sub(pattern, r'\1_AL_\2', link)`. */
  function Substitute(s: string): string {
    SubFrom(s, 0)
  }

  /** `process_poster_link`. */
  function ProcessPosterLink(link: string): string {
    var n := Substitute(link);
    if EndsWith(n, AlTag + JpgTag) then ReplaceAll(n, AlTag + JpgTag, JpgTag) else n
  }

  /** Where nothing matches, one character is copied. */
  lemma SubFromCopies(s: string, i: nat)
    requires i < |s|
    requires MatchAt(s, i).None?
    ensures SubFrom(s, i) == [s[i]] + SubFrom(s, i + 1)
  {
  }

  /** Where a match starts, it is rewritten and the scan resumes after it. */
  lemma SubFromRewrites(s: string, i: nat)
    requires i < |s|
    requires MatchAt(s, i).Some?
    ensures SubFrom(s, i) == Marker + AlTag + MatchAt(s, i).value.term + SubFrom(s, MatchAt(s, i).value.termStart + 4)
  {
  }

  /** Positions where nothing matches are copied through. */
  lemma {:induction false} SubFromSkips(s: string, i: nat, j: nat)
    requires i <= j <= |s|
    requires forall l: nat :: i <= l < j ==> MatchAt(s, l).None?
    ensures SubFrom(s, i) == s[i..j] + SubFrom(s, j)
    decreases j - i
  {
    if i < j {
      SubFromCopies(s, i);
      SubFromSkips(s, i + 1, j);
      CopiedPrefix(s, i, j, SubFrom(s, i), SubFrom(s, i + 1), SubFrom(s, j));
    }
  }

  lemma CopiedPrefix(s: string, i: nat, j: nat, out: string, next: string, rest: string)
    requires i < j <= |s|
    requires out == [s[i]] + next && next == s[i + 1..j] + rest
    ensures out == s[i..j] + rest
  {
    assert s[i..j] == [s[i]] + s[i + 1..j];
  }

  /** A link with no `_V1_` in it is left as it is by the substitution. */
  lemma SubstituteWithoutMarker(s: string)
    requires forall l: nat :: !OccursAt(s, Marker, l)
    ensures Substitute(s) == s
  {
    SubFromSkips(s, 0, |s|);
  }

  /** No reference match at `l` means the matcher finds none there. */
  lemma MatchAtNoneWhenNoLazyMatch(s: string, l: nat)
    requires forall k': nat, t': string :: !IsLazyMatch(s, l, k', t')
    ensures MatchAt(s, l).None?
  {
    MatchAtSound(s, l);
  }

  lemma NoMatchBefore(s: string, i: nat)
    requires forall j: nat, k': nat, t': string :: j < i ==> !IsLazyMatch(s, j, k', t')
    ensures forall l: nat :: l < i ==> MatchAt(s, l).None?
  {
    forall l: nat | l < i ensures MatchAt(s, l).None? {
      MatchAtNoneWhenNoLazyMatch(s, l);
    }
  }

  /**
    The first match decides the prefix: when the leftmost match starts at
    `i` with terminator `t` at `k`, the output is the text before `i`, then
    the rewritten match, then the rewrite of what follows the match.
   */
  lemma SubstituteFirstMatch(s: string, i: nat, k: nat, t: string)
    requires IsLazyMatch(s, i, k, t)
    requires forall j: nat, k': nat, t': string :: j < i ==> !IsLazyMatch(s, j, k', t')
    ensures Substitute(s) == s[..i] + Marker + AlTag + t + SubFrom(s, k + 4)
  {
    MatchOfLazyMatch(s, i, k, t);
    RewritesAt(s, i, k, t);
    CopiedUntil(s, i);
    RewrittenAfterPrefix(s, i, t, Substitute(s), SubFrom(s, i), SubFrom(s, k + 4));
  }

  lemma CopiedUntil(s: string, i: nat)
    requires i <= |s|
    requires forall j: nat, k': nat, t': string :: j < i ==> !IsLazyMatch(s, j, k', t')
    ensures SubFrom(s, 0) == s[0..i] + SubFrom(s, i)
  {
    NoMatchBefore(s, i);
    SubFromSkips(s, 0, i);
  }

  lemma MatchOfLazyMatch(s: string, i: nat, k: nat, t: string)
    requires IsLazyMatch(s, i, k, t)
    ensures i < |s| && MatchAt(s, i) == Some(Match(k, t))
  {
    assert i < |s| by { assert OccursAt(s, Marker, i); }
    MatchAtIsLazyMatch(s, i, k, t);
  }

  lemma RewritesAt(s: string, i: nat, k: nat, t: string)
    requires i < |s| && MatchAt(s, i) == Some(Match(k, t))
    ensures SubFrom(s, i) == Marker + AlTag + t + SubFrom(s, k + 4)
  {
    SubFromRewrites(s, i);
  }

  lemma RewrittenAfterPrefix(s: string, i: nat, t: string, whole: string, from: string, rest: string)
    requires i <= |s|
    requires whole == s[0..i] + from && from == Marker + AlTag + t + rest
    ensures whole == s[..i] + Marker + AlTag + t + rest
  {
    assert s[0..i] == s[..i];
  }

  /** A link that the substitution leaves without the `_AL_.jpg` suffix is not rewritten further. */
  lemma ProcessWithoutSuffix(link: string)
    requires !EndsWith(Substitute(link), AlTag + JpgTag)
    ensures ProcessPosterLink(link) == Substitute(link)
  {
  }

  /** A link with no `_V1_` and no `_AL_.jpg` suffix comes back unchanged. */
  lemma ProcessUnmarkedLink(link: string)
    requires forall l: nat :: !OccursAt(link, Marker, l)
    requires !EndsWith(link, AlTag + JpgTag)
    ensures ProcessPosterLink(link) == link
  {
    SubstituteWithoutMarker(link);
  }

  /** An occurrence of `p` at `i` fixes the characters it covers. */
  lemma OccursAtChar(s: string, p: string, i: nat, j: nat)
    ensures OccursAt(s, p, i) && j < |p| ==> s[i + j] == p[j]
  {
    if OccursAt(s, p, i) && j < |p| {
      assert s[i..i + |p|][j] == s[i + j];
    }
  }

  /** Once the substitution has produced `prefix + "_AL_.jpg"` with no earlier occurrence, the final step leaves `prefix + ".jpg"`. */
  lemma ReplaceFinalSuffix(prefix: string, v: string)
    requires v == AlTag + JpgTag
    requires forall j: nat :: j < |prefix| ==> !OccursAt(prefix + v, v, j)
    ensures ReplaceAll(prefix + v, v, JpgTag) == prefix + JpgTag
  {
    ReplaceAllSkipsPrefix(prefix, v, v, JpgTag);
    assert v[..|v|] == v && v[|v|..] == [];
  }

  /** The size directive between `_V1_` and `.jpg` is dropped and `_AL_` takes its place. */
  lemma SubstituteExampleSized(link: string)
    requires link == "poster_V1_SX300.jpg"
    ensures Substitute(link) == link[..10] + AlTag + JpgTag
  {
    forall j: nat, k': nat, t': string | j < 6 ensures !IsLazyMatch(link, j, k', t') {
      OccursAtChar(link, Marker, j, 1);
    }
    assert OccursAt(link, Marker, 6);
    var size := "SX300";
    assert link[10..15] == size;
    forall j | 10 <= j < 15 ensures link[j] != '\n' && !OccursAt(link, AlTag, j) && !OccursAt(link, JpgTag, j) {
      assert link[j] == size[j - 10];
      assert size[j - 10] != '\n' && size[j - 10] != '_' && size[j - 10] != '.';
      OccursAtChar(link, AlTag, j, 0);
      OccursAtChar(link, JpgTag, j, 0);
    }
    assert LazyStop(link, 10, 15, JpgTag);
    SubstituteFirstMatch(link, 6, 15, JpgTag);
    assert SubFrom(link, 19) == "";
    assert link[..6] + Marker == link[..10];
  }

  lemma ProcessExampleSized(link: string, large: string)
    requires link == "poster_V1_SX300.jpg" && large == "poster_V1_.jpg"
    ensures ProcessPosterLink(link) == large
  {
    SubstituteExampleSized(link);
    var prefix, v := link[..10], AlTag + JpgTag;
    var n := prefix + v;
    assert Substitute(link) == n;
    forall j: nat | j < |prefix| ensures !OccursAt(n, v, j) {
      OccursAtChar(n, v, j, 4);
      if j < 6 {
        assert n[j + 4] == link[j + 4];
      } else {
        assert n[j + 4] == v[j - 6];
      }
    }
    ReplaceFinalSuffix(prefix, v);
    assert EndsWith(n, v);
  }

  lemma ProcessExampleNoMarker(link: string)
    requires link == "poster_no_marker.png"
    ensures ProcessPosterLink(link) == link
  {
    forall l: nat ensures !OccursAt(link, Marker, l) {
      OccursAtChar(link, Marker, l, 1);
    }
    assert !EndsWith(link, AlTag + JpgTag) by { assert link[|link| - 8..][5] != (AlTag + JpgTag)[5]; }
    ProcessUnmarkedLink(link);
  }

  /** Without `_V1_`, a link ending in `_AL_.jpg` is still rewritten. */
  lemma ProcessExampleUnmarkedSuffix(link: string, cleaned: string)
    requires link == "x_AL_.jpg" && cleaned == "x.jpg"
    ensures ProcessPosterLink(link) == cleaned
  {
    forall l: nat ensures !OccursAt(link, Marker, l) {
      OccursAtChar(link, Marker, l, 1);
    }
    SubstituteWithoutMarker(link);
    var v := AlTag + JpgTag;
    var x := link[..1];
    assert link == x + v;
    OccursAtChar(link, v, 0, 0);
    ReplaceFinalSuffix(x, v);
  }

  /** Every `_AL_.jpg`, not only the final one, becomes `.jpg`: `c_AL_.jpg_AL_.jpg` gives `c.jpg.jpg`. */
  lemma ProcessEveryOccurrence(c: char)
    ensures ProcessPosterLink([c] + AlTag + JpgTag + AlTag + JpgTag) == [c] + JpgTag + JpgTag
  {
    var x, v := [c], AlTag + JpgTag;
    var link := x + v + v;
    assert link == [c] + AlTag + JpgTag + AlTag + JpgTag;
    assert v + v == "_AL_.jpg_AL_.jpg";
    forall l: nat ensures !OccursAt(link, Marker, l) {
      OccursAtChar(link, Marker, l, 1);
      if l + 1 < |link| {
        assert link[l + 1] == (v + v)[l];
      }
    }
    SubstituteWithoutMarker(link);
    assert link[|link| - |v|..] == v;
    ReplaceTwoSuffixes(x, v);
  }

  /** One character followed by two `_AL_.jpg` keeps the character and turns both into `.jpg`. */
  lemma ReplaceTwoSuffixes(x: string, v: string)
    requires |x| == 1 && v == AlTag + JpgTag
    ensures ReplaceAll(x + v + v, v, JpgTag) == x + JpgTag + JpgTag
  {
    var w := v + v;
    assert x + v + v == x + w;
    assert !OccursAt(x + w, v, 0) by {
      assert (x + w)[0..|v|][1] == w[0];
      assert v[1] == 'A' && w[0] == '_';
    }
    ReplaceAllSkipsPrefix(x, w, v, JpgTag);
    assert w[..|v|] == v && w[|v|..] == v;
    assert v[..|v|] == v && v[|v|..] == [];
    assert ReplaceAll(v, v, JpgTag) == JpgTag + ReplaceAll([], v, JpgTag);
  }

  /** `.` does not match a newline, so a newline between `_V1_` and `.jpg` prevents the match. */
  lemma ProcessExampleNewline(link: string)
    requires link == "a_V1_\n.jpg"
    ensures ProcessPosterLink(link) == link
  {
    forall l: nat | l < |link| ensures MatchAt(link, l).None? {
      if l == 1 {
        OccursAtChar(link, AlTag, 5, 0);
        OccursAtChar(link, JpgTag, 5, 0);
      } else {
        OccursAtChar(link, Marker, l, 1);
      }
    }
    SubFromSkips(link, 0, |link|);
    assert !EndsWith(link, AlTag + JpgTag) by { assert link[|link| - 8..][0] != (AlTag + JpgTag)[0]; }
  }

  /** A row of the joined table with the added `Poster_Link_Large` column. */
  datatype PosterRow = PosterRow(row: TitleJoin.JoinedRow, posterLinkLarge: string)

  /** `df['Poster_Link_Large'] = df['Poster_Link'].apply(process_poster_link)`. */
  function AddLargePosterLinks(rows: seq<TitleJoin.JoinedRow>): (r: seq<PosterRow>)
    ensures |r| == |rows|
    ensures forall i :: 0 <= i < |r| ==>
      r[i].row == rows[i] && r[i].posterLinkLarge == ProcessPosterLink(rows[i].catalog.posterLink)
  {
    seq(|rows|, i requires 0 <= i < |rows| => PosterRow(rows[i], ProcessPosterLink(rows[i].catalog.posterLink)))
  }
}
