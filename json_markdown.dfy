/**
  `JSON+Utilities.swift`, `JSON._extractJSONStrings(fromMarkdown:)`: find the
  brace-delimited candidates in Markdown text by counting `{` and `}` (string
  literals are not recognised), fail when the braces do not balance overall,
  and keep, in order, the candidates that parse as JSON. The parser
  (`JSON(jsonString:)`) is a parameter that gives `None` where it throws.
 */
module JsonMarkdown {
  import opened Wrappers
  import opened Text
  import opened JsonValue

  /** The closed range `start...end` of one candidate. */
  datatype Candidate = Candidate(start: nat, end: nat)

  /** `_PlaceholderError`, thrown when the braces do not balance. */
  datatype ScanError = Unbalanced

  /** The scanner's `depth`, `startIndex` and `possibleJSONStrings`. */
  datatype Scan = Scan(depth: int, startIndex: Option<nat>, found: seq<Candidate>)

  /** The loop body for character `c` at position `i`. */
  function Step(st: Scan, i: nat, c: char): Scan {
    if c == '{' then
      Scan(st.depth + 1, if st.depth == 0 then Some(i) else st.startIndex, st.found)
    else if c == '}' then
      if st.depth - 1 == 0 && st.startIndex.Some? then
        Scan(st.depth - 1, None, st.found + [Candidate(st.startIndex.value, i)])
      else
        Scan(st.depth - 1, st.startIndex, st.found)
    else
      st
  }

  function Run(s: string): Scan
    decreases |s|
  {
    if |s| == 0 then Scan(0, None, []) else Step(Run(s[..|s| - 1]), |s| - 1, s[|s| - 1])
  }

  /** Opening minus closing braces, counted from the left. */
  function Balance(s: string): int
    decreases |s|
  {
    if |s| == 0 then 0
    else Balance(s[..|s| - 1]) + (if s[|s| - 1] == '{' then 1 else if s[|s| - 1] == '}' then -1 else 0)
  }

  lemma BalanceSnoc(s: string, c: char)
    ensures Balance(s + [c]) == Balance(s) + (if c == '{' then 1 else if c == '}' then -1 else 0)
  {
    assert (s + [c])[..|s|] == s;
  }

  /** A candidate of `s`: a `{` and a `}` whose braces balance, with the depth positive strictly inside. */
  ghost predicate Balanced(s: string, c: Candidate) {
    c.start < c.end < |s| && s[c.start] == '{' && s[c.end] == '}' &&
    Balance(s[c.start..c.end + 1]) == 0 &&
    forall m :: c.start < m <= c.end ==> Balance(s[c.start..m]) > 0
  }

  /** Candidates in source order, each ending before the next starts. */
  predicate InOrder(cs: seq<Candidate>) {
    forall k :: 0 <= k < |cs| - 1 ==> cs[k].end < cs[k + 1].start
  }

  /** What holds of the scanner's state after the prefix `s`. */
  ghost predicate Good(s: string, st: Scan) {
    (forall k :: 0 <= k < |st.found| ==> Balanced(s, st.found[k])) &&
    InOrder(st.found) &&
    (st.startIndex.None? ==> st.depth <= 0) &&
    (st.startIndex.Some? ==>
      var p := st.startIndex.value;
      p < |s| && s[p] == '{' && st.depth >= 1 && Balance(s[p..]) == st.depth &&
      (forall m :: p < m <= |s| ==> Balance(s[p..m]) > 0) &&
      (|st.found| > 0 ==> st.found[|st.found| - 1].end < p))
  }

  lemma BalancedExtends(s: string, x: char, c: Candidate)
    requires Balanced(s, c)
    ensures Balanced(s + [x], c)
  {
    var s' := s + [x];
    assert s'[c.start..c.end + 1] == s[c.start..c.end + 1];
    forall m | c.start < m <= c.end ensures Balance(s'[c.start..m]) > 0 {
      assert s'[c.start..m] == s[c.start..m];
    }
  }

  lemma OpenExtends(s: string, x: char, p: nat, depth: int)
    requires p < |s| && s[p] == '{' && Balance(s[p..]) == depth
    requires forall m :: p < m <= |s| ==> Balance(s[p..m]) > 0
    requires depth + (if x == '{' then 1 else if x == '}' then -1 else 0) > 0
    ensures Balance((s + [x])[p..]) == depth + (if x == '{' then 1 else if x == '}' then -1 else 0)
    ensures forall m :: p < m <= |s| + 1 ==> Balance((s + [x])[p..m]) > 0
  {
    var s' := s + [x];
    assert s'[p..] == s[p..] + [x];
    BalanceSnoc(s[p..], x);
    forall m | p < m <= |s| + 1 ensures Balance(s'[p..m]) > 0 {
      if m <= |s| {
        assert s'[p..m] == s[p..m];
      } else {
        assert s'[p..m] == s'[p..];
      }
    }
  }

  lemma FoundExtends(s: string, x: char, cs: seq<Candidate>)
    requires forall k :: 0 <= k < |cs| ==> Balanced(s, cs[k])
    ensures forall k :: 0 <= k < |cs| ==> Balanced(s + [x], cs[k])
  {
    forall k | 0 <= k < |cs| ensures Balanced(s + [x], cs[k]) {
      BalancedExtends(s, x, cs[k]);
    }
  }

  lemma StepOpenGood(s: string, st: Scan)
    requires Good(s, st)
    ensures Good(s + ['{'], Step(st, |s|, '{'))
  {
    var s' := s + ['{'];
    FoundExtends(s, '{', st.found);
    if st.depth == 0 {
      assert s'[|s|..] == ['{'];
      assert ['{'][..0] == [];
      assert Balance(['{']) == 1;
      forall m | |s| < m <= |s'| ensures Balance(s'[|s|..m]) > 0 {
        assert s'[|s|..m] == ['{'];
      }
    } else if st.startIndex.Some? {
      OpenExtends(s, '{', st.startIndex.value, st.depth);
    }
  }

  /** The `}` that brings the depth back to 0 closes a balanced candidate. */
  lemma ClosingCandidate(s: string, p: nat)
    requires p < |s| && s[p] == '{' && Balance(s[p..]) == 1
    requires forall m :: p < m <= |s| ==> Balance(s[p..m]) > 0
    ensures Balanced(s + ['}'], Candidate(p, |s|))
  {
    var s' := s + ['}'];
    assert s'[p..|s| + 1] == s[p..] + ['}'];
    BalanceSnoc(s[p..], '}');
    forall m | p < m <= |s| ensures Balance(s'[p..m]) > 0 {
      assert s'[p..m] == s[p..m];
    }
  }

  lemma CloseRecords(s: string, st: Scan)
    requires Good(s, st)
    requires st.depth == 1 && st.startIndex.Some?
    ensures Good(s + ['}'], Step(st, |s|, '}'))
  {
    var p := st.startIndex.value;
    var c := Candidate(p, |s|);
    assert Step(st, |s|, '}') == Scan(0, None, st.found + [c]);
    FoundExtends(s, '}', st.found);
    ClosingCandidate(s, p);
    AllBalancedSnoc(s + ['}'], st.found, c);
    InOrderSnoc(st.found, c);
  }

  lemma AllBalancedSnoc(s: string, cs: seq<Candidate>, c: Candidate)
    requires forall k :: 0 <= k < |cs| ==> Balanced(s, cs[k])
    requires Balanced(s, c)
    ensures forall k :: 0 <= k < |cs + [c]| ==> Balanced(s, (cs + [c])[k])
  {
    forall k | 0 <= k < |cs + [c]| ensures Balanced(s, (cs + [c])[k]) {
      if k < |cs| {
        assert (cs + [c])[k] == cs[k];
      }
    }
  }

  lemma InOrderSnoc(cs: seq<Candidate>, c: Candidate)
    requires InOrder(cs)
    requires |cs| > 0 ==> cs[|cs| - 1].end < c.start
    ensures InOrder(cs + [c])
  {
  }

  lemma StepCloseGood(s: string, st: Scan)
    requires Good(s, st)
    ensures Good(s + ['}'], Step(st, |s|, '}'))
  {
    if st.depth - 1 == 0 && st.startIndex.Some? {
      CloseRecords(s, st);
    } else {
      FoundExtends(s, '}', st.found);
      if st.startIndex.Some? {
        OpenExtends(s, '}', st.startIndex.value, st.depth);
      }
    }
  }

  lemma StepOtherGood(s: string, st: Scan, c: char)
    requires Good(s, st)
    requires c != '{' && c != '}'
    ensures Good(s + [c], Step(st, |s|, c))
  {
    FoundExtends(s, c, st.found);
    if st.startIndex.Some? {
      OpenExtends(s, c, st.startIndex.value, st.depth);
    }
  }

  lemma {:induction false} RunGood(s: string)
    ensures Good(s, Run(s))
    ensures Run(s).depth == Balance(s)
    decreases |s|
  {
    if |s| > 0 {
      var t := s[..|s| - 1];
      assert s == t + [s[|s| - 1]];
      RunGood(t);
      var c := s[|s| - 1];
      if c == '{' {
        StepOpenGood(t, Run(t));
      } else if c == '}' {
        StepCloseGood(t, Run(t));
      } else {
        StepOtherGood(t, Run(t), c);
      }
    }
  }

  /** The candidate ranges the scan records. */
  function Candidates(s: string): (cs: seq<Candidate>)
    ensures forall k :: 0 <= k < |cs| ==> Balanced(s, cs[k])
    ensures InOrder(cs)
  {
    RunGood(s);
    Run(s).found
  }

  lemma {:induction false} BalanceCounts(s: string)
    ensures Balance(s) == CountChar(s, '{') - CountChar(s, '}')
    decreases |s|
  {
    if |s| > 0 {
      var t := s[..|s| - 1];
      assert s == t + [s[|s| - 1]];
      BalanceCounts(t);
      CountCharAppend(t, s[|s| - 1], '{');
      CountCharAppend(t, s[|s| - 1], '}');
    }
  }

  /** The `compactMap`: each candidate's text paired with its parse, candidates that do not parse dropped. */
  function Matches(s: string, cs: seq<Candidate>, parse: string -> Option<Json>): (r: seq<(string, Json)>)
    requires forall k :: 0 <= k < |cs| ==> cs[k].start <= cs[k].end < |s|
    ensures |r| <= |cs|
    ensures forall k :: 0 <= k < |r| ==> parse(r[k].0) == Some(r[k].1)
    decreases |cs|
  {
    if |cs| == 0 then []
    else
      var c := cs[|cs| - 1];
      var text := s[c.start..c.end + 1];
      var p := parse(text);
      Matches(s, cs[..|cs| - 1], parse) + (if p.Some? then [(text, p.value)] else [])
  }

  /** When every candidate parses, the result is every candidate's text, in order. */
  lemma {:induction false} MatchesAllParse(s: string, cs: seq<Candidate>, parse: string -> Option<Json>)
    requires forall k :: 0 <= k < |cs| ==> cs[k].start <= cs[k].end < |s|
    requires forall k :: 0 <= k < |cs| ==> parse(s[cs[k].start..cs[k].end + 1]).Some?
    ensures |Matches(s, cs, parse)| == |cs|
    ensures forall k :: 0 <= k < |cs| ==> Matches(s, cs, parse)[k].0 == s[cs[k].start..cs[k].end + 1]
    decreases |cs|
  {
    if |cs| > 0 {
      MatchesAllParse(s, cs[..|cs| - 1], parse);
    }
  }

  /** `_extractJSONStrings(fromMarkdown:)`. */
  method ExtractJsonStrings(markdown: string, parse: string -> Option<Json>)
    returns (r: Either<ScanError, seq<(string, Json)>>)
    ensures r.Left? <==> CountChar(markdown, '{') != CountChar(markdown, '}')
    ensures r.Right? ==> r.right == Matches(markdown, Candidates(markdown), parse)
  {
    var possibleJsonStrings: seq<Candidate> := [];
    var depth := 0;
    var startIndex: Option<nat> := None;
    var i := 0;
    while i < |markdown|
      invariant 0 <= i <= |markdown|
      invariant Run(markdown[..i]) == Scan(depth, startIndex, possibleJsonStrings)
    {
      var ch := markdown[i];
      assert markdown[..i + 1][..i] == markdown[..i];
      if ch == '{' {
        if depth == 0 {
          startIndex := Some(i);
        }
        depth := depth + 1;
      } else if ch == '}' {
        depth := depth - 1;
        if depth == 0 && startIndex.Some? {
          possibleJsonStrings := possibleJsonStrings + [Candidate(startIndex.value, i)];
          startIndex := None;
        }
      }
      i := i + 1;
    }
    assert markdown[..i] == markdown;
    RunGood(markdown);
    BalanceCounts(markdown);
    if depth != 0 {
      return Left(Unbalanced);
    }
    r := Right(Matches(markdown, possibleJsonStrings, parse));
  }

  // ----- properties -----

  /** Only braces move the scanner: quotes, and so braces inside string literals, get no special treatment. */
  lemma OnlyBracesCount(s: string, c: char)
    requires c != '{' && c != '}'
    ensures Run(s + [c]) == Run(s)
  {
    assert (s + [c])[..|s|] == s;
  }

  /** A `}` inside a string literal closes the object early: `{"k":"}{"}` yields the two candidates `{"k":"}` and `{"}`. */
  lemma StringBracesSplitAnObject(s: string)
    requires s == "{\"k\":\"}{\"}"
    ensures Candidates(s) == [Candidate(0, 6), Candidate(7, 9)]
  {
    var r := Scan(0, None, []);
    assert Run(s[..0]) == r;
    r := Step(r, 0, s[0]);
    assert Run(s[..1]) == r == Scan(1, Some(0), []);
    var k := 1;
    while k < 6
      invariant 1 <= k <= 6
      invariant Run(s[..k]) == Scan(1, Some(0), [])
    {
      assert s[..k + 1][..k] == s[..k];
      OnlyBracesCount(s[..k], s[k]);
      assert s[..k] + [s[k]] == s[..k + 1];
      k := k + 1;
    }
    assert s[..7][..6] == s[..6];
    assert Run(s[..7]) == Scan(0, None, [Candidate(0, 6)]);
    assert s[..8][..7] == s[..7];
    assert Run(s[..8]) == Scan(1, Some(7), [Candidate(0, 6)]);
    assert s[..9][..8] == s[..8];
    OnlyBracesCount(s[..8], s[8]);
    assert s[..8] + [s[8]] == s[..9];
    assert s[..10][..9] == s[..9];
    assert s[..10] == s;
  }
}
