/**
  `Trivia+FormatExtensions.swift` from SwiftBasicFormat: trimming whitespace
  at line ends, reading and adding indentation, and the start/end tests of a
  trivia sequence. A trivia piece is abstract here: it carries its text and
  the two answers `isNewline` and `isWhitespace`, whose definitions in
  SwiftSyntax are not part of this model.
 */
module TriviaFormat {
  import opened Wrappers

  datatype TriviaPiece = TriviaPiece(text: string, isNewline: bool, isWhitespace: bool)

  /** A whitespace piece that is not a newline, the kind trimming drops. */
  predicate IsBlank(p: TriviaPiece) {
    p.isWhitespace && !p.isNewline
  }

  function Reverse<T>(s: seq<T>): (r: seq<T>)
    ensures |r| == |s|
    ensures forall k :: 0 <= k < |s| ==> r[k] == s[|s| - 1 - k]
    decreases |s|
  {
    if |s| == 0 then [] else [s[|s| - 1]] + Reverse(s[..|s| - 1])
  }

  // ----- trimmingTrailingWhitespaceBeforeNewline -----

  /**
    The pieces the backwards scan keeps, read from the end of `pieces`, with
    `isBeforeNewline` the flag the scan starts with.
   */
  function Trimmed(pieces: seq<TriviaPiece>, isBeforeNewline: bool): seq<TriviaPiece>
    decreases |pieces|
  {
    if |pieces| == 0 then []
    else
      var init, piece := pieces[..|pieces| - 1], pieces[|pieces| - 1];
      if piece.isNewline then Trimmed(init, true) + [piece]
      else if isBeforeNewline && piece.isWhitespace then Trimmed(init, true)
      else Trimmed(init, false) + [piece]
  }

  /** `trimmingTrailingWhitespaceBeforeNewline(isBeforeNewline:)`. */
  method TrimmingTrailingWhitespaceBeforeNewline(pieces: seq<TriviaPiece>, isBeforeNewline: bool)
    returns (r: seq<TriviaPiece>)
    ensures r == Trimmed(pieces, isBeforeNewline)
  {
    var before := isBeforeNewline;
    var trimmedReversedPieces: seq<TriviaPiece> := [];
    var i := |pieces|;
    assert pieces[..i] == pieces;
    while i > 0
      invariant 0 <= i <= |pieces|
      invariant Trimmed(pieces, isBeforeNewline) == Trimmed(pieces[..i], before) + Reverse(trimmedReversedPieces)
    {
      var piece := pieces[i - 1];
      assert pieces[..i][..i - 1] == pieces[..i - 1];
      assert Reverse(trimmedReversedPieces + [piece]) == [piece] + Reverse(trimmedReversedPieces);
      i := i - 1;
      if piece.isNewline {
        before := true;
        trimmedReversedPieces := trimmedReversedPieces + [piece];
        continue;
      }
      if before && piece.isWhitespace {
        continue;
      }
      trimmedReversedPieces := trimmedReversedPieces + [piece];
      before := false;
    }
    r := Reverse(trimmedReversedPieces);
  }

  /** `a` is `b` with some pieces deleted. */
  ghost predicate Subsequence<T>(a: seq<T>, b: seq<T>)
    decreases |b|
  {
    if |a| == 0 then true
    else if |b| == 0 then false
    else (a[|a| - 1] == b[|b| - 1] && Subsequence(a[..|a| - 1], b[..|b| - 1])) || Subsequence(a, b[..|b| - 1])
  }

  function NewlinePieces(pieces: seq<TriviaPiece>): (r: seq<TriviaPiece>)
    ensures forall k :: 0 <= k < |r| ==> r[k].isNewline
    decreases |pieces|
  {
    if |pieces| == 0 then []
    else NewlinePieces(pieces[..|pieces| - 1]) + (if pieces[|pieces| - 1].isNewline then [pieces[|pieces| - 1]] else [])
  }

  function NonBlankPieces(pieces: seq<TriviaPiece>): (r: seq<TriviaPiece>)
    ensures forall k :: 0 <= k < |r| ==> !IsBlank(r[k])
    decreases |pieces|
  {
    if |pieces| == 0 then []
    else NonBlankPieces(pieces[..|pieces| - 1]) + (if !IsBlank(pieces[|pieces| - 1]) then [pieces[|pieces| - 1]] else [])
  }

  lemma FiltersSnoc(pieces: seq<TriviaPiece>, p: TriviaPiece)
    ensures NewlinePieces(pieces + [p]) == NewlinePieces(pieces) + (if p.isNewline then [p] else [])
    ensures NonBlankPieces(pieces + [p]) == NonBlankPieces(pieces) + (if !IsBlank(p) then [p] else [])
  {
    assert (pieces + [p])[..|pieces|] == pieces;
  }

  /** No blank piece directly before a newline piece. */
  predicate NoBlankBeforeNewline(pieces: seq<TriviaPiece>) {
    forall k :: 0 <= k < |pieces| - 1 ==> pieces[k + 1].isNewline ==> !IsBlank(pieces[k])
  }

  /** Trimming deletes pieces and never reorders: the result is a subsequence. */
  lemma {:induction false} TrimmedIsSubsequence(pieces: seq<TriviaPiece>, isBeforeNewline: bool)
    ensures Subsequence(Trimmed(pieces, isBeforeNewline), pieces)
    decreases |pieces|
  {
    if |pieces| > 0 {
      var init, piece := pieces[..|pieces| - 1], pieces[|pieces| - 1];
      var flag := piece.isNewline || (isBeforeNewline && piece.isWhitespace);
      TrimmedIsSubsequence(init, flag);
      var t := Trimmed(init, flag);
      if piece.isNewline || !(isBeforeNewline && piece.isWhitespace) {
        assert Trimmed(pieces, isBeforeNewline) == t + [piece];
        assert (t + [piece])[..|t|] == t;
      } else {
        assert Trimmed(pieces, isBeforeNewline) == t;
      }
    }
  }

  /** Every newline piece survives trimming, in order. */
  lemma {:induction false} TrimmedKeepsNewlines(pieces: seq<TriviaPiece>, isBeforeNewline: bool)
    ensures NewlinePieces(Trimmed(pieces, isBeforeNewline)) == NewlinePieces(pieces)
    decreases |pieces|
  {
    if |pieces| > 0 {
      var init, piece := pieces[..|pieces| - 1], pieces[|pieces| - 1];
      var flag := piece.isNewline || (isBeforeNewline && piece.isWhitespace);
      TrimmedKeepsNewlines(init, flag);
      var t := Trimmed(init, flag);
      FiltersSnoc(init, piece);
      assert pieces == init + [piece];
      if piece.isNewline || !(isBeforeNewline && piece.isWhitespace) {
        assert Trimmed(pieces, isBeforeNewline) == t + [piece];
        FiltersSnoc(t, piece);
      } else {
        assert Trimmed(pieces, isBeforeNewline) == t;
        assert NewlinePieces(pieces) == NewlinePieces(init);
      }
    }
  }

  /** Every piece that is not blank survives trimming, in order: only blanks are deleted. */
  lemma {:induction false} TrimmedDeletesOnlyBlanks(pieces: seq<TriviaPiece>, isBeforeNewline: bool)
    ensures NonBlankPieces(Trimmed(pieces, isBeforeNewline)) == NonBlankPieces(pieces)
    decreases |pieces|
  {
    if |pieces| > 0 {
      var init, piece := pieces[..|pieces| - 1], pieces[|pieces| - 1];
      var flag := piece.isNewline || (isBeforeNewline && piece.isWhitespace);
      TrimmedDeletesOnlyBlanks(init, flag);
      var t := Trimmed(init, flag);
      FiltersSnoc(init, piece);
      assert pieces == init + [piece];
      if piece.isNewline || !(isBeforeNewline && piece.isWhitespace) {
        assert Trimmed(pieces, isBeforeNewline) == t + [piece];
        FiltersSnoc(t, piece);
      } else {
        assert Trimmed(pieces, isBeforeNewline) == t;
        assert NonBlankPieces(pieces) == NonBlankPieces(init);
      }
    }
  }

  /**
    In the trimmed pieces no blank piece precedes a newline; when the trivia
    is followed by a newline, none ends them either.
   */
  lemma {:induction false} TrimmedLinesEndClean(pieces: seq<TriviaPiece>, isBeforeNewline: bool)
    ensures NoBlankBeforeNewline(Trimmed(pieces, isBeforeNewline))
    ensures isBeforeNewline && |Trimmed(pieces, isBeforeNewline)| > 0 ==>
      !IsBlank(Trimmed(pieces, isBeforeNewline)[|Trimmed(pieces, isBeforeNewline)| - 1])
    decreases |pieces|
  {
    if |pieces| > 0 {
      var init, piece := pieces[..|pieces| - 1], pieces[|pieces| - 1];
      var flag := piece.isNewline || (isBeforeNewline && piece.isWhitespace);
      TrimmedLinesEndClean(init, flag);
    }
  }

  /**
    What follows a piece leads to a line break through whitespace only: a
    newline piece comes before any piece that is not whitespace, or, when
    the trivia is itself followed by a newline (`isBeforeNewline`), every
    remaining piece is whitespace.
   */
  predicate BreakAhead(rest: seq<TriviaPiece>, isBeforeNewline: bool) {
    (exists m :: 0 <= m < |rest| && rest[m].isNewline && forall j :: 0 <= j < m ==> rest[j].isWhitespace) ||
    (isBeforeNewline && forall j :: 0 <= j < |rest| ==> rest[j].isWhitespace)
  }

  /** Which pieces trimming keeps: all but the blanks that lead to a line break through whitespace. */
  function KeepFlags(pieces: seq<TriviaPiece>, isBeforeNewline: bool): (flags: seq<bool>)
    ensures |flags| == |pieces|
    ensures forall k :: 0 <= k < |pieces| ==>
      flags[k] == !(IsBlank(pieces[k]) && BreakAhead(pieces[k + 1..], isBeforeNewline))
  {
    seq(|pieces|, k requires 0 <= k < |pieces| => !(IsBlank(pieces[k]) && BreakAhead(pieces[k + 1..], isBeforeNewline)))
  }

  /** The elements whose flag is set, in order. */
  function Select<T>(s: seq<T>, keep: seq<bool>): seq<T>
    requires |keep| == |s|
    decreases |s|
  {
    if |s| == 0 then []
    else Select(s[..|s| - 1], keep[..|s| - 1]) + (if keep[|s| - 1] then [s[|s| - 1]] else [])
  }

  /** Reading one more piece from the end turns the scan's flag into the one `BreakAhead` expects. */
  lemma BreakAheadSnoc(rest: seq<TriviaPiece>, p: TriviaPiece, isBeforeNewline: bool)
    ensures BreakAhead(rest + [p], isBeforeNewline) ==
      BreakAhead(rest, p.isNewline || (isBeforeNewline && p.isWhitespace))
  {
    var t := rest + [p];
    var flag := p.isNewline || (isBeforeNewline && p.isWhitespace);
    if BreakAhead(t, isBeforeNewline) {
      if exists m :: 0 <= m < |t| && t[m].isNewline && forall j :: 0 <= j < m ==> t[j].isWhitespace {
        var m :| 0 <= m < |t| && t[m].isNewline && forall j :: 0 <= j < m ==> t[j].isWhitespace;
        assert forall j :: 0 <= j < |rest| ==> rest[j] == t[j];
        if m < |rest| {
          assert rest[m].isNewline && forall j :: 0 <= j < m ==> rest[j].isWhitespace;
        }
      } else {
        assert forall j :: 0 <= j < |rest| ==> rest[j] == t[j];
        assert t[|rest|] == p;
      }
    }
    if BreakAhead(rest, flag) {
      if exists m :: 0 <= m < |rest| && rest[m].isNewline && forall j :: 0 <= j < m ==> rest[j].isWhitespace {
        var m :| 0 <= m < |rest| && rest[m].isNewline && forall j :: 0 <= j < m ==> rest[j].isWhitespace;
        assert t[m].isNewline && forall j :: 0 <= j < m ==> t[j].isWhitespace;
      } else if p.isNewline {
        assert t[|rest|].isNewline && forall j :: 0 <= j < |rest| ==> t[j].isWhitespace;
      } else {
        assert forall j :: 0 <= j < |t| ==> t[j].isWhitespace;
      }
    }
  }

  /** The flags of all pieces but the last are those the scan uses on them. */
  lemma KeepFlagsSnoc(pieces: seq<TriviaPiece>, isBeforeNewline: bool)
    requires |pieces| > 0
    ensures var init, piece := pieces[..|pieces| - 1], pieces[|pieces| - 1];
      KeepFlags(pieces, isBeforeNewline)[..|init|] ==
        KeepFlags(init, piece.isNewline || (isBeforeNewline && piece.isWhitespace)) &&
      KeepFlags(pieces, isBeforeNewline)[|init|] == !(IsBlank(piece) && isBeforeNewline)
  {
    var init, piece := pieces[..|pieces| - 1], pieces[|pieces| - 1];
    var flag := piece.isNewline || (isBeforeNewline && piece.isWhitespace);
    forall k | 0 <= k < |init|
      ensures KeepFlags(pieces, isBeforeNewline)[k] == KeepFlags(init, flag)[k]
    {
      assert pieces[k + 1..] == init[k + 1..] + [piece];
      BreakAheadSnoc(init[k + 1..], piece, isBeforeNewline);
    }
    assert pieces[|init| + 1..] == [];
  }

  /**
    Trimming keeps exactly the pieces `KeepFlags` marks: a blank piece is
    deleted when only whitespace separates it from the next newline (or
    from the end, before a newline); every other piece survives, in order.
   */
  lemma {:induction false} TrimmedIsSelection(pieces: seq<TriviaPiece>, isBeforeNewline: bool)
    ensures Trimmed(pieces, isBeforeNewline) == Select(pieces, KeepFlags(pieces, isBeforeNewline))
    decreases |pieces|
  {
    if |pieces| > 0 {
      var init, piece := pieces[..|pieces| - 1], pieces[|pieces| - 1];
      var flag := piece.isNewline || (isBeforeNewline && piece.isWhitespace);
      TrimmedIsSelection(init, flag);
      KeepFlagsSnoc(pieces, isBeforeNewline);
    }
  }

  /**
    A blank piece followed, after further blanks only, by a piece that is
    neither whitespace nor a newline (a comment, say) is not on a line end,
    and trimming keeps it. The newline flag of a piece is a field here, so
    that piece is asked not to be a newline as well.
   */
  lemma TrimmedKeepsBlankBeforeText(pieces: seq<TriviaPiece>, isBeforeNewline: bool, k: nat, m: nat)
    requires k < m < |pieces|
    requires forall j :: k <= j < m ==> IsBlank(pieces[j])
    requires !pieces[m].isWhitespace && !pieces[m].isNewline
    ensures KeepFlags(pieces, isBeforeNewline)[k]
  {
    var rest := pieces[k + 1..];
    assert !rest[m - k - 1].isWhitespace;
    forall n | 0 <= n < |rest| && rest[n].isNewline ensures exists j :: 0 <= j < n && !rest[j].isWhitespace {
      assert !rest[m - k - 1].isWhitespace;
    }
  }

  // ----- indentation -----

  /** `lastIndex(where: { !$0.isWhitespace }) ?? endIndex`. */
  function LastNonWhitespace(pieces: seq<TriviaPiece>): (i: nat)
    ensures i <= |pieces|
    ensures i < |pieces| ==> !pieces[i].isWhitespace && forall k :: i < k < |pieces| ==> pieces[k].isWhitespace
    ensures i == |pieces| ==> forall k :: 0 <= k < |pieces| ==> pieces[k].isWhitespace
    decreases |pieces|
  {
    if |pieces| == 0 then 0
    else if !pieces[|pieces| - 1].isWhitespace then |pieces| - 1
    else
      var j := LastNonWhitespace(pieces[..|pieces| - 1]);
      if j == |pieces| - 1 then |pieces| else j
  }

  /** `lastIndex(where: { $0.isNewline })`. */
  function LastNewline(pieces: seq<TriviaPiece>): (r: Option<nat>)
    ensures r.Some? ==> r.value < |pieces| && pieces[r.value].isNewline
    ensures r.Some? ==> forall k :: r.value < k < |pieces| ==> !pieces[k].isNewline
    ensures r.None? ==> forall k :: 0 <= k < |pieces| ==> !pieces[k].isNewline
    decreases |pieces|
  {
    if |pieces| == 0 then None
    else if pieces[|pieces| - 1].isNewline then Some(|pieces| - 1)
    else LastNewline(pieces[..|pieces| - 1])
  }

  /** The pieces before the last piece that is not whitespace. */
  function BeforeLastNonWhitespace(pieces: seq<TriviaPiece>): seq<TriviaPiece> {
    pieces[..LastNonWhitespace(pieces)]
  }

  /** `indentation(isOnNewline:)`. */
  function Indentation(pieces: seq<TriviaPiece>, isOnNewline: bool): (r: Option<seq<TriviaPiece>>)
    ensures r.Some? ==> forall k :: 0 <= k < |r.value| ==> !r.value[k].isNewline
    ensures r.None? <==> !isOnNewline && forall k :: 0 <= k < |BeforeLastNonWhitespace(pieces)| ==> !BeforeLastNonWhitespace(pieces)[k].isNewline
    ensures r.Some? ==> exists j :: 0 <= j <= |BeforeLastNonWhitespace(pieces)| && r.value == BeforeLastNonWhitespace(pieces)[j..]
    ensures r.Some? ==>
      |r.value| == |BeforeLastNonWhitespace(pieces)| ||
      BeforeLastNonWhitespace(pieces)[|BeforeLastNonWhitespace(pieces)| - |r.value| - 1].isNewline
    ensures r.Some? && |r.value| == |BeforeLastNonWhitespace(pieces)| ==> isOnNewline
  {
    var before := BeforeLastNonWhitespace(pieces);
    var lastNewline := LastNewline(before);
    if lastNewline.Some? then
      assert before[lastNewline.value + 1..] == before[lastNewline.value + 1..];
      Some(before[lastNewline.value + 1..])
    else if isOnNewline then
      assert before == before[0..];
      Some(before)
    else None
  }

  /** `containsIndentation(isOnNewline:)`. */
  function ContainsIndentation(pieces: seq<TriviaPiece>, isOnNewline: bool): (r: bool)
    ensures r ==> Indentation(pieces, isOnNewline).Some?
  {
    var indentation := Indentation(pieces, isOnNewline);
    indentation.Some? && |indentation.value| > 0
  }

  /**
    There is indentation exactly when, before the last non-whitespace piece,
    some piece follows the last newline, or, with no newline there, the
    trivia starts on a new line and that stretch is not empty.
   */
  lemma ContainsIndentationExactly(pieces: seq<TriviaPiece>, isOnNewline: bool)
    ensures var before := BeforeLastNonWhitespace(pieces);
      ContainsIndentation(pieces, isOnNewline) <==>
        (LastNewline(before).Some? && LastNewline(before).value + 1 < |before|) ||
        (LastNewline(before).None? && isOnNewline && |before| > 0)
  {
  }

  // ----- indented -----

  /** Every piece, followed by a copy of `indentation` when it is a newline. */
  function IndentAfterNewlines(pieces: seq<TriviaPiece>, indentation: seq<TriviaPiece>): seq<TriviaPiece>
    decreases |pieces|
  {
    if |pieces| == 0 then []
    else
      var piece := pieces[|pieces| - 1];
      IndentAfterNewlines(pieces[..|pieces| - 1], indentation) + [piece] + (if piece.isNewline then indentation else [])
  }

  function IndentedSpec(pieces: seq<TriviaPiece>, indentation: seq<TriviaPiece>, isOnNewline: bool): seq<TriviaPiece> {
    if |pieces| == 0 then (if isOnNewline then indentation else pieces)
    else (if isOnNewline then indentation else []) + IndentAfterNewlines(pieces, indentation)
  }

  /** `indented(indentation:isOnNewline:)`. */
  method Indented(pieces: seq<TriviaPiece>, indentation: seq<TriviaPiece>, isOnNewline: bool)
    returns (r: seq<TriviaPiece>)
    ensures r == IndentedSpec(pieces, indentation, isOnNewline)
  {
    if |pieces| == 0 {
      if isOnNewline {
        return indentation;
      }
      return pieces;
    }
    var indentedPieces: seq<TriviaPiece> := [];
    if isOnNewline {
      indentedPieces := indentedPieces + indentation;
    }
    ghost var head := indentedPieces;
    var i := 0;
    while i < |pieces|
      invariant 0 <= i <= |pieces|
      invariant indentedPieces == head + IndentAfterNewlines(pieces[..i], indentation)
    {
      var piece := pieces[i];
      assert pieces[..i + 1][..i] == pieces[..i];
      indentedPieces := indentedPieces + [piece];
      if piece.isNewline {
        indentedPieces := indentedPieces + indentation;
      }
      i := i + 1;
    }
    assert pieces[..i] == pieces;
    r := indentedPieces;
  }

  function CountNewlines(pieces: seq<TriviaPiece>): nat
    decreases |pieces|
  {
    if |pieces| == 0 then 0
    else CountNewlines(pieces[..|pieces| - 1]) + (if pieces[|pieces| - 1].isNewline then 1 else 0)
  }

  lemma {:induction false} SubsequenceOfLonger<T>(a: seq<T>, b: seq<T>, c: seq<T>)
    requires Subsequence(a, b)
    ensures Subsequence(a, b + c)
    decreases |c|
  {
    if |c| == 0 {
      assert b + c == b;
    } else if |a| > 0 {
      var c' := c[..|c| - 1];
      SubsequenceOfLonger(a, b, c');
      assert (b + c)[..|b + c| - 1] == b + c';
      assert Subsequence(a, (b + c)[..|b + c| - 1]);
    }
  }

  lemma {:induction false} SubsequenceAfterPrefix<T>(a: seq<T>, b: seq<T>, c: seq<T>)
    requires Subsequence(a, b)
    ensures Subsequence(a, c + b)
    decreases |b|
  {
    if |a| > 0 {
      var a', b' := a[..|a| - 1], b[..|b| - 1];
      assert (c + b)[..|c + b| - 1] == c + b';
      if a[|a| - 1] == b[|b| - 1] && Subsequence(a', b') {
        SubsequenceAfterPrefix(a', b', c);
      } else {
        SubsequenceAfterPrefix(a, b', c);
      }
    }
  }

  lemma {:induction false} SubsequenceSelf<T>(a: seq<T>)
    ensures Subsequence(a, a)
    decreases |a|
  {
    if |a| > 0 {
      SubsequenceSelf(a[..|a| - 1]);
    }
  }

  lemma {:induction false} IndentAfterNewlinesKeepsPieces(pieces: seq<TriviaPiece>, indentation: seq<TriviaPiece>)
    ensures Subsequence(pieces, IndentAfterNewlines(pieces, indentation))
    decreases |pieces|
  {
    if |pieces| > 0 {
      var init, piece := pieces[..|pieces| - 1], pieces[|pieces| - 1];
      IndentAfterNewlinesKeepsPieces(init, indentation);
      var t := IndentAfterNewlines(init, indentation);
      assert (t + [piece])[..|t|] == t;
      assert pieces == init + [piece];
      assert Subsequence(pieces, t + [piece]);
      SubsequenceOfLonger(pieces, t + [piece], if piece.isNewline then indentation else []);
    }
  }

  lemma {:induction false} IndentAfterNewlinesLength(pieces: seq<TriviaPiece>, indentation: seq<TriviaPiece>)
    ensures |IndentAfterNewlines(pieces, indentation)| == |pieces| + CountNewlines(pieces) * |indentation|
    decreases |pieces|
  {
    if |pieces| > 0 {
      IndentAfterNewlinesLength(pieces[..|pieces| - 1], indentation);
    }
  }

  /**
    Indenting keeps every original piece in order and adds one copy of the
    indentation per newline piece, plus one at the front when on a new line.
   */
  lemma IndentedKeepsPieces(pieces: seq<TriviaPiece>, indentation: seq<TriviaPiece>, isOnNewline: bool)
    ensures Subsequence(pieces, IndentedSpec(pieces, indentation, isOnNewline))
    ensures |IndentedSpec(pieces, indentation, isOnNewline)| ==
      |pieces| + (CountNewlines(pieces) + (if isOnNewline then 1 else 0)) * |indentation|
  {
    if |pieces| > 0 {
      IndentAfterNewlinesKeepsPieces(pieces, indentation);
      IndentAfterNewlinesLength(pieces, indentation);
      SubsequenceAfterPrefix(pieces, IndentAfterNewlines(pieces, indentation), if isOnNewline then indentation else []);
    }
  }

  /** Empty trivia indents to the indentation when on a new line and stays empty otherwise. */
  lemma IndentedEmpty(indentation: seq<TriviaPiece>, isOnNewline: bool)
    ensures IndentedSpec([], indentation, isOnNewline) == (if isOnNewline then indentation else [])
  {
  }

  // ----- start and end tests -----

  predicate StartsWithNewline(pieces: seq<TriviaPiece>) {
    |pieces| > 0 && pieces[0].isNewline
  }

  predicate StartsWithWhitespace(pieces: seq<TriviaPiece>) {
    |pieces| > 0 && pieces[0].isWhitespace
  }

  predicate EndsWithNewline(pieces: seq<TriviaPiece>) {
    |pieces| > 0 && pieces[|pieces| - 1].isNewline
  }

  predicate EndsWithWhitespace(pieces: seq<TriviaPiece>) {
    |pieces| > 0 && pieces[|pieces| - 1].isWhitespace
  }

  /**
    Each test is false on empty trivia and, once the trivia is not empty,
    looks at one piece only: the first, or the last.
   */
  lemma EdgeTests(pieces: seq<TriviaPiece>, p: TriviaPiece)
    ensures !StartsWithNewline([]) && !StartsWithWhitespace([]) && !EndsWithNewline([]) && !EndsWithWhitespace([])
    ensures StartsWithNewline([p] + pieces) == p.isNewline && StartsWithWhitespace([p] + pieces) == p.isWhitespace
    ensures EndsWithNewline(pieces + [p]) == p.isNewline && EndsWithWhitespace(pieces + [p]) == p.isWhitespace
  {
  }

  /** Trimmed trivia that ends a line does not end with a blank piece. */
  lemma TrimmedEndsWithoutBlank(pieces: seq<TriviaPiece>)
    ensures var t := Trimmed(pieces, true);
      EndsWithWhitespace(t) ==> EndsWithNewline(t)
  {
    TrimmedLinesEndClean(pieces, true);
  }

  /** Indenting on a new line starts with the indentation's first piece. */
  lemma IndentedStartsWithIndentation(pieces: seq<TriviaPiece>, indentation: seq<TriviaPiece>)
    requires |indentation| > 0
    ensures var r := IndentedSpec(pieces, indentation, true);
      StartsWithNewline(r) == indentation[0].isNewline && StartsWithWhitespace(r) == indentation[0].isWhitespace
  {
  }
}
