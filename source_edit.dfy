/**
  `SourceEdit` and the default `textRefactor` of `RefactoringProvider.swift`
  (SwiftRefactor). An edit replaces a half-open range of UTF-8 offsets in
  the original source by a replacement text. A syntax node is reduced to
  what the edits read from it: its start and end offsets, trivia included,
  and its printed text. Source text is a sequence of UTF-8 code units, so
  an offset is an index into it.
 */
module SourceEdit {
  import opened Wrappers
  import opened Text

  /** A half-open range of offsets; Swift's `Range` refuses a lower bound above the upper. */
  datatype OffsetRange = OffsetRange(lowerBound: nat, upperBound: nat)
  type PositionRange = r: OffsetRange | r.lowerBound <= r.upperBound witness OffsetRange(0, 0)

  /** The parts of a syntax node the edits use. */
  datatype SyntaxNode = SyntaxNode(position: nat, endPosition: nat, description: string)
  type Node = n: SyntaxNode | n.position <= n.endPosition witness SyntaxNode(0, 0, "")

  datatype Edit = Edit(range: PositionRange, replacement: string)

  /**
    `length` as the source computes it: the lower bound minus the upper
    bound, which is negative for every range that is not empty.
   */
  function LengthAsWritten(edit: Edit): int {
    edit.range.lowerBound - edit.range.upperBound
  }

  /** The length the documentation promises: the size of the replaced range, zero for an addition. */
  function Length(edit: Edit): (n: nat)
    ensures n == 0 <==> edit.range.lowerBound == edit.range.upperBound
  {
    edit.range.upperBound - edit.range.lowerBound
  }

  lemma LengthAsWrittenIsNegated(edit: Edit)
    ensures LengthAsWritten(edit) + Length(edit) == 0
    ensures edit.range.lowerBound < edit.range.upperBound ==> LengthAsWritten(edit) < 0
  {
  }

  /** Removing the five-byte node at offsets 3..8 reports length -5. */
  lemma LengthAsWrittenOfRemoval(node: Node)
    requires node == SyntaxNode(3, 8, "token")
    ensures LengthAsWritten(Remove(node)) == -5
    ensures Length(Remove(node)) == 5
  {
  }

  /** `insert(_:after:)`: an empty range at the node's end. */
  function InsertAfter(newText: string, node: Node): (e: Edit)
    ensures e.range.lowerBound == e.range.upperBound == node.endPosition
    ensures e.replacement == newText && Length(e) == 0
  {
    Edit(OffsetRange(node.endPosition, node.endPosition), newText)
  }

  /** `insert(_:before:)`: an empty range at the node's start. */
  function InsertBefore(newText: string, node: Node): (e: Edit)
    ensures e.range.lowerBound == e.range.upperBound == node.position
    ensures e.replacement == newText && Length(e) == 0
  {
    Edit(OffsetRange(node.position, node.position), newText)
  }

  /** `replace(_:with:)`: the whole node, trivia included. */
  function Replace(node: Node, replacement: string): (e: Edit)
    ensures e.range.lowerBound == node.position && e.range.upperBound == node.endPosition
    ensures e.replacement == replacement
    ensures Length(e) == node.endPosition - node.position
  {
    Edit(OffsetRange(node.position, node.endPosition), replacement)
  }

  /** `remove(_:)`: the node's range replaced by nothing. */
  function Remove(node: Node): (e: Edit)
    ensures e == Replace(node, "")
  {
    Edit(OffsetRange(node.position, node.endPosition), "")
  }

  /**
    What an edit means: the original text with the range replaced. The text
    must reach the end of the range.
   */
  function Apply(text: seq<char>, edit: Edit): (r: seq<char>)
    requires edit.range.upperBound <= |text|
    ensures |r| == |text| - Length(edit) + |edit.replacement|
  {
    text[..edit.range.lowerBound] + edit.replacement + text[edit.range.upperBound..]
  }

  /** Applying a removal drops exactly the node's text. */
  lemma ApplyRemove(text: seq<char>, node: Node)
    requires node.endPosition <= |text|
    ensures Apply(text, Remove(node)) == text[..node.position] + text[node.endPosition..]
  {
  }

  /** Insertions keep the whole original text around the new text. */
  lemma ApplyInsert(text: seq<char>, newText: string, node: Node)
    requires node.endPosition <= |text|
    ensures Apply(text, InsertBefore(newText, node)) == text[..node.position] + newText + text[node.position..]
    ensures Apply(text, InsertAfter(newText, node)) == text[..node.endPosition] + newText + text[node.endPosition..]
  {
  }

  /** Replacing a node by its own text changes nothing. */
  lemma ApplyReplaceBySame(text: seq<char>, node: Node)
    requires node.endPosition <= |text|
    ensures Apply(text, Replace(node, text[node.position..node.endPosition])) == text
  {
    assert text == text[..node.position] + text[node.position..node.endPosition] + text[node.endPosition..];
  }

  /**
    The default `textRefactor(syntax:in:)`, with the outcome of
    `refactor(syntax:in:)` given as its output's printed text, or `None`.
   */
  function TextRefactor(syntax: Node, refactored: Option<string>): (edits: seq<Edit>)
    ensures refactored.None? <==> edits == []
    ensures refactored.Some? ==> edits == [Replace(syntax, refactored.value)]
  {
    if refactored.None? then [] else [Replace(syntax, refactored.value)]
  }

  /** Swift's `Character.isNewline`. */
  predicate IsNewline(c: char) {
    c == '\n' || c == '\r' || c == '\U{000B}' || c == '\U{000C}' || c == '\U{0085}' || c == '\U{2028}' || c == '\U{2029}'
  }

  predicate HasNewline(s: string) {
    exists i :: 0 <= i < |s| && IsNewline(s[i])
  }

  /**
    `debugDescription`: `lo-hi "text"` on one line, or the offsets followed
    by the text between lines of three quotes when the text has a newline.
   */
  function DebugDescription(edit: Edit): (d: string)
    ensures StartsWith(d, NatToString(edit.range.lowerBound) + "-" + NatToString(edit.range.upperBound))
    ensures !HasNewline(edit.replacement) ==> EndsWith(d, " \"" + edit.replacement + "\"")
    ensures HasNewline(edit.replacement) ==> EndsWith(d, "\n\"\"\"\n" + edit.replacement + "\n\"\"\"")
  {
    var offsets := NatToString(edit.range.lowerBound) + "-" + NatToString(edit.range.upperBound);
    if HasNewline(edit.replacement) then
      offsets + "\n\"\"\"\n" + edit.replacement + "\n\"\"\""
    else
      offsets + " \"" + edit.replacement + "\""
  }

  /** The number of leading decimal digits. */
  function LeadingDigits(s: string): (n: nat)
    ensures n <= |s|
    decreases |s|
  {
    if |s| > 0 && IsDigit(s[0]) then 1 + LeadingDigits(s[1..]) else 0
  }

  lemma {:induction false} LeadingDigitsOf(digits: string, c: char, rest: string)
    requires AllDigits(digits) && !IsDigit(c)
    ensures LeadingDigits(digits + [c] + rest) == |digits|
    decreases |digits|
  {
    if |digits| > 0 {
      assert (digits + [c] + rest)[1..] == digits[1..] + [c] + rest;
      LeadingDigitsOf(digits[1..], c, rest);
    }
  }

  /** A string of digits followed by a non-digit is read back unambiguously. */
  lemma DigitsThenSeparator(a1: string, r1: string, a2: string, r2: string, c: char)
    requires AllDigits(a1) && AllDigits(a2) && !IsDigit(c)
    requires a1 + [c] + r1 == a2 + [c] + r2
    ensures a1 == a2 && r1 == r2
  {
    LeadingDigitsOf(a1, c, r1);
    LeadingDigitsOf(a2, c, r2);
    assert a1 == (a1 + [c] + r1)[..|a1|];
    assert a2 == (a2 + [c] + r2)[..|a2|];
    assert r1 == (a1 + [c] + r1)[|a1| + 1..];
    assert r2 == (a2 + [c] + r2)[|a2| + 1..];
  }

  /** The one-line debug description, cut at its two separators. */
  lemma OneLineShape(edit: Edit)
    requires !HasNewline(edit.replacement)
    ensures DebugDescription(edit) ==
      NatToString(edit.range.lowerBound) + ['-'] + (NatToString(edit.range.upperBound) + [' '] + Quoted(edit.replacement))
  {
  }

  function Quoted(s: string): string {
    "\"" + s + "\""
  }

  lemma QuotedIsInjective(s: string, t: string)
    requires Quoted(s) == Quoted(t)
    ensures s == t
  {
    assert s == Quoted(s)[1..|s| + 1];
    assert t == Quoted(t)[1..|t| + 1];
  }

  /** On one line, the debug description determines the edit. */
  lemma OneLineDebugDescriptionIsInjective(e1: Edit, e2: Edit)
    requires !HasNewline(e1.replacement) && !HasNewline(e2.replacement)
    requires DebugDescription(e1) == DebugDescription(e2)
    ensures e1 == e2
  {
    var lo1, hi1, q1 := NatToString(e1.range.lowerBound), NatToString(e1.range.upperBound), Quoted(e1.replacement);
    var lo2, hi2, q2 := NatToString(e2.range.lowerBound), NatToString(e2.range.upperBound), Quoted(e2.replacement);
    OneLineShape(e1);
    OneLineShape(e2);
    DigitsThenSeparator(lo1, hi1 + [' '] + q1, lo2, hi2 + [' '] + q2, '-');
    DigitsThenSeparator(hi1, q1, hi2, q2, ' ');
    NatToStringInjective(e1.range.lowerBound, e2.range.lowerBound);
    NatToStringInjective(e1.range.upperBound, e2.range.upperBound);
    QuotedIsInjective(e1.replacement, e2.replacement);
  }

  /** An insertion of `x` at offset 4 reads `4-4 "x"`. */
  lemma DebugDescriptionOfInsertion(node: Node, newText: string)
    requires node == SyntaxNode(4, 9, "token") && newText == "x"
    ensures DebugDescription(InsertBefore(newText, node)) == "4-4 \"x\""
  {
    assert !HasNewline(newText);
  }
}
