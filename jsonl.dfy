/**
  `JSONL.swift`: a JSON-lines document. Reading splits the text into chunks
  with a small state machine over brace depth, in-string state and a pending
  backslash escape, stepping one Swift `Character` at a time; a `"\n"`
  character splits only at depth 0 outside a string. Each
  chunk is parsed on its own and chunks that fail to parse are dropped.
  Writing serialises every element, escapes backslashes and quotes in the
  line, and ends it with a newline.

  The JSON parser (`JSON(data:)` on a non-empty chunk) and the serialiser
  (`JSON.data()`) are parameters: `parse` gives `None` where the source
  catches a thrown error, `serialize` gives `None` where the source throws.
 */
module Jsonl {
  import opened Wrappers
  import opened Text
  import opened JsonValue

  /**
    A Swift `Character`: one extended grapheme cluster, a non-empty run of
    code points. `"\r\n"` is a single character, and it is not equal to
    `"\n"`.
   */
  type Character = s: string | |s| > 0 witness "\n"

  /** A `String` is the concatenation of its characters. */
  function StringOf(chars: seq<Character>): string
    decreases |chars|
  {
    if |chars| == 0 then "" else StringOf(chars[..|chars| - 1]) + chars[|chars| - 1]
  }

  /** The splitter's variables after some prefix of the input, with the chunks completed so far. */
  datatype Scan = Scan(depth: int, inString: bool, escape: bool, current: string, chunks: seq<string>)

  const Start: Scan := Scan(0, false, false, "", [])

  /** One character of the `for character in jsonlString` loop. */
  function Step(st: Scan, c: Character): Scan {
    var inString := if c == "\"" && !st.escape then !st.inString else st.inString;
    var escape := if inString then c == "\\" && !st.escape else st.escape;
    var depth := if inString then st.depth
                 else if c == "{" then st.depth + 1
                 else if c == "}" then st.depth - 1
                 else st.depth;
    if depth == 0 && c == "\n" && !inString then
      Scan(depth, inString, escape, "", st.chunks + [st.current])
    else
      Scan(depth, inString, escape, st.current + c, st.chunks)
  }

  /** The splitter's state after reading all of `s`. */
  function Run(s: seq<Character>): Scan
    decreases |s|
  {
    if |s| == 0 then Start else Step(Run(s[..|s| - 1]), s[|s| - 1])
  }

  /** The chunks handed to the parser: every completed chunk, then the remainder when it is not empty. */
  function Chunks(s: seq<Character>): seq<string> {
    var st := Run(s);
    st.chunks + (if st.current != "" then [st.current] else [])
  }

  /** `JSON(data:)`: empty data is `.null`; anything else goes to the parser. */
  function ParseChunk(chunk: string, parse: string -> Option<Json>): (r: Option<Json>)
    ensures chunk == "" ==> r == Some(Null)
    ensures chunk != "" ==> r == parse(chunk)
  {
    if chunk == "" then Some(Null) else parse(chunk)
  }

  /** The parsed objects of `chunks`, in order, with the chunks that fail to parse dropped. */
  function Collect(chunks: seq<string>, parse: string -> Option<Json>): (objects: seq<Json>)
    ensures |objects| <= |chunks|
    decreases |chunks|
  {
    if |chunks| == 0 then []
    else
      var p := ParseChunk(chunks[|chunks| - 1], parse);
      Collect(chunks[..|chunks| - 1], parse) + (if p.Some? then [p.value] else [])
  }

  /** `parseJSONL(from:)`, over the characters of the string. */
  method ParseJsonl(jsonlString: seq<Character>, parse: string -> Option<Json>) returns (parsedObjects: seq<Json>)
    ensures parsedObjects == Collect(Chunks(jsonlString), parse)
  {
    parsedObjects := [];
    var currentObject := "";
    var braceDepth := 0;
    var isInString := false;
    var isEscape := false;
    ghost var chunks: seq<string> := [];
    var i := 0;
    while i < |jsonlString|
      invariant 0 <= i <= |jsonlString|
      invariant Run(jsonlString[..i]) == Scan(braceDepth, isInString, isEscape, currentObject, chunks)
      invariant parsedObjects == Collect(chunks, parse)
    {
      var character := jsonlString[i];
      assert jsonlString[..i + 1][..i] == jsonlString[..i];
      if character == "\"" && !isEscape {
        isInString := !isInString;
      }
      if isInString {
        if character == "\\" && !isEscape {
          isEscape := true;
        } else {
          isEscape := false;
        }
      }
      if !isInString {
        if character == "{" {
          braceDepth := braceDepth + 1;
        } else if character == "}" {
          braceDepth := braceDepth - 1;
        }
      }
      if braceDepth == 0 && character == "\n" && !isInString {
        var parsed := ParseChunk(currentObject, parse);
        if parsed.Some? {
          parsedObjects := parsedObjects + [parsed.value];
        }
        assert (chunks + [currentObject])[..|chunks|] == chunks;
        chunks := chunks + [currentObject];
        currentObject := "";
      } else {
        currentObject := currentObject + character;
      }
      i := i + 1;
    }
    assert jsonlString[..i] == jsonlString;
    if currentObject != "" {
      var parsed := parse(currentObject);
      if parsed.Some? {
        parsedObjects := parsedObjects + [parsed.value];
      }
      assert (chunks + [currentObject])[..|chunks|] == chunks;
      assert ParseChunk(currentObject, parse) == parsed;
    } else {
      assert Chunks(jsonlString) == chunks + [] == chunks;
    }
  }

  // ----- properties of the splitter -----

  /** What one more character does to the chunks: a split exactly at a `"\n"` character at depth 0 outside a string. */
  lemma StepSplits(s: seq<Character>, c: Character)
    ensures var st, st' := Run(s), Run(s + [c]);
      if c == "\n" && st.depth == 0 && !st.inString then
        st'.chunks == st.chunks + [st.current] && st'.current == ""
      else
        st'.chunks == st.chunks && st'.current == st.current + c
  {
    assert (s + [c])[..|s|] == s;
  }

  /** An escape is only ever pending inside a string. */
  lemma {:induction false} EscapeOnlyInString(s: seq<Character>)
    ensures Run(s).escape ==> Run(s).inString
    decreases |s|
  {
    if |s| > 0 {
      EscapeOnlyInString(s[..|s| - 1]);
    }
  }

  /** A quote opens a string outside one, and inside one closes it unless a backslash escape is pending. */
  lemma QuoteToggles(s: seq<Character>)
    ensures var st := Run(s);
      Run(s + ["\""]).inString == (if st.inString && st.escape then st.inString else !st.inString)
  {
    assert (s + ["\""])[..|s|] == s;
    EscapeOnlyInString(s);
  }

  /** Inside a string braces are text: the depth does not change; outside they count. */
  lemma BraceDepth(s: seq<Character>, c: Character)
    requires c == "{" || c == "}"
    ensures Run(s).inString ==> Run(s + [c]).depth == Run(s).depth
    ensures !Run(s).inString ==> Run(s + [c]).depth == Run(s).depth + (if c == "{" then 1 else -1)
  {
    assert (s + [c])[..|s|] == s;
  }

  /** The completed chunks and the remainder, joined with newlines, are the input. */
  lemma {:induction false} PiecesJoin(s: seq<Character>)
    ensures Join(Run(s).chunks + [Run(s).current], "\n") == StringOf(s)
    decreases |s|
  {
    if |s| > 0 {
      var t, c := s[..|s| - 1], s[|s| - 1];
      assert s == t + [c];
      assert StringOf(s) == StringOf(t) + c;
      PiecesJoin(t);
      var st := Run(t);
      JoinSnoc(st.chunks, st.current, "\n");
      StepSplits(t, c);
      if c == "\n" && st.depth == 0 && !st.inString {
        JoinSnoc(st.chunks + [st.current], "", "\n");
      } else {
        JoinSnoc(st.chunks, st.current + c, "\n");
      }
    }
  }

  /** Joining the emitted chunks gives the input back, less one final splitting newline. */
  lemma ChunksJoin(s: seq<Character>)
    ensures Run(s).current != "" ==> Join(Chunks(s), "\n") == StringOf(s)
    ensures Run(s).current == "" && |Run(s).chunks| > 0 ==> Join(Chunks(s), "\n") + "\n" == StringOf(s)
    ensures Run(s).current == "" && |Run(s).chunks| == 0 ==> StringOf(s) == "" && Chunks(s) == []
  {
    PiecesJoin(s);
    JoinSnoc(Run(s).chunks, Run(s).current, "\n");
    if Run(s).current == "" {
      assert Chunks(s) == Run(s).chunks + [] == Run(s).chunks;
    }
  }

  /**
    No quotes or braces, and a line feed only as a character of its own:
    no `"\r\n"` character and no line feed starting a longer cluster.
   */
  predicate Plain(s: seq<Character>) {
    forall i :: 0 <= i < |s| ==>
      s[i] != "{" && s[i] != "}" && s[i] != "\"" && (s[i] == "\n" || '\n' !in s[i])
  }

  lemma {:induction false} PlainScan(s: seq<Character>)
    requires Plain(s)
    ensures Run(s).depth == 0 && !Run(s).inString && !Run(s).escape
    ensures '\n' !in Run(s).current
    ensures forall k :: 0 <= k < |Run(s).chunks| ==> '\n' !in Run(s).chunks[k]
    decreases |s|
  {
    if |s| > 0 {
      PlainScan(s[..|s| - 1]);
    }
  }

  /** Without braces or quotes every line-feed character splits: the pieces are the text's lines. */
  lemma PlainTextSplitsAtEveryNewline(s: seq<Character>)
    requires Plain(s)
    ensures Run(s).chunks + [Run(s).current] == Split(StringOf(s), '\n')
  {
    PlainScan(s);
    var pieces := Run(s).chunks + [Run(s).current];
    assert forall k :: 0 <= k < |pieces| ==> '\n' !in pieces[k];
    PiecesJoin(s);
    SplitJoin(pieces, '\n');
  }

  /**
    Text with no `"\n"` character is never split, whatever its braces and
    quotes: lines ended by `"\r\n"` stay together in one chunk.
   */
  lemma {:induction false} NoLineFeedCharacterNoSplit(s: seq<Character>)
    requires forall i :: 0 <= i < |s| ==> s[i] != "\n"
    ensures Run(s).chunks == [] && Run(s).current == StringOf(s)
    ensures StringOf(s) != "" ==> Chunks(s) == [StringOf(s)]
    decreases |s|
  {
    if |s| > 0 {
      NoLineFeedCharacterNoSplit(s[..|s| - 1]);
    }
  }

  /** `"1\r\n2"` is the characters `1`, CRLF and `2`: one chunk, handed to the parser whole. */
  lemma CrlfIsNotALineBreak(s: seq<Character>)
    requires s == ["1", "\r\n", "2"]
    ensures Chunks(s) == ["1\r\n2"]
  {
    NoLineFeedCharacterNoSplit(s);
    assert s[..2][..1] == s[..1] && s[..1][..0] == [];
    assert StringOf(s[..1]) == "1";
    assert StringOf(s[..2]) == "1" + "\r\n";
    var t := "1\r\n2";
    assert StringOf(s) == "1" + "\r\n" + "2" == t;
    assert Chunks(s) == [StringOf(s)];
  }

  // ----- properties of the parse step -----

  /** Collecting is done chunk by chunk, so the order of the chunks is kept. */
  lemma {:induction false} CollectAppend(a: seq<string>, b: seq<string>, parse: string -> Option<Json>)
    ensures Collect(a + b, parse) == Collect(a, parse) + Collect(b, parse)
    decreases |b|
  {
    if |b| == 0 {
      assert a + b == a;
    } else {
      var b' := b[..|b| - 1];
      assert (a + b)[..|a + b| - 1] == a + b';
      CollectAppend(a, b', parse);
    }
  }

  /** When every chunk parses, there is one object per chunk, at the same position. */
  lemma {:induction false} CollectAllParse(chunks: seq<string>, parse: string -> Option<Json>)
    requires forall i :: 0 <= i < |chunks| ==> ParseChunk(chunks[i], parse).Some?
    ensures |Collect(chunks, parse)| == |chunks|
    ensures forall i :: 0 <= i < |chunks| ==> Collect(chunks, parse)[i] == ParseChunk(chunks[i], parse).value
    decreases |chunks|
  {
    if |chunks| > 0 {
      CollectAllParse(chunks[..|chunks| - 1], parse);
    }
  }

  /** A chunk that fails to parse contributes nothing. */
  lemma DroppedChunk(chunks: seq<string>, bad: string, parse: string -> Option<Json>)
    requires ParseChunk(bad, parse).None?
    ensures Collect(chunks + [bad], parse) == Collect(chunks, parse)
  {
    assert (chunks + [bad])[..|chunks|] == chunks;
  }

  // ----- writing -----

  /** The two `replacingOccurrences` calls of `data()`: backslashes first, then quotes. */
  function Escape(line: string): string {
    ReplaceAll(ReplaceAll(line, "\\", "\\\\"), "\"", "\\\"")
  }

  function EscapeChar(c: char): string {
    if c == '\\' then "\\\\" else if c == '"' then "\\\"" else [c]
  }

  lemma {:induction false} QuotesAfterBackslashes(t: string)
    ensures ReplaceAll(MapChars(t, c => SubstChar(c, '\\', "\\\\")), "\"", "\\\"") == MapChars(t, EscapeChar)
    decreases |t|
  {
    var f := c => SubstChar(c, '\\', "\\\\");
    if |t| > 0 {
      QuotesAfterBackslashes(t[1..]);
      ReplaceAllAppend(f(t[0]), MapChars(t[1..], f), "\"", "\\\"");
      ReplaceSingleCharIsMap(f(t[0]), '"', "\\\"");
      if t[0] == '\\' {
        assert f(t[0]) == ['\\', '\\'];
      }
    }
  }

  /** The two passes together escape each character on its own. */
  lemma EscapeIsPerCharacter(line: string)
    ensures Escape(line) == MapChars(line, EscapeChar)
  {
    ReplaceSingleCharIsMap(line, '\\', "\\\\");
    QuotesAfterBackslashes(line);
  }

  lemma {:induction false} EscapeKeepsLinesWhole(t: string)
    requires '\n' !in t
    ensures '\n' !in MapChars(t, EscapeChar)
    decreases |t|
  {
    if |t| > 0 {
      EscapeKeepsLinesWhole(t[1..]);
    }
  }

  /** The text `data()` writes, or `None` once an element fails to serialise. */
  function JsonlText(storage: seq<Json>, serialize: Json -> Option<string>): Option<string>
    decreases |storage|
  {
    if |storage| == 0 then Some("")
    else
      var prev := JsonlText(storage[..|storage| - 1], serialize);
      var line := serialize(storage[|storage| - 1]);
      if prev.Some? && line.Some? then Some(prev.value + Escape(line.value) + "\n") else None
  }

  lemma {:induction false} FailureIsFinal(storage: seq<Json>, n: nat, serialize: Json -> Option<string>)
    requires n <= |storage|
    requires JsonlText(storage[..n], serialize).None?
    ensures JsonlText(storage, serialize).None?
    decreases |storage|
  {
    if |storage| == n {
      assert storage[..n] == storage;
    } else {
      assert storage[..|storage| - 1][..n] == storage[..n];
      FailureIsFinal(storage[..|storage| - 1], n, serialize);
    }
  }

  /** `JSONL.data()`. */
  method Data(storage: seq<Json>, serialize: Json -> Option<string>) returns (r: Option<string>)
    ensures r == JsonlText(storage, serialize)
  {
    var jsonlString := "";
    var i := 0;
    while i < |storage|
      invariant 0 <= i <= |storage|
      invariant JsonlText(storage[..i], serialize) == Some(jsonlString)
    {
      assert storage[..i + 1][..i] == storage[..i];
      var lineData := serialize(storage[i]);
      if lineData.None? {
        FailureIsFinal(storage, i + 1, serialize);
        return None;
      }
      var lineString := Escape(lineData.value);
      jsonlString := jsonlString + lineString + "\n";
      i := i + 1;
    }
    assert storage[..i] == storage;
    r := Some(jsonlString);
  }

  function EscapeAll(lines: seq<string>): (r: seq<string>)
    ensures |r| == |lines|
    ensures forall i :: 0 <= i < |lines| ==> r[i] == Escape(lines[i])
    decreases |lines|
  {
    if |lines| == 0 then [] else EscapeAll(lines[..|lines| - 1]) + [Escape(lines[|lines| - 1])]
  }

  /** When every element serialises, the text is the escaped lines, each ended by a newline. */
  lemma {:induction false} DataIsLines(storage: seq<Json>, lines: seq<string>, serialize: Json -> Option<string>)
    requires |lines| == |storage|
    requires forall i :: 0 <= i < |storage| ==> serialize(storage[i]) == Some(lines[i])
    ensures JsonlText(storage, serialize) == Some(Join(EscapeAll(lines) + [""], "\n"))
    decreases |storage|
  {
    if |storage| > 0 {
      var n := |storage| - 1;
      DataIsLines(storage[..n], lines[..n], serialize);
      var e := EscapeAll(lines[..n]);
      var x := Escape(lines[n]);
      assert EscapeAll(lines) == e + [x];
      assert JsonlText(storage, serialize) == Some(Join(e + [""], "\n") + x + "\n");
      JoinSnoc(e, "", "\n");
      JoinSnoc(e, x, "\n");
      JoinSnoc(e + [x], "", "\n");
      if n == 0 {
        assert e + [""] == [""];
        assert Join(e + [""], "\n") == "";
        assert e + [x] + [""] == [x, ""];
        assert Join([x, ""], "\n") == x + "\n" + "";
        assert "" + x + "\n" == x + "\n" + "";
      } else {
        var j := Join(e, "\n");
        assert Join(e + [""], "\n") == j + "\n" + "" == j + "\n";
        assert Join(e + [x], "\n") == j + "\n" + x;
        assert Join(e + [x] + [""], "\n") == (j + "\n" + x) + "\n" + "";
        assert (j + "\n") + x + "\n" == (j + "\n" + x) + "\n" + "";
      }
    }
  }

  /** With newline-free serialisations, splitting the written text on newlines gives one line per element, in order, and an empty tail. */
  lemma DataOneLinePerElement(storage: seq<Json>, lines: seq<string>, serialize: Json -> Option<string>)
    requires |lines| == |storage|
    requires forall i :: 0 <= i < |storage| ==> serialize(storage[i]) == Some(lines[i]) && '\n' !in lines[i]
    ensures JsonlText(storage, serialize).Some?
    ensures Split(JsonlText(storage, serialize).value, '\n') == EscapeAll(lines) + [""]
  {
    DataIsLines(storage, lines, serialize);
    var parts := EscapeAll(lines) + [""];
    forall k | 0 <= k < |parts| ensures '\n' !in parts[k] {
      if k < |lines| {
        EscapeIsPerCharacter(lines[k]);
        EscapeKeepsLinesWhole(lines[k]);
      }
    }
    SplitJoin(parts, '\n');
  }
}
