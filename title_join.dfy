/**
  The catalog/plot-corpus join of `csvDataProcessing/movieParser.py`.

  Titles are normalised by deleting every character that is neither a word
  character nor whitespace and lowercasing what is left. Every catalog row
  then receives the plot of the earliest corpus row whose normalised title
  equals its own, or the empty string when there is none. Only ASCII text is
  modelled: a word character is `[A-Za-z0-9_]`, whitespace is what Python's
  `\s` matches below code point 128, and lowercasing is ASCII lowercasing.
 */
module TitleJoin {
  import opened Wrappers

  predicate IsAscii(s: string) {
    forall i :: 0 <= i < |s| ==> s[i] as int < 128
  }

  predicate IsUpper(c: char) { 'A' <= c <= 'Z' }

  /** `\w` restricted to ASCII. */
  predicate IsWordChar(c: char) {
    IsUpper(c) || ('a' <= c <= 'z') || ('0' <= c <= '9') || c == '_'
  }

  /** `\s` restricted to ASCII: tab to carriage return, the four separators 0x1C-0x1F, space. */
  predicate IsSpaceChar(c: char) {
    (9 <= c as int <= 13) || (28 <= c as int <= 32)
  }

  function LowerChar(c: char): char {
    if IsUpper(c) then (c as int + 32) as char else c
  }

  lemma LowerCharKeepsClass(c: char)
    ensures !IsUpper(LowerChar(c))
    ensures IsWordChar(c) ==> IsWordChar(LowerChar(c))
    ensures IsSpaceChar(c) ==> LowerChar(c) == c
  {
    if IsUpper(c) {
      assert 97 <= LowerChar(c) as int <= 122;
    }
  }

  function UpperChar(c: char): char {
    if 'a' <= c <= 'z' then (c as int - 32) as char else c
  }

  /** `re.sub(r'[^\w\s]', '', s)`: keeps exactly the word and whitespace characters. */
  function StripPunctuation(s: string): string {
    if |s| == 0 then []
    else (if IsWordChar(s[0]) || IsSpaceChar(s[0]) then [s[0]] else []) + StripPunctuation(s[1..])
  }

  /** `str.lower()` on ASCII text. */
  function Lower(s: string): string {
    if |s| == 0 then [] else [LowerChar(s[0])] + Lower(s[1..])
  }

  function Upper(s: string): string {
    if |s| == 0 then [] else [UpperChar(s[0])] + Upper(s[1..])
  }

  /** `preprocess_title`. */
  function PreprocessTitle(title: string): (r: string)
    requires IsAscii(title)
    ensures forall i :: 0 <= i < |r| ==> (IsWordChar(r[i]) || IsSpaceChar(r[i])) && !IsUpper(r[i])
  {
    var kept := StripPunctuation(title);
    StripKeepsOnlyWordAndSpace(title);
    LowerPointwise(kept);
    forall i | 0 <= i < |kept| ensures (IsWordChar(LowerChar(kept[i])) || IsSpaceChar(LowerChar(kept[i]))) && !IsUpper(LowerChar(kept[i])) {
      LowerCharKeepsClass(kept[i]);
    }
    Lower(kept)
  }

  lemma {:induction false} StripKeepsOnlyWordAndSpace(s: string)
    ensures forall i :: 0 <= i < |StripPunctuation(s)| ==> IsWordChar(StripPunctuation(s)[i]) || IsSpaceChar(StripPunctuation(s)[i])
  {
    if |s| > 0 {
      StripKeepsOnlyWordAndSpace(s[1..]);
      var head := if IsWordChar(s[0]) || IsSpaceChar(s[0]) then [s[0]] else [];
      var r := StripPunctuation(s);
      assert r == head + StripPunctuation(s[1..]);
      forall i | 0 <= i < |r| ensures IsWordChar(r[i]) || IsSpaceChar(r[i]) {
        if i >= |head| {
          assert r[i] == StripPunctuation(s[1..])[i - |head|];
        }
      }
    }
  }

  lemma {:induction false} LowerPointwise(s: string)
    ensures |Lower(s)| == |s|
    ensures forall i :: 0 <= i < |s| ==> Lower(s)[i] == LowerChar(s[i])
  {
    if |s| > 0 {
      LowerPointwise(s[1..]);
    }
  }

  lemma {:induction false} LowerAppend(a: string, b: string)
    ensures Lower(a + b) == Lower(a) + Lower(b)
  {
    if |a| == 0 {
      assert a + b == b;
    } else {
      assert (a + b)[0] == a[0];
      assert (a + b)[1..] == a[1..] + b;
      assert Lower(a + b) == [LowerChar(a[0])] + Lower(a[1..] + b);
      LowerAppend(a[1..], b);
    }
  }

  lemma {:induction false} StripAppend(a: string, b: string)
    ensures StripPunctuation(a + b) == StripPunctuation(a) + StripPunctuation(b)
  {
    if |a| == 0 {
      assert a + b == b;
    } else {
      var head := if IsWordChar(a[0]) || IsSpaceChar(a[0]) then [a[0]] else [];
      assert (a + b)[0] == a[0];
      assert (a + b)[1..] == a[1..] + b;
      assert StripPunctuation(a + b) == head + StripPunctuation(a[1..] + b);
      StripAppend(a[1..], b);
      assert StripPunctuation(a) == head + StripPunctuation(a[1..]);
    }
  }

  /** Text made only of word characters and whitespace survives the deletion. */
  lemma {:induction false} KeptIsFixed(s: string)
    requires forall i :: 0 <= i < |s| ==> IsWordChar(s[i]) || IsSpaceChar(s[i])
    ensures StripPunctuation(s) == s
  {
    if |s| > 0 {
      KeptIsFixed(s[1..]);
      assert s == [s[0]] + s[1..];
    }
  }

  /** Text with no uppercase letter survives lowercasing. */
  lemma LowerIsFixed(s: string)
    requires forall i :: 0 <= i < |s| ==> !IsUpper(s[i])
    ensures Lower(s) == s
  {
    LowerPointwise(s);
  }

  /** Normalising twice is normalising once. */
  lemma PreprocessIdempotent(title: string)
    requires IsAscii(title)
    ensures IsAscii(PreprocessTitle(title))
    ensures PreprocessTitle(PreprocessTitle(title)) == PreprocessTitle(title)
  {
    KeptIsFixed(PreprocessTitle(title));
    LowerIsFixed(PreprocessTitle(title));
  }

  lemma {:induction false} StripAscii(s: string)
    requires IsAscii(s)
    ensures IsAscii(StripPunctuation(s)) && IsAscii(Upper(s))
  {
    if |s| > 0 {
      StripAscii(s[1..]);
    }
  }

  /** Case does not matter: upper-casing the title does not change its normal form. */
  lemma {:induction false} PreprocessIgnoresCase(title: string)
    requires IsAscii(title)
    ensures IsAscii(Upper(title))
    ensures PreprocessTitle(Upper(title)) == PreprocessTitle(title)
  {
    StripAscii(title);
    if |title| > 0 {
      PreprocessIgnoresCase(title[1..]);
      var c := title[0];
      StripAppend([UpperChar(c)], Upper(title[1..]));
      StripAppend([c], title[1..]);
      assert Upper(title) == [UpperChar(c)] + Upper(title[1..]);
      assert title == [c] + title[1..];
      LowerAppend(StripPunctuation([UpperChar(c)]), StripPunctuation(Upper(title[1..])));
      LowerAppend(StripPunctuation([c]), StripPunctuation(title[1..]));
    }
  }

  /** Punctuation does not matter: dropping one non-word, non-space character changes nothing. */
  lemma PreprocessIgnoresPunctuation(a: string, p: char, b: string)
    requires IsAscii(a) && IsAscii(b) && p as int < 128
    requires !IsWordChar(p) && !IsSpaceChar(p)
    ensures IsAscii(a + [p] + b) && IsAscii(a + b)
    ensures PreprocessTitle(a + [p] + b) == PreprocessTitle(a + b)
  {
    StripAppend(a + [p], b);
    StripAppend(a, [p]);
    assert StripPunctuation([p]) == [];
    assert StripPunctuation(a + [p]) == StripPunctuation(a);
    StripAppend(a, b);
  }

  /** The whitespace characters of a title, in order. */
  function Spaces(s: string): string {
    if |s| == 0 then [] else (if IsSpaceChar(s[0]) then [s[0]] else []) + Spaces(s[1..])
  }

  lemma {:induction false} SpacesAppend(a: string, b: string)
    ensures Spaces(a + b) == Spaces(a) + Spaces(b)
  {
    if |a| == 0 {
      assert a + b == b;
    } else {
      var head := if IsSpaceChar(a[0]) then [a[0]] else [];
      assert (a + b)[0] == a[0];
      assert (a + b)[1..] == a[1..] + b;
      assert Spaces(a + b) == head + Spaces(a[1..] + b);
      SpacesAppend(a[1..], b);
      assert Spaces(a) == head + Spaces(a[1..]);
    }
  }

  /** Whitespace is kept exactly: no run is collapsed, nothing is trimmed. */
  lemma {:induction false} PreprocessKeepsWhitespace(title: string)
    requires IsAscii(title)
    ensures Spaces(PreprocessTitle(title)) == Spaces(title)
  {
    if |title| > 0 {
      PreprocessKeepsWhitespace(title[1..]);
      var c := title[0];
      var head := if IsWordChar(c) || IsSpaceChar(c) then [c] else [];
      assert StripPunctuation(title) == head + StripPunctuation(title[1..]);
      LowerAppend(head, StripPunctuation(title[1..]));
      SpacesAppend(Lower(head), Lower(StripPunctuation(title[1..])));
    }
  }

  lemma PreprocessExample(t: string, l: string)
    requires t == "The Matrix!" && l == "the matrix"
    ensures PreprocessTitle(t) == l
    ensures PreprocessTitle(l) == l
  {
    var u := t[..10];
    assert t == u + [t[10]];
    StripAppend(u, [t[10]]);
    assert StripPunctuation([t[10]]) == [];
    KeptIsFixed(u);
    assert StripPunctuation(t) == u;
    LowerPointwise(u);
    assert Lower(u) == l;
    assert PreprocessTitle(t) == Lower(u);
    KeptIsFixed(l);
    LowerIsFixed(l);
  }

  // ----- the tables -----

  /** A row of the catalog table (`imdb_df`); `others` holds the columns the join never reads. */
  datatype CatalogRow = CatalogRow(seriesTitle: string, releasedYear: string, posterLink: string, others: map<string, string>)

  /** A row of the plot corpus (`wiki_df`). */
  datatype WikiRow = WikiRow(title: string, plot: string, others: map<string, string>)

  /** A catalog row with the two columns the script adds. */
  datatype JoinedRow = JoinedRow(catalog: CatalogRow, processedTitle: string, wikiPlot: string)

  /** A corpus row with its `Processed_Title` column. */
  datatype WikiEntry = WikiEntry(row: WikiRow, processedTitle: string)

  predicate AsciiTitles(imdb: seq<CatalogRow>, wiki: seq<WikiRow>) {
    (forall i :: 0 <= i < |imdb| ==> IsAscii(imdb[i].seriesTitle))
    && (forall j :: 0 <= j < |wiki| ==> IsAscii(wiki[j].title))
  }

  /** The index of the earliest corpus row whose normalised title is `key`. */
  function FirstMatch(wiki: seq<WikiRow>, key: string): (r: Option<nat>)
    requires forall j :: 0 <= j < |wiki| ==> IsAscii(wiki[j].title)
    ensures r.Some? ==> r.value < |wiki| && PreprocessTitle(wiki[r.value].title) == key
    ensures r.Some? ==> forall j :: 0 <= j < r.value ==> PreprocessTitle(wiki[j].title) != key
    ensures r.None? ==> forall j :: 0 <= j < |wiki| ==> PreprocessTitle(wiki[j].title) != key
  {
    if |wiki| == 0 then None
    else if PreprocessTitle(wiki[0].title) == key then Some(0)
    else match FirstMatch(wiki[1..], key)
      case None => None
      case Some(j) => Some(j + 1)
  }

  /** The plot a catalog row with normalised title `key` should receive. */
  function PlotFor(wiki: seq<WikiRow>, key: string): string
    requires forall j :: 0 <= j < |wiki| ==> IsAscii(wiki[j].title)
  {
    match FirstMatch(wiki, key)
    case Some(j) => wiki[j].plot
    case None => ""
  }

  /** The joined table: every catalog row, in order, with its normalised title and plot. */
  function Joined(imdb: seq<CatalogRow>, wiki: seq<WikiRow>): seq<JoinedRow>
    requires AsciiTitles(imdb, wiki)
  {
    seq(|imdb|, i requires 0 <= i < |imdb| =>
      JoinedRow(imdb[i], PreprocessTitle(imdb[i].seriesTitle), PlotFor(wiki, PreprocessTitle(imdb[i].seriesTitle))))
  }

  /** `wiki_df['Processed_Title'] = wiki_df['Title'].apply(preprocess_title)`. */
  function WithProcessedTitles(wiki: seq<WikiRow>): (r: seq<WikiEntry>)
    requires forall j :: 0 <= j < |wiki| ==> IsAscii(wiki[j].title)
    ensures |r| == |wiki|
    ensures forall j :: 0 <= j < |r| ==> r[j].row == wiki[j] && r[j].processedTitle == PreprocessTitle(wiki[j].title)
  {
    seq(|wiki|, j requires 0 <= j < |wiki| => WikiEntry(wiki[j], PreprocessTitle(wiki[j].title)))
  }

  /** `wiki_df[wiki_df['Processed_Title'] == title]['Plot']`: the plots of all matching rows, in order. */
  function MatchingPlots(entries: seq<WikiEntry>, title: string): seq<string> {
    if |entries| == 0 then []
    else (if entries[0].processedTitle == title then [entries[0].row.plot] else []) + MatchingPlots(entries[1..], title)
  }

  /** The pandas selection is empty exactly when nothing matches, and otherwise starts with the earliest match. */
  lemma {:induction false} MatchingPlotsFirst(wiki: seq<WikiRow>, key: string)
    requires forall j :: 0 <= j < |wiki| ==> IsAscii(wiki[j].title)
    ensures var m := MatchingPlots(WithProcessedTitles(wiki), key);
      (|m| == 0 <==> FirstMatch(wiki, key).None?) && (|m| > 0 ==> m[0] == PlotFor(wiki, key))
  {
    if |wiki| > 0 {
      MatchingPlotsFirst(wiki[1..], key);
      assert WithProcessedTitles(wiki)[1..] == WithProcessedTitles(wiki[1..]);
    }
  }

  /** A joined row after the loop: the earliest matching plot when there is one, else unchanged. */
  function WithFirstPlot(row: JoinedRow, wiki: seq<WikiRow>): JoinedRow
    requires forall j :: 0 <= j < |wiki| ==> IsAscii(wiki[j].title)
  {
    var key := row.processedTitle;
    if FirstMatch(wiki, key).Some? then row.(wikiPlot := PlotFor(wiki, key)) else row
  }

  /** One pass of the loop body gives a row its earliest matching plot. */
  lemma MatchStep(row: JoinedRow, wiki: seq<WikiRow>, entries: seq<WikiEntry>)
    requires forall j :: 0 <= j < |wiki| ==> IsAscii(wiki[j].title)
    requires entries == WithProcessedTitles(wiki)
    ensures var m := MatchingPlots(entries, row.processedTitle);
      WithFirstPlot(row, wiki) == if |m| > 0 then row.(wikiPlot := m[0]) else row
  {
    MatchingPlotsFirst(wiki, row.processedTitle);
  }

  /**
    The loop of lines 20-28 over a table that already holds the
    `Processed_Title` and `Wiki_Plot` columns: it writes each matched plot
    into its row in place.
   */
  method MatchPlots(table: array<JoinedRow>, wiki: seq<WikiRow>, entries: seq<WikiEntry>)
    requires forall j :: 0 <= j < |wiki| ==> IsAscii(wiki[j].title)
    requires entries == WithProcessedTitles(wiki)
    modifies table
    ensures forall i :: 0 <= i < table.Length ==> table[i] == WithFirstPlot(old(table[i]), wiki)
  {
    var index := 0;
    while index < table.Length
      invariant 0 <= index <= table.Length
      invariant forall i :: 0 <= i < index ==> table[i] == WithFirstPlot(old(table[i]), wiki)
      invariant forall i :: index <= i < table.Length ==> table[i] == old(table[i])
    {
      var title := table[index].processedTitle;
      var matching := MatchingPlots(entries, title);
      MatchStep(table[index], wiki, entries);
      if |matching| > 0 {
        table[index] := table[index].(wikiPlot := matching[0]);
      }
      index := index + 1;
    }
  }

  /** The whole script between loading and saving: lines 13-28. */
  method JoinPlots(imdb: seq<CatalogRow>, wiki: seq<WikiRow>) returns (result: seq<JoinedRow>)
    requires AsciiTitles(imdb, wiki)
    ensures result == Joined(imdb, wiki)
  {
    var entries := WithProcessedTitles(wiki);
    var table := new JoinedRow[|imdb|](i requires 0 <= i < |imdb| =>
      JoinedRow(imdb[i], PreprocessTitle(imdb[i].seriesTitle), ""));
    MatchPlots(table, wiki, entries);
    result := table[..];
  }

  // ----- what the join promises -----

  /** Every catalog row is kept, in order, with its own fields unchanged and its normalised title. */
  lemma JoinedKeepsRows(imdb: seq<CatalogRow>, wiki: seq<WikiRow>)
    requires AsciiTitles(imdb, wiki)
    ensures |Joined(imdb, wiki)| == |imdb|
    ensures forall i :: 0 <= i < |imdb| ==>
      Joined(imdb, wiki)[i].catalog == imdb[i] && Joined(imdb, wiki)[i].processedTitle == PreprocessTitle(imdb[i].seriesTitle)
  {
  }

  /** The plot attached is that of the earliest corpus row with the same normalised title. */
  lemma JoinedTakesEarliestPlot(imdb: seq<CatalogRow>, wiki: seq<WikiRow>, i: nat, j: nat)
    requires AsciiTitles(imdb, wiki)
    requires i < |imdb| && j < |wiki|
    requires PreprocessTitle(wiki[j].title) == PreprocessTitle(imdb[i].seriesTitle)
    requires forall k :: 0 <= k < j ==> PreprocessTitle(wiki[k].title) != PreprocessTitle(imdb[i].seriesTitle)
    ensures Joined(imdb, wiki)[i].wikiPlot == wiki[j].plot
  {
    var key := PreprocessTitle(imdb[i].seriesTitle);
    var f := FirstMatch(wiki, key);
    if f.Some? {
      assert !(f.value < j);
      assert !(j < f.value);
    }
  }

  /** A catalog row whose normalised title no corpus row has keeps the empty plot. */
  lemma JoinedUnmatchedIsEmpty(imdb: seq<CatalogRow>, wiki: seq<WikiRow>, i: nat)
    requires AsciiTitles(imdb, wiki)
    requires i < |imdb|
    requires forall k :: 0 <= k < |wiki| ==> PreprocessTitle(wiki[k].title) != PreprocessTitle(imdb[i].seriesTitle)
    ensures Joined(imdb, wiki)[i].wikiPlot == ""
  {
  }

  /**
    `Released_Year` is read but never used: catalogs that differ only in it
    join to tables that differ only in it, with the same plots.
   */
  lemma JoinedIgnoresYear(imdb: seq<CatalogRow>, imdb': seq<CatalogRow>, wiki: seq<WikiRow>)
    requires AsciiTitles(imdb, wiki) && AsciiTitles(imdb', wiki)
    requires |imdb| == |imdb'|
    requires forall i :: 0 <= i < |imdb| ==> imdb'[i] == imdb[i].(releasedYear := imdb'[i].releasedYear)
    ensures |Joined(imdb', wiki)| == |Joined(imdb, wiki)|
    ensures forall i :: 0 <= i < |imdb| ==> Joined(imdb', wiki)[i] == Joined(imdb, wiki)[i].(catalog := imdb'[i])
    ensures forall i :: 0 <= i < |imdb| ==> Joined(imdb, wiki)[i].wikiPlot == Joined(imdb', wiki)[i].wikiPlot
  {
  }

  /** Two corpus rows titled "X" with plots "first" and "second": catalog row "x" gets "first". */
  lemma JoinedDuplicateExample()
    ensures var imdb := [CatalogRow("x", "2000", "", map[])];
            var wiki := [WikiRow("X", "first", map[]), WikiRow("X", "second", map[])];
            AsciiTitles(imdb, wiki) && Joined(imdb, wiki)[0].wikiPlot == "first"
  {
    var imdb := [CatalogRow("x", "2000", "", map[])];
    var wiki := [WikiRow("X", "first", map[]), WikiRow("X", "second", map[])];
    assert Upper("x") == "X";
    PreprocessIgnoresCase("x");
    JoinedTakesEarliestPlot(imdb, wiki, 0, 0);
  }
}
