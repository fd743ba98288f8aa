/**
  `CSVDecoder` of `_CSV/Intramodular/CSVDecoder.swift`: the rows of a table
  are checked to have one cell per header, then handed, with the headers,
  to a `_Decoder` from which the (foreign) `Decodable` initialiser reads.
  That initialiser is a function parameter here.
 */
module CsvDecoder {
  import opened Wrappers
  import opened CsvHeader
  import opened CsvTable

  /**
    What decoding can end in besides a value: the errors the decoder and
    its containers throw, and `Trap` for an out-of-range array access,
    which stops the program rather than throwing.
   */
  datatype DecodeError =
    | KeyNotFound(key: string)
    | TypeMismatch
    | DataCorrupted
    | InvalidRowValuesCount
    | Unavailable
    | Trap

  /** `_Decoder`: the headers and rows its containers are built from. */
  datatype Decoder = Decoder(headers: seq<ColumnHeader>, rows: seq<seq<string>>)

  /** The row-width check inside `decode(_:from:)`'s `map`: the first row of another width throws. */
  function CheckRows(rows: seq<seq<string>>, width: nat): (r: Either<DecodeError, seq<seq<string>>>)
    ensures r.Right? <==> forall i :: 0 <= i < |rows| ==> |rows[i]| == width
    ensures r.Right? ==> r.right == rows
    ensures r.Left? ==> r.left == InvalidRowValuesCount
  {
    if |rows| == 0 then Right([])
    else if |rows[0]| != width then Left(InvalidRowValuesCount)
    else
      var rest := CheckRows(rows[1..], width);
      if rest.Left? then rest
      else
        assert forall i :: 1 <= i < |rows| ==> |rows[i]| == |rows[1..][i - 1]|;
        assert [rows[0]] + rest.right == rows;
        Right([rows[0]] + rest.right)
  }

  /** `data.rows`: every row of the table read through `subscript(row:)`. */
  function TableRows(hs: seq<ColumnHeader>, data: map<int, Column>, n: nat): (rows: seq<seq<string>>)
    requires forall r :: 0 <= r < n ==> HasRow(hs, data, r)
    ensures |rows| == n
    ensures forall r :: 0 <= r < n ==> rows[r] == RowAt(hs, data, r)
  {
    seq(n, r requires 0 <= r < n => RowAt(hs, data, r))
  }

  /** `decode(_:from:)` on headers and rows: the width check, then the initialiser `fromDecoder`. */
  function Decode<T>(headers: seq<ColumnHeader>, rows: seq<seq<string>>, fromDecoder: Decoder -> Either<DecodeError, T>): (r: Either<DecodeError, T>)
    ensures (exists i :: 0 <= i < |rows| && |rows[i]| != |headers|) ==> r == Left(InvalidRowValuesCount)
    ensures (forall i :: 0 <= i < |rows| ==> |rows[i]| == |headers|) ==> r == fromDecoder(Decoder(headers, rows))
  {
    var checked := CheckRows(rows, |headers|);
    if checked.Left? then Left(checked.left) else fromDecoder(Decoder(headers, checked.right))
  }

  /** `decode(_:from:)` on a table. */
  function DecodeTable<T>(hs: seq<ColumnHeader>, data: map<int, Column>, n: nat, fromDecoder: Decoder -> Either<DecodeError, T>): Either<DecodeError, T>
    requires forall r :: 0 <= r < n ==> HasRow(hs, data, r)
  {
    Decode(hs, TableRows(hs, data, n), fromDecoder)
  }

  /**
    The rows of a table are read in header order, one cell per header, so
    the width check never rejects a table: the initialiser always sees the
    table's headers and all of its rows.
   */
  lemma DecodeTableNeverRejects<T>(hs: seq<ColumnHeader>, data: map<int, Column>, n: nat, fromDecoder: Decoder -> Either<DecodeError, T>)
    requires forall r :: 0 <= r < n ==> HasRow(hs, data, r)
    ensures DecodeTable(hs, data, n, fromDecoder) == fromDecoder(Decoder(hs, TableRows(hs, data, n)))
  {
  }
}

/**
  The keyed container of `_CSV/Intramodular/CSVDecoder.KeyedContainer.swift`:
  lookups by column name in one row.
 */
module CsvKeyedContainer {
  import opened Wrappers
  import opened Text
  import opened CsvHeader
  import opened CsvTable
  import opened CsvDecoder

  datatype KeyedContainer = KeyedContainer(headers: seq<ColumnHeader>, values: seq<string>)

  /** `container(keyedBy:)`: the decoder's headers and only its first row, or no cells. */
  function KeyedContainerOf(d: Decoder): (c: KeyedContainer)
    ensures c.headers == d.headers
    ensures |d.rows| > 0 ==> c.values == d.rows[0]
    ensures |d.rows| == 0 ==> c.values == []
  {
    KeyedContainer(d.headers, if |d.rows| > 0 then d.rows[0] else [])
  }

  /** The key string of a header: its name, or its decimal index when unnamed. */
  function KeyString(h: ColumnHeader): string {
    if h.name.Some? then h.name.value else IntToString(h.index)
  }

  /** Whether `Key(stringValue:)` (the parameter `keyOf`) accepts each header's key string. */
  function Accepted<K>(headers: seq<ColumnHeader>, keyOf: string -> Option<K>): (flags: seq<bool>)
    ensures |flags| == |headers|
    ensures forall i :: 0 <= i < |headers| ==> flags[i] == keyOf(KeyString(headers[i])).Some?
  {
    seq(|headers|, i requires 0 <= i < |headers| => keyOf(KeyString(headers[i])).Some?)
  }

  /**
    `allKeys`: the keys of the headers whose key string `keyOf` accepts, in
    header order; the rejected headers are skipped (AllKeysSkipRejected).
   */
  function AllKeys<K>(headers: seq<ColumnHeader>, keyOf: string -> Option<K>): (keys: seq<K>)
    ensures |keys| <= |headers|
    ensures (forall i :: 0 <= i < |headers| ==> keyOf(KeyString(headers[i])).Some?) ==>
      |keys| == |headers| && forall i :: 0 <= i < |headers| ==> keys[i] == keyOf(KeyString(headers[i])).value
    decreases |headers|
  {
    if |headers| == 0 then []
    else
      var rest := AllKeys(headers[..|headers| - 1], keyOf);
      var k := keyOf(KeyString(headers[|headers| - 1]));
      if k.Some? then rest + [k.value] else rest
  }

  /**
    The keys are exactly those of the accepted headers, in header order:
    key `j` belongs to the `j`-th header whose key string `keyOf` accepts.
   */
  lemma {:induction false} AllKeysSkipRejected<K>(headers: seq<ColumnHeader>, keyOf: string -> Option<K>)
    ensures var keys, ks := AllKeys(headers, keyOf), KeptIndices(Accepted(headers, keyOf));
      |keys| == |ks| &&
      forall j :: 0 <= j < |ks| ==> keys[j] == keyOf(KeyString(headers[ks[j]])).value
    decreases |headers|
  {
    if |headers| > 0 {
      AllKeysSkipRejected(headers[..|headers| - 1], keyOf);
      KeysSnoc(headers, keyOf, AllKeys(headers[..|headers| - 1], keyOf));
    }
  }

  /** One more header: its key, when accepted, follows the keys of the headers before it. */
  lemma KeysSnoc<K>(headers: seq<ColumnHeader>, keyOf: string -> Option<K>, rest: seq<K>)
    requires |headers| > 0
    requires var ks := KeptIndices(Accepted(headers[..|headers| - 1], keyOf));
      |rest| == |ks| &&
      forall j :: 0 <= j < |ks| ==> rest[j] == keyOf(KeyString(headers[ks[j]])).value
    ensures var k := keyOf(KeyString(headers[|headers| - 1]));
      var keys := if k.Some? then rest + [k.value] else rest;
      var ks := KeptIndices(Accepted(headers, keyOf));
      |keys| == |ks| &&
      forall j :: 0 <= j < |ks| ==> keys[j] == keyOf(KeyString(headers[ks[j]])).value
  {
    var n := |headers| - 1;
    var flags := Accepted(headers, keyOf);
    assert Accepted(headers[..n], keyOf) == flags[..n];
  }

  /** The position of the first header named `key`. */
  function FirstNamed(headers: seq<ColumnHeader>, key: string): (r: Option<nat>)
    ensures r.Some? ==> r.value < |headers| && headers[r.value].name == Some(key)
    ensures r.Some? ==> forall j :: 0 <= j < r.value ==> headers[j].name != Some(key)
    ensures r.None? ==> forall j :: 0 <= j < |headers| ==> headers[j].name != Some(key)
    decreases |headers|
  {
    if |headers| == 0 then None
    else if headers[0].name == Some(key) then Some(0)
    else
      var rest := FirstNamed(headers[1..], key);
      if rest.Some? then
        assert headers[rest.value + 1] == headers[1..][rest.value];
        Some(rest.value + 1)
      else None
  }

  /** `contains(_:)`: the first header of that name points at a non-empty cell. */
  function Contains(c: KeyedContainer, key: string): (b: bool)
    ensures b <==> (exists i :: FirstNamed(c.headers, key) == Some(i)
                      && 0 <= c.headers[i].index < |c.values| && |c.values[c.headers[i].index]| > 0)
  {
    var f := FirstNamed(c.headers, key);
    f.Some? && c.headers[f.value].index < |c.values|
      && 0 <= c.headers[f.value].index && |c.values[c.headers[f.value].index]| > 0
  }

  /** `decodeNil(forKey:)`: a missing column or an empty cell reads as nil. */
  function DecodeNil(c: KeyedContainer, key: string): (b: bool)
    ensures b <==> !Contains(c, key)
  {
    !Contains(c, key)
  }

  /** `decode(String.self, forKey:)`: the cell under the first header of that name. */
  function DecodeString(c: KeyedContainer, key: string): (r: Either<DecodeError, string>)
    ensures FirstNamed(c.headers, key).None? <==> r == Left(KeyNotFound(key))
    ensures r.Right? ==> (exists i :: FirstNamed(c.headers, key) == Some(i)
                            && 0 <= c.headers[i].index < |c.values| && r.right == c.values[c.headers[i].index])
  {
    var f := FirstNamed(c.headers, key);
    if f.None? then Left(KeyNotFound(key))
    else if 0 <= c.headers[f.value].index < |c.values| then Right(c.values[c.headers[f.value].index])
    else Left(Trap)
  }

  /** `decode(_:forKey:)` for a `LosslessStringConvertible` type, whose `init?(_:)` is `parse`. */
  function DecodeLossless<T>(c: KeyedContainer, key: string, parse: string -> Option<T>): (r: Either<DecodeError, T>)
    ensures DecodeString(c, key).Left? ==> r == Left(DecodeString(c, key).left)
    ensures DecodeString(c, key).Right? ==>
      r == if parse(DecodeString(c, key).right).Some? then Right(parse(DecodeString(c, key).right).value) else Left(TypeMismatch)
  {
    var s := DecodeString(c, key);
    if s.Left? then Left(s.left)
    else
      var v := parse(s.right);
      if v.None? then Left(TypeMismatch) else Right(v.value)
  }

  /** The general `decode(_:forKey:)`: the cell text through the (foreign) object encoder and decoder `viaObject`. */
  function DecodeGeneric<T>(c: KeyedContainer, key: string, viaObject: string -> Either<DecodeError, T>): (r: Either<DecodeError, T>)
    ensures DecodeString(c, key).Left? ==> r == Left(DecodeString(c, key).left)
    ensures DecodeString(c, key).Right? ==> r == viaObject(DecodeString(c, key).right)
  {
    var s := DecodeString(c, key);
    if s.Left? then Left(s.left) else viaObject(s.right)
  }

  /** `nestedContainer`, `nestedUnkeyedContainer` and both `superDecoder`s: always unavailable. */
  function Nested(c: KeyedContainer, key: Option<string>): (r: Either<DecodeError, Decoder>)
    ensures r == Left(Unavailable)
  {
    Left(Unavailable)
  }

  // ----- properties -----

  /** `decodeNil` is true exactly when the column is missing, out of the row, or its cell is empty. */
  lemma DecodeNilOnEmptyCell(c: KeyedContainer, key: string, i: nat)
    requires FirstNamed(c.headers, key) == Some(i)
    requires 0 <= c.headers[i].index < |c.values|
    ensures DecodeNil(c, key) <==> c.values[c.headers[i].index] == ""
  {
  }

  /** A key naming a cell in the row decodes to that cell, and `contains` agrees unless it is empty. */
  lemma DecodeStringFound(c: KeyedContainer, key: string, i: nat)
    requires i < |c.headers| && c.headers[i].name == Some(key)
    requires forall j :: 0 <= j < i ==> c.headers[j].name != Some(key)
    requires 0 <= c.headers[i].index < |c.values|
    ensures DecodeString(c, key) == Right(c.values[c.headers[i].index])
    ensures Contains(c, key) <==> c.values[c.headers[i].index] != ""
  {
    FirstNamedIs(c.headers, key, i);
  }

  /** The first header of a name is the one no earlier header shares the name with. */
  lemma FirstNamedIs(headers: seq<ColumnHeader>, key: string, i: nat)
    requires i < |headers| && headers[i].name == Some(key)
    requires forall j :: 0 <= j < i ==> headers[j].name != Some(key)
    ensures FirstNamed(headers, key) == Some(i)
  {
  }

  /** An integer cell written as decimal decodes back to that integer through `Int.init?(_:)`. */
  lemma DecodeIntOfRendered(c: KeyedContainer, key: string, i: nat, n: int)
    requires i < |c.headers| && c.headers[i].name == Some(key)
    requires forall j :: 0 <= j < i ==> c.headers[j].name != Some(key)
    requires 0 <= c.headers[i].index < |c.values|
    requires INT64_MIN <= n <= INT64_MAX
    requires c.values[c.headers[i].index] == IntToString(n)
    ensures DecodeLossless(c, key, ParseInt) == Right(n)
  {
    DecodeStringFound(c, key, i);
    ParseIntOfToString(n);
  }

  /** A cell that is not an integer literal gives `typeMismatch`. */
  lemma DecodeIntRejects(c: KeyedContainer, key: string)
    requires DecodeString(c, key).Right? && !IsIntegerLiteral(DecodeString(c, key).right)
    ensures DecodeLossless(c, key, ParseInt) == Left(TypeMismatch)
  {
    ParseIntIsLiteral(DecodeString(c, key).right);
  }

  /** With unnamed headers only, every key string is a decimal index and no name lookup succeeds. */
  lemma UnnamedKeys(headers: seq<ColumnHeader>, key: string)
    requires forall i :: 0 <= i < |headers| ==> headers[i].name.None?
    ensures AllKeys(headers, (s: string) => Some(s)) == seq(|headers|, i requires 0 <= i < |headers| => IntToString(headers[i].index))
    ensures FirstNamed(headers, key).None?
  {
    var keyOf := (s: string) => Some(s);
    var names := seq(|headers|, i requires 0 <= i < |headers| => IntToString(headers[i].index));
    forall i | 0 <= i < |headers| ensures keyOf(KeyString(headers[i])) == Some(names[i]) {
    }
    KeysWhenAllAccepted(headers, keyOf, names);
  }

  lemma KeysWhenAllAccepted<K>(headers: seq<ColumnHeader>, keyOf: string -> Option<K>, keys: seq<K>)
    requires |keys| == |headers|
    requires forall i :: 0 <= i < |headers| ==> keyOf(KeyString(headers[i])) == Some(keys[i])
    ensures AllKeys(headers, keyOf) == keys
  {
  }
}

/**
  The unkeyed container of
  `_CSV/Intramodular/CSVDecoder._Decoder.UnkeyedContainer.swift`: a cursor
  over the rows, each decoded on its own.
 */
module CsvUnkeyedContainer {
  import opened Wrappers
  import opened CsvHeader
  import opened CsvDecoder

  class UnkeyedContainer {
    var currentIndex: int
    const headers: seq<ColumnHeader>
    const rows: seq<seq<string>>

    /** The cursor never passes the end. */
    ghost predicate Valid()
      reads this
    {
      0 <= currentIndex <= |rows|
    }

    /** `unkeyedContainer()`: the decoder's headers and all its rows, the cursor at the start. */
    constructor (d: Decoder)
      ensures headers == d.headers && rows == d.rows
      ensures currentIndex == 0
      ensures Valid()
    {
      headers := d.headers;
      rows := d.rows;
      currentIndex := 0;
    }

    /** `count`. */
    function Count(): (n: int)
      ensures n == |rows|
    {
      |rows|
    }

    /** `isAtEnd`. */
    function IsAtEnd(): (b: bool)
      reads this
      ensures b <==> currentIndex >= |rows|
    {
      currentIndex >= Count()
    }

    /** `decodeNil()`: true while rows remain, the reverse of the usual meaning. */
    function DecodeNil(): (b: bool)
      reads this
      ensures b <==> currentIndex < |rows|
    {
      !IsAtEnd()
    }

    /**
      `decode(_:)`: at the end, `dataCorrupted` and the cursor stays;
      otherwise the current row alone is decoded by `fromDecoder` and the
      cursor moves on by one, whether that decoding succeeds or throws.
     */
    method Decode<T>(fromDecoder: Decoder -> Either<DecodeError, T>) returns (r: Either<DecodeError, T>)
      requires Valid()
      modifies this
      ensures old(currentIndex) >= |rows| ==> r == Left(DataCorrupted) && currentIndex == old(currentIndex)
      ensures old(currentIndex) < |rows| ==>
        r == fromDecoder(Decoder(headers, [rows[old(currentIndex)]])) && currentIndex == old(currentIndex) + 1
      ensures Valid()
    {
      if IsAtEnd() {
        return Left(DataCorrupted);
      }
      var row := rows[currentIndex];
      r := fromDecoder(Decoder(headers, [row]));
      currentIndex := currentIndex + 1;
    }

    /** `nestedUnkeyedContainer`, `nestedContainer` and `superDecoder`: always unavailable. */
    function Nested(): (r: Either<DecodeError, Decoder>)
      ensures r == Left(Unavailable)
    {
      Left(Unavailable)
    }
  }
}
