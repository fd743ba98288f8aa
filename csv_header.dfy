/**
  `CSVColumnHeader` of `_CSV/Intramodular/CSVHeader.swift`: a column's
  position and optional name. Equality, hashing and ordering look at the
  position only.
 */
module CsvHeader {
  import opened Wrappers

  datatype ColumnHeader = ColumnHeader(index: int, name: Option<string>)

  const Bom: char := '\U{FEFF}'

  /**
    `removingBOMCharacter()`, whose definition is not part of this model:
    taken to drop one leading byte-order mark.
   */
  function RemovingBom(s: string): (r: string)
    ensures |s| > 0 && s[0] == Bom ==> r == s[1..]
    ensures !(|s| > 0 && s[0] == Bom) ==> r == s
  {
    if |s| > 0 && s[0] == Bom then s[1..] else s
  }

  /** `init(index:name:)`. */
  function MakeHeader(index: int, name: Option<string>): (h: ColumnHeader)
    ensures h.index == index
    ensures h.name.None? <==> name.None?
    ensures name.Some? && !(|name.value| > 0 && name.value[0] == Bom) ==> h.name == name
  {
    ColumnHeader(index, if name.Some? then Some(RemovingBom(name.value)) else None)
  }

  /** `==`: headers are the same column when their positions agree. */
  predicate Same(a: ColumnHeader, b: ColumnHeader) {
    a.index == b.index
  }

  /** `hash(into:)`: only the position is fed to the hasher. */
  function HashValue(h: ColumnHeader): int {
    h.index
  }

  /** `<` as written: it compares with `<=`. */
  predicate LessAsWritten(a: ColumnHeader, b: ColumnHeader) {
    a.index <= b.index
  }

  /** `<` as a strict order on positions. */
  predicate Less(a: ColumnHeader, b: ColumnHeader) {
    a.index < b.index
  }

  /** Equality is an equivalence that ignores names. */
  lemma SameIsEquivalence(a: ColumnHeader, b: ColumnHeader, c: ColumnHeader)
    ensures Same(a, a)
    ensures Same(a, b) ==> Same(b, a)
    ensures Same(a, b) && Same(b, c) ==> Same(a, c)
    ensures Same(a, b) <==> a.index == b.index
    ensures Same(ColumnHeader(a.index, b.name), a)
  {
  }

  /** Equal headers hash equally, so a dictionary keyed by headers is keyed by position. */
  lemma HashConsistentWithSame(a: ColumnHeader, b: ColumnHeader)
    requires Same(a, b)
    ensures HashValue(a) == HashValue(b)
  {
  }

  /** The written `<` holds between a header and itself, which a strict order forbids. */
  lemma LessAsWrittenIsReflexive(h: ColumnHeader)
    ensures LessAsWritten(h, h)
  {
  }

  /** The corrected `<` is a strict total order compatible with `==`. */
  lemma LessIsStrictTotalOrder(a: ColumnHeader, b: ColumnHeader, c: ColumnHeader)
    ensures !Less(a, a)
    ensures Less(a, b) ==> !Less(b, a)
    ensures Less(a, b) && Less(b, c) ==> Less(a, c)
    ensures Less(a, b) || Same(a, b) || Less(b, a)
    ensures Same(a, b) ==> !Less(a, b) && !Less(b, a)
    ensures LessAsWritten(a, b) <==> Less(a, b) || Same(a, b)
  {
  }
}
