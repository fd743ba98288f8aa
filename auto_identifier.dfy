/**
  `_AutoIncrementingIdentifier.swift` (Swallow): every identifier created
  for a key (the creating file and the identified type) takes that key's
  counter, which starts at 0, and the counter then moves on by one, wrapping
  around at the end of `UInt`'s 64 bits. Identifiers compare by their
  number alone. The lock around the counters is not modelled: the registry
  is one object whose methods run one at a time.
 */
module AutoIdentifier {
  import opened Text

  const TwoTo64: nat := 0x1_0000_0000_0000_0000

  newtype uint64 = x: int | 0 <= x < 0x1_0000_0000_0000_0000

  /** `Hashable2ple<AnyHashable, Metatype<Any.Type>>`: the file and the identified type. */
  datatype Key = Key(file: string, typeName: string)

  /** The stored fields of an identifier; the synthesised `==` compares both. */
  datatype AutoIncrementingIdentifier = AutoIncrementingIdentifier(file: string, id: uint64)

  /** `addingReportingOverflow(1)`, keeping the partial value. */
  function Successor(value: uint64): (r: uint64)
    ensures value as int + 1 < TwoTo64 ==> r as int == value as int + 1
    ensures value as int + 1 == TwoTo64 ==> r == 0
  {
    ((value as int + 1) % TwoTo64) as uint64
  }

  /** The process-wide `counters` dictionary. */
  class Counters {
    var counters: map<Key, uint64>

    constructor ()
      ensures counters == map[]
    {
      counters := map[];
    }

    /** `counters[key, defaultInPlace: 0]`, read without inserting. */
    function Current(key: Key): uint64
      reads this
    {
      if key in counters then counters[key] else 0
    }

    /**
      `init(file:)` for the type `typeName`: the identifier takes the key's
      current counter, which is first inserted as 0 when missing.
     */
    method NewIdentifier(file: string, typeName: string) returns (ident: AutoIncrementingIdentifier)
      modifies this
      ensures ident.file == file
      ensures ident.id == old(Current(Key(file, typeName)))
      ensures Key(file, typeName) !in old(counters) ==> ident.id == 0
      ensures counters == old(counters)[Key(file, typeName) := Successor(ident.id)]
      ensures forall k :: k != Key(file, typeName) ==> Current(k) == old(Current(k))
    {
      var key := Key(file, typeName);
      if key !in counters {
        counters := counters[key := 0];
      }
      var value := counters[key];
      counters := counters[key := Successor(value)];
      ident := AutoIncrementingIdentifier(file, value);
    }
  }

  /** `<`: by number only. */
  predicate Less(lhs: AutoIncrementingIdentifier, rhs: AutoIncrementingIdentifier) {
    lhs.id < rhs.id
  }

  /** `>`: by number only. */
  predicate Greater(lhs: AutoIncrementingIdentifier, rhs: AutoIncrementingIdentifier) {
    lhs.id > rhs.id
  }

  /** `description`: the number in decimal. */
  function Description(ident: AutoIncrementingIdentifier): (s: string)
    ensures |s| >= 1 && AllDigits(s)
  {
    NatToString(ident.id as nat)
  }

  // ----- properties -----

  /** `>` is `<` with the operands swapped, and `<` is a strict order. */
  lemma OrderIsByNumber(a: AutoIncrementingIdentifier, b: AutoIncrementingIdentifier, c: AutoIncrementingIdentifier)
    ensures Greater(a, b) <==> Less(b, a)
    ensures !Less(a, a)
    ensures Less(a, b) && Less(b, c) ==> Less(a, c)
    ensures Less(a, b) ==> !Less(b, a)
    ensures a.id != b.id ==> Less(a, b) || Less(b, a)
  {
  }

  /**
    Identifiers of different files start their counters alike, so two of
    them can be unequal yet neither below the other.
   */
  lemma SameNumberDifferentFiles(a: AutoIncrementingIdentifier, b: AutoIncrementingIdentifier)
    requires a.id == b.id && a.file != b.file
    ensures a != b && !Less(a, b) && !Less(b, a)
  {
  }

  /** The description determines the number. */
  lemma DescriptionIsInjective(a: AutoIncrementingIdentifier, b: AutoIncrementingIdentifier)
    requires Description(a) == Description(b)
    ensures a.id == b.id
  {
    NatToStringInjective(a.id as nat, b.id as nat);
  }

  /** Before wrapping around, successive identifiers of one key are numbered in increasing order. */
  lemma SuccessorIncreases(value: uint64)
    requires value as int + 1 < TwoTo64
    ensures value < Successor(value)
  {
  }

  /** The last 64-bit value wraps back to 0. */
  lemma SuccessorWraps(value: uint64)
    requires value as int == TwoTo64 - 1
    ensures Successor(value) == 0
  {
  }
}
