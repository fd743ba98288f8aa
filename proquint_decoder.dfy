/**
  `ProquintDecoder.swift`: the text is split on `-`, each piece gives one
  16-bit word from its first five letters, and each word gives two bytes,
  low byte first. A piece shorter than five letters or a letter outside the
  alphabets traps in the source (an index out of range or a forced unwrap
  of a missing table entry); here that is `None` for the whole text.
 */
module ProquintDecoder {
  import opened Wrappers
  import opened Text
  import opened ProquintEncoder

  const ConsonantValues: map<char, uint16> := map[
    'b' := 0, 'd' := 1, 'f' := 2, 'g' := 3,
    'h' := 4, 'j' := 5, 'k' := 6, 'l' := 7,
    'm' := 8, 'n' := 9, 'p' := 10, 'r' := 11,
    's' := 12, 't' := 13, 'v' := 14, 'z' := 15]

  const VowelValues: map<char, uint16> := map['a' := 0, 'i' := 1, 'o' := 2, 'u' := 3]

  /** Each table gives every letter of the encoder's alphabet its position there, and knows no other letter. */
  lemma TablesMatchAlphabets()
    ensures forall c :: c in ConsonantValues <==> c in Consonants
    ensures forall c :: c in VowelValues <==> c in Vowels
    ensures forall i :: 0 <= i < 16 ==> ConsonantValues[Consonants[i]] as int == i
    ensures forall i :: 0 <= i < 4 ==> VowelValues[Vowels[i]] as int == i
    ensures forall c :: c in ConsonantValues ==> Consonants[ConsonantValues[c]] == c
    ensures forall c :: c in VowelValues ==> Vowels[VowelValues[c]] == c
  {
    ConsonantKeys();
    forall i | 0 <= i < 16 ensures ConsonantValues[Consonants[i]] as int == i {
      ConsonantPosition(i);
    }
    forall c | c in ConsonantValues ensures Consonants[ConsonantValues[c]] == c {
      ConsonantOfValue(c);
    }
  }

  lemma ConsonantKeys()
    ensures forall c :: c in ConsonantValues <==> c in Consonants
  {
    assert ConsonantValues.Keys == set c | c in Consonants;
  }

  /** Consonants stand for four bits and vowels for two. */
  lemma TableValuesBounded()
    ensures forall c :: c in ConsonantValues ==> ConsonantValues[c] < 16
    ensures forall c :: c in VowelValues ==> VowelValues[c] < 4
  {
  }

  /** At least five letters, consonant-vowel-consonant-vowel-consonant by the tables. */
  predicate WellFormedQuint(quint: string) {
    |quint| >= 5 && quint[0] in ConsonantValues && quint[1] in VowelValues && quint[2] in ConsonantValues &&
    quint[3] in VowelValues && quint[4] in ConsonantValues
  }

  /** The word of one quint: `c1 + (v1 << 4) + (c2 << 6) + (v2 << 10) + (c3 << 12)`. */
  function DecodeQuint(quint: string): Option<uint16> {
    if |quint| < 5 || quint[0] !in ConsonantValues || quint[1] !in VowelValues ||
       quint[2] !in ConsonantValues || quint[3] !in VowelValues || quint[4] !in ConsonantValues
    then None
    else
      TableValuesBounded();
      var c1 := ConsonantValues[quint[0]] as int;
      var v1 := VowelValues[quint[1]] as int * 16;
      var c2 := ConsonantValues[quint[2]] as int * 64;
      var v2 := VowelValues[quint[3]] as int * 1024;
      var c3 := ConsonantValues[quint[4]] as int * 4096;
      Some((c1 + v1 + c2 + v2 + c3) as uint16)
  }

  /** `UInt16.bytes`: low byte, then high byte. */
  function WordBytes(n: uint16): (b: seq<byte>)
    ensures |b| == 2 && b[0] as int + 256 * b[1] as int == n as int
  {
    [(n % 256) as int as byte, (n / 256) as int as byte]
  }

  /**
    The `flatMap` of a per-quint decoder over the quints: two bytes for
    each, or `None` at the first trap.
   */
  function FlatMapWords(quints: seq<string>, decode: string -> Option<uint16>): (r: Option<seq<byte>>)
    ensures r.Some? ==> |r.value| == 2 * |quints|
    decreases |quints|
  {
    if |quints| == 0 then Some([])
    else
      var prev := FlatMapWords(quints[..|quints| - 1], decode);
      var last := decode(quints[|quints| - 1]);
      if prev.Some? && last.Some? then Some(prev.value + WordBytes(last.value)) else None
  }

  /** The decoding of a list of quints, by `DecodeQuint`. */
  function DecodeAll(quints: seq<string>): (r: Option<seq<byte>>)
    ensures r.Some? ==> |r.value| == 2 * |quints|
  {
    FlatMapWords(quints, DecodeQuint)
  }

  /** `decode(from:)`. */
  function Decode(s: string): Option<seq<byte>> {
    DecodeAll(Split(s, '-'))
  }

  // ----- properties -----

  lemma ConsonantPosition(i: int)
    requires 0 <= i < 16
    ensures Consonants[i] in ConsonantValues && ConsonantValues[Consonants[i]] as int == i
  {
  }

  lemma VowelPosition(i: int)
    requires 0 <= i < 4
    ensures Vowels[i] in VowelValues && VowelValues[Vowels[i]] as int == i
  {
  }

  lemma ConsonantOfValue(c: char)
    requires c in ConsonantValues
    ensures Consonants[ConsonantValues[c] as int] == c
  {
  }

  lemma VowelOfValue(c: char)
    requires c in VowelValues
    ensures Vowels[VowelValues[c] as int] == c
  {
  }

  /** The five bit fields of a 16-bit word put it back together. */
  lemma FieldsCompose(m: int)
    requires 0 <= m < 0x1_0000
    ensures m == m % 16 + 16 * (m / 16 % 4) + 64 * (m / 64 % 16) + 1024 * (m / 1024 % 4) + 4096 * (m / 4096 % 16)
  {
    var a := m / 16;
    var b := a / 4;
    var c := b / 16;
    var d := c / 4;
    assert b == m / 64 && c == m / 1024 && d == m / 4096;
    assert m == m % 16 + 16 * a;
    assert a == a % 4 + 4 * b;
    assert b == b % 16 + 16 * c;
    assert c == c % 4 + 4 * d;
    assert d == d % 16;
  }

  /** The sum of five in-range fields has exactly those fields. */
  lemma FieldsSplit(c1: int, v1: int, c2: int, v2: int, c3: int)
    requires 0 <= c1 < 16 && 0 <= v1 < 4 && 0 <= c2 < 16 && 0 <= v2 < 4 && 0 <= c3 < 16
    ensures var m := c1 + 16 * v1 + 64 * c2 + 1024 * v2 + 4096 * c3;
      m % 16 == c1 && m / 16 % 4 == v1 && m / 64 % 16 == c2 && m / 1024 % 4 == v2 && m / 4096 % 16 == c3
  {
    var m := c1 + 16 * v1 + 64 * c2 + 1024 * v2 + 4096 * c3;
    assert m % 16 == c1 && m / 16 == v1 + 4 * c2 + 64 * v2 + 256 * c3;
    assert m / 16 % 4 == v1 && m / 64 == c2 + 16 * v2 + 64 * c3;
    assert m / 64 % 16 == c2 && m / 1024 == v2 + 4 * c3;
    assert m / 1024 % 4 == v2 && m / 4096 == c3;
  }

  /** Decoding the quintuplet of a word gives the word back. */
  lemma DecodeQuintOfQuint(n: uint16)
    ensures DecodeQuint(Quint(n)) == Some(n)
  {
    var m := n as int;
    var q := Quint(n);
    QuintOfFields(n);
    ConsonantPosition(m % 16);
    VowelPosition(m / 16 % 4);
    ConsonantPosition(m / 64 % 16);
    VowelPosition(m / 1024 % 4);
    ConsonantPosition(m / 4096 % 16);
    DecodeQuintValue(q);
    FieldsCompose(m);
  }

  /** A well-formed quint decodes to the sum of its shifted fields. */
  lemma DecodeQuintValue(quint: string)
    requires WellFormedQuint(quint)
    ensures DecodeQuint(quint).Some?
    ensures DecodeQuint(quint).value as int == ConsonantValues[quint[0]] as int + 16 * VowelValues[quint[1]] as int +
      64 * ConsonantValues[quint[2]] as int + 1024 * VowelValues[quint[3]] as int + 4096 * ConsonantValues[quint[4]] as int
  {
  }

  /** The letters of a quintuplet, by the integer fields of its word. */
  lemma QuintOfFields(n: uint16)
    ensures var m := n as int;
      Quint(n) == [Consonants[m % 16], Vowels[m / 16 % 4], Consonants[m / 64 % 16], Vowels[m / 1024 % 4], Consonants[m / 4096 % 16]]
  {
  }

  /** Encoding the word of a five-letter quint gives the quint back. */
  lemma QuintOfDecodeQuint(quint: string)
    requires |quint| == 5 && WellFormedQuint(quint)
    ensures Quint(DecodeQuint(quint).value) == quint
  {
    var c1 := ConsonantValues[quint[0]] as int;
    var v1 := VowelValues[quint[1]] as int;
    var c2 := ConsonantValues[quint[2]] as int;
    var v2 := VowelValues[quint[3]] as int;
    var c3 := ConsonantValues[quint[4]] as int;
    TableValuesBounded();
    var n := DecodeQuint(quint).value;
    assert n as int == c1 + 16 * v1 + 64 * c2 + 1024 * v2 + 4096 * c3;
    FieldsSplit(c1, v1, c2, v2, c3);
    QuintOfFields(n);
    ConsonantOfValue(quint[0]);
    VowelOfValue(quint[1]);
    ConsonantOfValue(quint[2]);
    VowelOfValue(quint[3]);
    ConsonantOfValue(quint[4]);
    assert Quint(n) == [quint[0], quint[1], quint[2], quint[3], quint[4]];
  }

  /** The two bytes of a word read from a buffer are the buffer's bytes. */
  lemma WordBytesOfWord(bytes: seq<byte>, k: nat)
    requires 2 * k + 1 < |bytes|
    ensures WordBytes(Word(bytes, k)) == bytes[2 * k..2 * k + 2]
  {
    var lo, hi := bytes[2 * k] as int, bytes[2 * k + 1] as int;
    var m := lo + 256 * hi;
    assert m % 256 == lo && m / 256 == hi;
    assert bytes[2 * k..2 * k + 2] == [bytes[2 * k], bytes[2 * k + 1]];
  }

  /** A quint decodes exactly when it has five letters drawn from the alphabets in the right places. */
  lemma DecodeQuintSucceeds(quint: string)
    ensures DecodeQuint(quint).Some? <==> WellFormedQuint(quint)
    ensures WellFormedQuint(quint) <==>
      |quint| >= 5 && quint[0] in Consonants && quint[1] in Vowels && quint[2] in Consonants &&
      quint[3] in Vowels && quint[4] in Consonants
  {
    TablesMatchAlphabets();
  }

  /** Letters after the fifth play no part. */
  lemma ExtraLettersIgnored(quint: string)
    requires |quint| >= 5
    ensures DecodeQuint(quint) == DecodeQuint(quint[..5])
  {
  }

  /** The empty text is one empty quint, which traps. */
  lemma EmptyTextTraps(s: string)
    requires s == ""
    ensures Decode(s) == None
  {
    assert Split(s, '-') == [""];
    assert DecodeAll([""]) == None by {
      assert [""][..0] == [];
    }
  }

  lemma BytesPrefixSnoc(bytes: seq<byte>, lo: nat)
    requires lo + 2 <= |bytes|
    ensures bytes[..lo + 2] == bytes[..lo] + bytes[lo..lo + 2]
  {
  }

  /** One more quint that decodes appends its two bytes. */
  lemma FlatMapSnoc(quints: seq<string>, quint: string, decode: string -> Option<uint16>, n: uint16, before: seq<byte>)
    requires FlatMapWords(quints, decode) == Some(before) && decode(quint) == Some(n)
    ensures FlatMapWords(quints + [quint], decode) == Some(before + WordBytes(n))
  {
    assert (quints + [quint])[..|quints|] == quints;
  }

  lemma FlatMapStep(quints: seq<string>, bytes: seq<byte>, j: nat, decode: string -> Option<uint16>)
    requires j < |quints| && j < |bytes| / 2
    requires decode(quints[j]) == Some(Word(bytes, j))
    requires FlatMapWords(quints[..j], decode) == Some(bytes[..2 * j])
    ensures FlatMapWords(quints[..j + 1], decode) == Some(bytes[..2 * j + 2])
  {
    assert quints[..j + 1] == quints[..j] + [quints[j]];
    FlatMapSnoc(quints[..j], quints[j], decode, Word(bytes, j), bytes[..2 * j]);
    WordBytesOfWord(bytes, j);
    BytesPrefixSnoc(bytes, 2 * j);
  }

  /**
    When the `j`-th quint decodes to word `j` of the buffer for every `j`
    below `k`, the first `k` quints give back the first `2k` bytes.
   */
  lemma {:induction false} FlatMapPrefix(quints: seq<string>, bytes: seq<byte>, k: nat, decode: string -> Option<uint16>)
    requires k <= |quints| && k <= |bytes| / 2
    requires forall j :: 0 <= j < k ==> decode(quints[j]) == Some(Word(bytes, j))
    ensures FlatMapWords(quints[..k], decode) == Some(bytes[..2 * k])
    decreases k
  {
    if k > 0 {
      FlatMapPrefix(quints, bytes, k - 1, decode);
      FlatMapStep(quints, bytes, k - 1, decode);
    }
  }

  /** The `flatMap` succeeds exactly when every quint decodes. */
  lemma {:induction false} FlatMapSucceeds(quints: seq<string>, decode: string -> Option<uint16>)
    ensures FlatMapWords(quints, decode).Some? <==> forall k :: 0 <= k < |quints| ==> decode(quints[k]).Some?
    decreases |quints|
  {
    if |quints| > 0 {
      var init := quints[..|quints| - 1];
      FlatMapSucceeds(init, decode);
      assert forall k :: 0 <= k < |init| ==> init[k] == quints[k];
    }
  }

  /** The text decodes exactly when every piece is a well-formed quint. */
  lemma DecodeAllSucceeds(quints: seq<string>)
    ensures DecodeAll(quints).Some? <==> forall k :: 0 <= k < |quints| ==> WellFormedQuint(quints[k])
  {
    FlatMapSucceeds(quints, DecodeQuint);
    forall k | 0 <= k < |quints| ensures DecodeQuint(quints[k]).Some? <==> WellFormedQuint(quints[k]) {
      DecodeQuintSucceeds(quints[k]);
    }
  }

  /** Every whole word round-trips: decoding the encoding gives the bytes back, less an odd trailing byte. */
  lemma RoundTrip(bytes: seq<byte>)
    requires |bytes| >= 2
    ensures Decode(Join(Quints(bytes), "-")) == Some(bytes[..2 * (|bytes| / 2)])
  {
    var qs := Quints(bytes);
    forall k | 0 <= k < |qs| ensures '-' !in qs[k] {
      QuintHasNoDash(Word(bytes, k));
    }
    SplitJoin(qs, '-');
    forall j | 0 <= j < |qs| ensures DecodeQuint(qs[j]) == Some(Word(bytes, j)) {
      DecodeQuintOfQuint(Word(bytes, j));
    }
    FlatMapPrefix(qs, bytes, |qs|, DecodeQuint);
    assert qs[..|qs|] == qs;
  }

  lemma RoundTripEven(bytes: seq<byte>)
    requires |bytes| >= 2 && |bytes| % 2 == 0
    ensures Decode(Join(Quints(bytes), "-")) == Some(bytes)
  {
    RoundTrip(bytes);
    assert bytes[..|bytes|] == bytes;
  }

  /** One byte encodes to the empty text, which does not decode. */
  lemma SingleByteDoesNotRoundTrip(bytes: seq<byte>)
    requires |bytes| == 1
    ensures Decode(Join(Quints(bytes), "-")) == None
  {
    SingleByteEncodesEmpty(bytes);
    EmptyTextTraps(Join(Quints(bytes), "-"));
  }
}
