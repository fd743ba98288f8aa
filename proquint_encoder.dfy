/**
  `ProquintEncoder.swift`: bytes become pronounceable five-letter
  quintuplets, one per 16-bit word, joined by `-`. The words are read from
  the byte buffer in little-endian order; a trailing odd byte is not part of
  any word. The first consonant holds the low four bits of the word.

  Bytes and words are integers in range; a right shift by `k` followed by a
  mask of `j` bits is the quotient by `2^k` taken modulo `2^j`.
 */
module ProquintEncoder {
  import opened Text

  newtype byte = x: int | 0 <= x < 256
  newtype uint16 = x: int | 0 <= x < 0x1_0000

  const Consonants: string := "bdfghjklmnprstvz"
  const Vowels: string := "aiou"

  /** Word `n` of the buffer: bytes `2n` (low) and `2n + 1` (high). */
  function Word(bytes: seq<byte>, n: nat): (w: uint16)
    requires 2 * n + 1 < |bytes|
    ensures w as int == bytes[2 * n] as int + 256 * bytes[2 * n + 1] as int
  {
    (bytes[2 * n] as int + 256 * bytes[2 * n + 1] as int) as uint16
  }

  /** The quintuplet of one word: consonant, vowel, consonant, vowel, consonant. */
  function Quint(n: uint16): (q: string)
    ensures |q| == 5
  {
    var c1 := n % 16;
    var v1 := n / 16 % 4;
    var c2 := n / 64 % 16;
    var v2 := n / 1024 % 4;
    var c3 := n / 4096 % 16;
    [Consonants[c1 as int], Vowels[v1 as int], Consonants[c2 as int], Vowels[v2 as int], Consonants[c3 as int]]
  }

  /** The quintuplets of all whole words, in word order. */
  function Quints(bytes: seq<byte>): (qs: seq<string>)
    ensures |qs| == |bytes| / 2
    ensures forall n :: 0 <= n < |qs| ==> qs[n] == Quint(Word(bytes, n))
  {
    seq(|bytes| / 2, n requires 0 <= n < |bytes| / 2 => Quint(Word(bytes, n)))
  }

  /**
    `encode(_ bytes:)`. The source takes the buffer's base address by force,
    which traps for an empty buffer, so at least one byte is required.
   */
  method Encode(bytes: seq<byte>) returns (s: string)
    requires |bytes| >= 1
    ensures s == Join(Quints(bytes), "-")
  {
    var result: seq<string> := [];
    var n := 0;
    while n < |bytes| / 2
      invariant 0 <= n <= |bytes| / 2
      invariant result == Quints(bytes)[..n]
    {
      result := result + [Quint(Word(bytes, n))];
      n := n + 1;
    }
    assert Quints(bytes)[..n] == Quints(bytes);
    s := Join(result, "-");
  }

  // ----- properties -----

  /** Every quintuplet is consonant-vowel-consonant-vowel-consonant. */
  lemma QuintLetters(n: uint16)
    ensures var q := Quint(n);
      q[0] in Consonants && q[1] in Vowels && q[2] in Consonants && q[3] in Vowels && q[4] in Consonants
  {
  }

  /** A quintuplet never holds the separator. */
  lemma QuintHasNoDash(n: uint16)
    ensures '-' !in Quint(n)
  {
    var q := Quint(n);
    QuintLetters(n);
    forall k | 0 <= k < 5 ensures q[k] != '-' {
      assert q[k] in Consonants || q[k] in Vowels;
    }
  }

  /** A single byte makes no whole word and encodes to the empty string. */
  lemma SingleByteEncodesEmpty(bytes: seq<byte>)
    requires |bytes| == 1
    ensures Join(Quints(bytes), "-") == ""
  {
  }

  /** Two bytes make one word and so one quintuplet with no separator. */
  lemma TwoBytesOneQuint(bytes: seq<byte>)
    requires |bytes| == 2
    ensures Join(Quints(bytes), "-") == Quint(Word(bytes, 0))
  {
  }

  /** The encoded text has five letters per word and one separator between words. */
  lemma {:induction false} JoinedLength(qs: seq<string>)
    requires forall k :: 0 <= k < |qs| ==> |qs[k]| == 5
    ensures |Join(qs, "-")| == if |qs| == 0 then 0 else 6 * |qs| - 1
    decreases |qs|
  {
    if |qs| > 1 {
      JoinedLength(qs[1..]);
    }
  }

  lemma EncodedLength(bytes: seq<byte>)
    ensures |Join(Quints(bytes), "-")| == if |bytes| < 2 then 0 else 6 * (|bytes| / 2) - 1
  {
    JoinedLength(Quints(bytes));
  }

  /** The odd trailing byte does not change the text. */
  lemma TrailingByteIgnored(bytes: seq<byte>, extra: byte)
    requires |bytes| % 2 == 0
    ensures Quints(bytes + [extra]) == Quints(bytes)
  {
    var b' := bytes + [extra];
    forall n | 0 <= n < |bytes| / 2 ensures Word(b', n) == Word(bytes, n) {
      assert b'[2 * n] == bytes[2 * n] && b'[2 * n + 1] == bytes[2 * n + 1];
    }
  }
}
