/** The byte form of SPIR-V bytecode, as the `serde_spirv` helpers of the
    shader crate produce and consume it. SPIR-V is a stream of 32-bit words
    (section 2.3, "Physical Layout", of the SPIR-V specification); here a word
    travels as four bytes in little-endian order. */
module SpirvCodec {
  import opened Wrappers
  import SliceUtil

  type Byte = SliceUtil.Byte
  type Word = bv32

  /** The serde error for a byte length that is not a whole number of words. */
  datatype DecodeError = InvalidLength(len: nat)

  /** The four bytes of one word, least significant first. */
  function WordBytes(w: Word): (b: seq<Byte>)
    ensures |b| == 4
  {
    [(w & 0xFF) as Byte, ((w >> 8) & 0xFF) as Byte, ((w >> 16) & 0xFF) as Byte, ((w >> 24) & 0xFF) as Byte]
  }

  /** The word whose little-endian bytes are `b`. */
  function WordOf(b: seq<Byte>): Word
    requires |b| == 4
  {
    (b[0] as Word) | ((b[1] as Word) << 8) | ((b[2] as Word) << 16) | ((b[3] as Word) << 24)
  }

  lemma WordOfWordBytes(w: Word)
    ensures WordOf(WordBytes(w)) == w
  {
  }

  lemma WordBytesWordOf(b: seq<Byte>)
    requires |b| == 4
    ensures WordBytes(WordOf(b)) == b
  {
  }

  /** `serde_spirv::serialize`: the words' bytes, back to back. It is the byte
      cast of the util crate applied to `u32` words. */
  function Serialize(words: seq<Word>): (bytes: seq<Byte>)
    ensures |bytes| == 4 * |words|
    ensures forall i :: 0 <= i < |words| ==> bytes[4 * i .. 4 * i + 4] == WordBytes(words[i])
  {
    var bytes := SliceUtil.CastSlice(words, 4, WordBytes);
    forall i | 0 <= i < |words|
      ensures bytes[4 * i .. 4 * i + 4] == WordBytes(words[i])
    {
      SliceUtil.CastSliceChunk(words, 4, WordBytes, i);
    }
    bytes
  }

  /** Reassembles whole words from a byte sequence of word-multiple length. */
  function WordsOf(bytes: seq<Byte>): (words: seq<Word>)
    requires |bytes| % 4 == 0
    ensures |words| == |bytes| / 4
    decreases |bytes|
  {
    if |bytes| == 0 then [] else [WordOf(bytes[..4])] + WordsOf(bytes[4..])
  }

  /** `serde_spirv::from_bytes`: refuses a length with a remainder modulo 4,
      otherwise yields `len / 4` words. An empty input decodes to no words. */
  function Deserialize(bytes: seq<Byte>): (r: Result<seq<Word>, DecodeError>)
    ensures r.Failure? <==> |bytes| % 4 > 0
    ensures r.Failure? ==> r.error == InvalidLength(|bytes|)
    ensures r.Success? ==> |r.value| == |bytes| / 4
  {
    if |bytes| % 4 > 0 then Failure(InvalidLength(|bytes|)) else Success(WordsOf(bytes))
  }

  /** Decoding what was encoded gives back the same words. */
  lemma {:induction false} DeserializeSerialize(words: seq<Word>)
    ensures Deserialize(Serialize(words)) == Success(words)
  {
    WordsOfSerialize(words);
  }

  lemma {:induction false} WordsOfSerialize(words: seq<Word>)
    ensures |Serialize(words)| % 4 == 0
    ensures WordsOf(Serialize(words)) == words
  {
    var bytes := Serialize(words);
    if |words| > 0 {
      assert bytes == WordBytes(words[0]) + Serialize(words[1..]);
      assert bytes[..4] == WordBytes(words[0]);
      assert bytes[4..] == Serialize(words[1..]);
      WordOfWordBytes(words[0]);
      WordsOfSerialize(words[1..]);
    }
  }

  /** Encoding what was decoded gives back the same bytes. */
  lemma {:induction false} SerializeDeserialize(bytes: seq<Byte>)
    requires |bytes| % 4 == 0
    ensures Deserialize(bytes).Success?
    ensures Serialize(Deserialize(bytes).value) == bytes
  {
    SerializeWordsOf(bytes);
  }

  lemma {:induction false} SerializeWordsOf(bytes: seq<Byte>)
    requires |bytes| % 4 == 0
    ensures Serialize(WordsOf(bytes)) == bytes
    decreases |bytes|
  {
    if |bytes| > 0 {
      var words := WordsOf(bytes);
      assert words == [WordOf(bytes[..4])] + WordsOf(bytes[4..]);
      assert words[1..] == WordsOf(bytes[4..]);
      SerializeWordsOf(bytes[4..]);
      WordBytesWordOf(bytes[..4]);
      assert Serialize(words) == WordBytes(words[0]) + Serialize(words[1..]);
      assert bytes == bytes[..4] + bytes[4..];
    }
  }

  /** Decoding takes each group of four bytes to one word, in order. */
  lemma {:induction false} WordsOfChunk(bytes: seq<Byte>, i: nat)
    requires |bytes| % 4 == 0
    requires i < |bytes| / 4
    ensures WordsOf(bytes)[i] == WordOf(bytes[4 * i .. 4 * i + 4])
    decreases |bytes|
  {
    if i > 0 {
      WordsOfChunk(bytes[4..], i - 1);
      assert bytes[4..][4 * (i - 1) .. 4 * (i - 1) + 4] == bytes[4 * i .. 4 * i + 4];
    }
  }
}
