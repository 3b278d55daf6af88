/** Pipeline stages, the `Shader` capability and the bytecode-backed
    `SpirvShader` value of the shader crate. */
module Shaders {
  import opened Wrappers
  import SpirvCodec

  type Word = SpirvCodec.Word
  type Byte = SpirvCodec.Byte

  /** The single-stage values of `ShaderStageFlags` a shader set is keyed by.
      `Hull` and `Domain` are the tessellation control and evaluation stages. */
  datatype Stage = Vertex | Fragment | Geometry | Hull | Domain | Compute

  /** What the `Shader` trait offers its consumers: a fallible bytecode view,
      an entry-point name and a stage. `E` is the shader's own error type. */
  datatype ShaderSource<E> = ShaderSource(spirv: Result<seq<Word>, E>, entry: string, stage: Stage)

  /** A SPIR-V shader held as words, with its stage and entry point. */
  datatype SpirvShader = SpirvShader(spirv: seq<Word>, stage: Stage, entry: string)

  /** `SpirvShader::new`: the bytecode must not be empty (an assertion in the source). */
  function NewSpirvShader(spirv: seq<Word>, stage: Stage, entry: string): (s: SpirvShader)
    requires |spirv| > 0
    ensures |s.spirv| > 0
    ensures AsShader<()>(s) == ShaderSource(Success(spirv), entry, stage)
  {
    SpirvShader(spirv, stage, entry)
  }

  /** The `Shader` implementation of `SpirvShader`: the bytecode view never
      fails (its error type has no values), and the three accessors return the
      stored fields. */
  function AsShader<E>(s: SpirvShader): (src: ShaderSource<E>)
    ensures src.spirv.Success?
  {
    ShaderSource(Success(s.spirv), s.entry, s.stage)
  }

  // ---------------------------------------------------------------------------
  // Construction from bytes
  // ---------------------------------------------------------------------------

  /** Why a byte blob cannot become a shader. */
  datatype BytecodeError = EmptyBytecode | UnalignedBytecode(len: nat)

  /** The length check of the first `SpirvShader::from_bytes` exactly as written:
      `assert!(!bytes.is_empty())` then `assert_ne!(!bytes.len() % 4, 0)` on a
      64-bit `usize`. Rust's `!` is a bitwise complement and binds tighter than
      `%`, so only lengths congruent to 3 modulo 4 are refused. */
  function FromBytesAcceptsAsWritten(len: bv64): (accepted: bool)
    ensures accepted <==> len != 0 && len % 4 != 3
  {
    len != 0 && (!len) % 4 != 0
  }

  /** The room, in bytes, that `Vec::<u32>::with_capacity(len / 4)` gives the
      `copy_nonoverlapping` of all `len` bytes: whole words only. */
  function CopyRoom(len: bv64): (room: bv64)
    ensures room % 4 == 0
    ensures room <= len && len - room < 4
  {
    4 * (len / 4)
  }

  /** A length the as-written check lets through overruns the copy's room
      exactly when it is not a whole number of words, that is, when it is
      congruent to 1 or 2 modulo 4. */
  lemma FromBytesAsWrittenOverruns(len: bv64)
    requires FromBytesAcceptsAsWritten(len)
    ensures CopyRoom(len) < len <==> len % 4 == 1 || len % 4 == 2
  {
  }

  /** Five bytes pass the as-written check, yet the copy writes them into room
      for one word; the corrected `FromBytes` refuses them. */
  lemma FromBytesAsWrittenAdmitsFiveBytes(bytes: seq<Byte>, stage: Stage, entry: string)
    requires |bytes| == 5
    ensures FromBytesAcceptsAsWritten(5)
    ensures CopyRoom(5) == 4 < 5
    ensures FromBytes(bytes, stage, entry) == Failure(UnalignedBytecode(5))
  {
  }

  /** `SpirvShader::from_bytes` as documented: errors unless the blob is a
      non-empty whole number of words; otherwise the shader holds the decoded
      words, which encode back to the very same bytes. */
  function FromBytes(bytes: seq<Byte>, stage: Stage, entry: string): (r: Result<SpirvShader, BytecodeError>)
    ensures r.Success? <==> |bytes| > 0 && |bytes| % 4 == 0
    ensures |bytes| == 0 ==> r == Failure(EmptyBytecode)
    ensures r.Success? ==> r.value.stage == stage && r.value.entry == entry
    ensures r.Success? ==> |r.value.spirv| == |bytes| / 4 > 0
    ensures r.Success? ==> SpirvCodec.Serialize(r.value.spirv) == bytes
  {
    if |bytes| == 0 then Failure(EmptyBytecode)
    else match SpirvCodec.Deserialize(bytes)
      case Failure(_) => Failure(UnalignedBytecode(|bytes|))
      case Success(words) =>
        SpirvCodec.SerializeDeserialize(bytes);
        Success(NewSpirvShader(words, stage, entry))
  }
}
