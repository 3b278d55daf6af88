# rendy shader sets, slice helpers and the meshes frame layout, in Dafny

This project models three parts of the rendy renderer.

- **The shader crate** (`shader/src/lib.rs`):
  - the `serde_spirv` byte codec for SPIR-V words;
  - `SpirvShader` and its view through the `Shader` trait;
  - `ShaderSetBuilder`, with its six optional `(bytecode, entry)` slots, `with_<stage>`, `build` and the precondition of `reflect`;
  - `ShaderStorage`, with `compile`, `get_entry_point` and `dispose`;
  - `ShaderSet`, with `load`, `raw` and `dispose`.
- **The util crate** (`util/src/lib.rs`):
  - `is_slice_sorted` and `is_slice_sorted_by_key`;
  - the byte casts `cast_slice`, `cast_vec` and `cast_cow`.
- **The meshes example** (`examples/src/meshes/main.rs`):
  - the per-frame layout of its one host-visible buffer (`buffer_frame_size`, `uniform_offset`, `models_offset`, `indirect_offset`, and the buffer size);
  - the copy of at most 32 lights into the uniform block;
  - the `MAX_OBJECTS` cap of the update closure.

Everything is immutable data and pure functions. The two methods are the loop of `is_slice_sorted_by_key` and its identity-key wrapper.

Modules, one per file:

| module | models |
|---|---|
| `Wrappers` | `Option` and `Result` |
| `Arithmetic` | one-step multiplication facts shared by the byte casts and the buffer layout |
| `SliceUtil` | `util/src/lib.rs` |
| `SpirvCodec` | `serde_spirv::serialize` / `from_bytes` |
| `Shaders` | `ShaderStageFlags` as a `Stage` enumeration, the `Shader` trait as a `ShaderSource` record, `SpirvShader` |
| `Backend` | the device calls `create_shader_module` / `destroy_shader_module` as an oracle |
| `ShaderStorages` | `ShaderStorage` |
| `ShaderSets` | `ShaderSet` and gfx-hal's `GraphicsShaderSet` |
| `ShaderSetBuilders` | `ShaderSetBuilder` and `SpecConstantSet` |
| `MeshFrames` | the meshes example |

Modelling choices:

- **Words and bytes.** A SPIR-V word is a `bv32` and a byte is a `bv8`. Section 2.3, "Physical Layout", of the SPIR-V specification defines a module as a stream of 32-bit words. The crate reinterprets memory in the host's byte order; the model fixes little-endian.
- **The device is an oracle.**
  - A `Device` is the set of live module handles plus the next handle to hand out.
  - Whether the device accepts a bytecode is a parameter `accepts: seq<Word> -> bool`.
  - Destroying a handle requires it to be live. Destroying it twice would be a double free.
- **Hash-map iteration order.** `load` and `dispose` walk a `HashMap` whose iteration order Rust does not fix. The order is a parameter `order: seq<Stage>` that lists every key once.
- **Panics.**
  - `expect` and `unwrap` in `raw` and `get_entry_point` panic in the source. Here they are `Failure` values that name the cause.
  - The `assert!(!spirv.is_empty())` of `SpirvShader::new` is a precondition.
- **`u64` arithmetic in the meshes example.**
  - Arithmetic is on `nat` with the wrap-around written out as `% 2^64`, which is the release-build behaviour.
  - Bitwise OR is defined on naturals bit by bit.
  - The struct sizes are parameters. `UNIFORM_SIZE` and `size_of::<Model>()` are positive. `INDIRECT_SIZE` is zero on the OpenGL backend.
  - `align` is `minUniformBufferOffsetAlignment`. The Vulkan specification (`VkPhysicalDeviceLimits`) requires it to be a power of two.

Where the code and its documentation differ, the model follows the code:

- `ShaderStorage::compile` does not refuse an already compiled storage. It overwrites the handle and leaks the old module (`ShaderStorages.RecompileLeaksModule`).
- `serde_spirv::from_bytes` accepts the empty byte string and returns no words.
- `ShaderSet::raw` panics, rather than reporting an error, when the vertex stage is missing or a present stage was never compiled.
- `raw` never looks at the compute stage.

## Model

| member | source | states |
|---|---|---|
| SliceUtil.IsSliceSortedByKey | util/src/lib.rs:28-41 | returns true exactly when no key is smaller than the one before it (equal keys allowed); for a total order, exactly when every pair i < j is in order; slices of length 0 or 1 are sorted |
| SliceUtil.IsSliceSorted | util/src/lib.rs:23-26 | the same verdict with the elements themselves as keys: adjacent pairs in order, and for a total order all pairs in order |
| SliceUtil.AdjacentIffSorted | util/src/lib.rs:29-41 | for a strict total order, checking adjacent pairs (what the loop does) decides sortedness of all pairs, both directions |
| SliceUtil.AdjacentInOrderSpan | util/src/lib.rs:32-38 | if every adjacent pair is in order, so is every pair i < j (induction on the distance) |
| SliceUtil.CastSlice | util/src/lib.rs:52-57 | the byte view has len × size_of::<T>() bytes and starts with the first element's bytes |
| SliceUtil.CastSliceChunk | util/src/lib.rs:52-57 | the i-th element's bytes sit at offset i × size of the byte view |
| SliceUtil.CastSliceAppend | util/src/lib.rs:52-57 | the byte view of a concatenation is the concatenation of the byte views |
| SliceUtil.CastVec | util/src/lib.rs:43-50 | cast_vec yields len × size bytes, and they are exactly the bytes cast_slice gives for the same elements |
| SliceUtil.CastCow | util/src/lib.rs:59-65 | the Borrowed/Owned variant is preserved; the bytes are len × size long and equal to the cast_slice bytes |
| SliceUtil.CastCowArmsAgree | util/src/lib.rs:59-65 | the borrowed and the owned arm produce the same bytes for the same elements |
| SpirvCodec.Serialize | shader/src/lib.rs:84-94 | the encoding has exactly 4 × word-count bytes, and bytes 4i..4i+4 are word i, least significant byte first |
| SpirvCodec.Deserialize | shader/src/lib.rs:98-114 | fails exactly when the length is not a multiple of 4, with an invalid-length error carrying the length; otherwise yields len / 4 words |
| SpirvCodec.DeserializeSerialize | shader/src/lib.rs:84-114 | decoding an encoding gives back the original words |
| SpirvCodec.SerializeDeserialize | shader/src/lib.rs:84-114 | every byte string of word-multiple length decodes, and re-encoding the result gives back the same bytes |
| SpirvCodec.WordsOfChunk | shader/src/lib.rs:107-110 | decoded word i is the word of bytes 4i..4i+4 |
| SpirvCodec.WordOfWordBytes | shader/src/lib.rs:91 | one word survives the trip through its four bytes |
| SpirvCodec.WordBytesWordOf | shader/src/lib.rs:109 | four bytes survive the trip through their word |
| Shaders.NewSpirvShader | shader/src/lib.rs:161-169 | needs non-empty bytecode; the shader's Shader view returns exactly the given words, entry and stage |
| Shaders.AsShader | shader/src/lib.rs:207-221 | the bytecode view of a SpirvShader never fails |
| Shaders.FromBytesAcceptsAsWritten | shader/src/lib.rs:172-174 | the length check as written accepts exactly the non-zero lengths not congruent to 3 modulo 4 |
| Shaders.FromBytesAsWrittenOverruns | shader/src/lib.rs:174-182 | among the lengths that check lets through, the copy of all `len` bytes exceeds the whole words of room `with_capacity(len / 4)` gives exactly when the length is congruent to 1 or 2 modulo 4 |
| Shaders.FromBytesAsWrittenAdmitsFiveBytes | shader/src/lib.rs:174-182 | five bytes pass that check although the copy has room for only four of them, and the corrected from_bytes refuses them |
| Shaders.FromBytes | shader/src/lib.rs:172-190 | succeeds exactly for non-empty, word-multiple byte strings (empty input has its own error); the shader keeps stage and entry, holds len / 4 words, and those words encode back to the input bytes: the first definition with its length check corrected |
| Backend.CreateShaderModule | shader/src/lib.rs:522 | succeeds exactly when the device accepts the bytecode; the new handle becomes live and, on a well-formed device, was not live before |
| Backend.DestroyShaderModule | shader/src/lib.rs:530 | needs a live handle, which is no longer live afterwards; nothing else changes |
| ShaderStorages.GetEntryPoint | shader/src/lib.rs:503-515 | available exactly when a module is compiled (otherwise the unwrap's panic); carries the stored entry name, the module, and the stored specialization or the default one |
| ShaderStorages.Compile | shader/src/lib.rs:517-524 | succeeds exactly when the device accepts the bytecode; only the module field changes; the new handle is live and fresh; on failure nothing changes |
| ShaderStorages.Dispose | shader/src/lib.rs:526-533 | the storage ends without a module and is otherwise unchanged; the held module, if any, is destroyed; an uncompiled storage and the device are left alone |
| ShaderStorages.CompileThenEntryPoint | shader/src/lib.rs:504-524 | after a successful compile the entry point exists and names the freshly created, live module |
| ShaderStorages.DisposeThenNoEntryPoint | shader/src/lib.rs:504-533 | after dispose the entry point is refused |
| ShaderStorages.DisposeIdempotent | shader/src/lib.rs:526-533 | disposing twice is disposing once: the second dispose changes nothing |
| ShaderStorages.CompileDisposeRoundTrip | shader/src/lib.rs:517-533 | compile then dispose restores the uncompiled storage and the device's live modules |
| ShaderStorages.RecompileLeaksModule | shader/src/lib.rs:517-524 | compiling a compiled storage leaves the old module live but no longer referenced |
| ShaderSets.Load | shader/src/lib.rs:231-241 | compiles stages in iteration order and stops at the first refusal; succeeds exactly when every visited stage is accepted; on success all visited stages are compiled; on failure the prefix before the refused stage is compiled and the rest is untouched; only module fields change; keeps the set consistent with the device; the device's live modules afterwards are the earlier ones plus the modules the visited storages hold, and every storage that changed holds a module the device did not have before, whether the load succeeded or stopped early |
| ShaderSets.LoadStepDevice | shader/src/lib.rs:236-238 | the module created for the first stage joins the modules created for the rest, and each stored module is new to the device |
| ShaderSets.LoadStep | shader/src/lib.rs:236-238 | one successful compile followed by loading the rest gives load's full contract for the whole order |
| ShaderSets.LoadStepStopped | shader/src/lib.rs:236-238 | a stop inside the rest of the order is a stop one position later in the whole order |
| ShaderSets.CompileKeepsConsistent | shader/src/lib.rs:237 | storing a freshly compiled module keeps every module live and no module shared |
| ShaderSets.Dispose | shader/src/lib.rs:271-276 | every visited stage ends uncompiled; exactly the modules they held are destroyed; only module fields change |
| ShaderSets.DisposeStep | shader/src/lib.rs:273-275 | one storage's dispose followed by disposing the rest gives dispose's full contract |
| ShaderSets.DisposeKeepsConsistent | shader/src/lib.rs:274 | disposing one storage keeps the rest of the set's modules live |
| ShaderSets.DisposeUnloadedIsNoOp | shader/src/lib.rs:271-276 | disposing a set with nothing compiled changes neither the set nor the device |
| ShaderSets.OptionalEntry | shader/src/lib.rs:252-267 | an optional field is None exactly when its stage is absent, the stage's entry point when it is compiled, and the unwrap's failure otherwise |
| ShaderSets.Raw | shader/src/lib.rs:243-269 | fails with a missing-vertex error exactly when there is no vertex stage; succeeds exactly when every present graphics stage is compiled; the first uncompiled stage in vertex, fragment, domain, hull, geometry order is reported; each optional field is None exactly when its stage is absent |
| ShaderSets.LoadSuccessLoadsAll | shader/src/lib.rs:231-241 | load over a full iteration order succeeds exactly when the device accepts every stage, and then every storage is compiled |
| ShaderSets.DisposeReleasesAll | shader/src/lib.rs:271-276 | dispose over a full iteration order leaves nothing compiled and every module the set held is destroyed |
| ShaderSets.LoadDisposeRoundTrip | shader/src/lib.rs:231-276 | on a set with nothing compiled, load followed by dispose, after a successful or a stopped load, leaves the device with exactly the modules it had before: every module the load created is destroyed |
| ShaderSets.DisposeTwiceIsHarmless | shader/src/lib.rs:271-276 | a second dispose changes nothing: no module is destroyed twice |
| ShaderSets.RawBeforeLoadFails | shader/src/lib.rs:244-251 | raw on a set whose vertex stage is not compiled fails on the vertex stage |
| ShaderSets.LoadThenRaw | shader/src/lib.rs:231-269 | after a successful load, raw succeeds exactly when there is a vertex stage, and the fragment field is None exactly when there is no fragment stage |
| ShaderSets.RawAfterDisposeFails | shader/src/lib.rs:244-276 | after dispose, raw fails on the vertex stage again |
| ShaderSets.RawIgnoresCompute | shader/src/lib.rs:244-269 | adding, replacing or removing the compute stage never changes raw |
| ShaderSets.RawSeesGraphicsOnly | shader/src/lib.rs:244-269 | two sets that agree on all graphics stages give the same raw |
| ShaderSetBuilders.WithVertex | shader/src/lib.rs:411-417 | passes the shader's bytecode error on; otherwise sets the vertex slot to (words, entry), whatever it held, and leaves the other five slots unchanged |
| ShaderSetBuilders.WithFragment | shader/src/lib.rs:419-425 | the same for the fragment slot |
| ShaderSetBuilders.WithGeometry | shader/src/lib.rs:427-433 | the same for the geometry slot |
| ShaderSetBuilders.WithHull | shader/src/lib.rs:435-441 | the same for the hull slot |
| ShaderSetBuilders.WithDomain | shader/src/lib.rs:443-449 | the same for the domain slot |
| ShaderSetBuilders.WithCompute | shader/src/lib.rs:451-458 | the same for the compute slot |
| ShaderSetBuilders.WithSpirvShaderSucceeds | shader/src/lib.rs:411-458 | adding a SpirvShader through any of the six with_<stage> calls never fails and fills exactly that slot |
| ShaderSetBuilders.WithVertexOverwrites | shader/src/lib.rs:413-417 | adding a vertex shader twice keeps only the second |
| ShaderSetBuilders.CreateStorage | shader/src/lib.rs:330-340 | a storage made for a slot has no module |
| ShaderSetBuilders.InsertSlot | shader/src/lib.rs:342-351 | inserting a populated slot adds its stage with the storage for that slot and leaves other stages unchanged; an empty slot changes nothing |
| ShaderSetBuilders.InsertSlots | shader/src/lib.rs:342-406 | after the insertions the keys are the earlier keys plus the populated listed stages, each holding the storage built from its own slot |
| ShaderSetBuilders.Build | shader/src/lib.rs:318-409 | fails exactly when neither the vertex nor the compute slot is populated; otherwise the set's keys are exactly the populated slots, and each storage has its stage, its slot's words and entry, no module, and the same-named specialization |
| ShaderSetBuilders.ReflectInputs | shader/src/lib.rs:463-487 | fails exactly when neither the vertex nor the compute slot is populated; otherwise its i-th input is the bytecode of the i-th populated stage in reflect's visiting order, and the vertex bytecode comes first when present |
| ShaderSetBuilders.Populated | shader/src/lib.rs:470-487 | the populated stages of a stage list are exactly those of its stages whose slot is set, no more of them than listed, and without repeats when the list has none |
| ShaderSetBuilders.PopulatedReflectOrder | shader/src/lib.rs:470-487 | the populated stages in reflect's order are the vertex, fragment, hull, domain, compute and geometry stages, each kept exactly when its slot is set, in that order |
| ShaderSetBuilders.StagesSpirvOfPopulated | shader/src/lib.rs:470-487 | visiting the slots of a stage list one `if let` after another yields, position by position, the bytecode of the populated stages |
| ShaderSetBuilders.ReflectInputsInSourceOrder | shader/src/lib.rs:470-487 | the inputs reflect merges are the vertex, fragment, hull, domain, compute and geometry bytecode, each present slot exactly once and in that order |
| ShaderSetBuilders.BuildAndReflectAgree | shader/src/lib.rs:325-328 | build and reflect refuse exactly the same builders, whatever the other four slots hold |
| ShaderSetBuilders.BuildIsUnloaded | shader/src/lib.rs:318-409 | a built set has nothing compiled, each storage is keyed by its own stage, and the set is consistent with any device |
| ShaderSetBuilders.BuildWithVertexThenRaw | shader/src/lib.rs:244-251 | a builder with a vertex shader builds, and raw on the result fails until load |
| ShaderSetBuilders.FragmentOnlyIsRefused | shader/src/lib.rs:299-328 | a default builder given only a fragment shader is refused by build with the missing vertex-or-compute error, and by reflect too |
| ShaderSetBuilders.BuildLoadRaw | shader/src/lib.rs:231-409 | built and loaded on an accepting device, raw succeeds; its vertex entry carries the vertex slot's entry and specialization, and the fragment field is present exactly when the fragment slot was filled |
| MeshFrames.BufferFrameSize | examples/src/meshes/main.rs:115-117 | for a power-of-two align the frame size is a u64 multiple of align; when no wrap occurs it is at least the content size and less than content plus align |
| MeshFrames.RoundUp | examples/src/meshes/main.rs:116 | ((x) OR (align - 1)) + 1 lies in (x, x + align] and stays a multiple of align after the u64 reduction |
| MeshFrames.AlignedRoundUp | examples/src/meshes/main.rs:116 | the round-up is a multiple j × align of the alignment, no larger than 2^64, in (x, x + align] |
| MeshFrames.OrLowMask | examples/src/meshes/main.rs:116 | OR-ing with align - 1 gives one below a multiple of align, inside [x, x + align) |
| MeshFrames.AlignDividesU64 | examples/src/meshes/main.rs:226-229 | a power-of-two alignment below 2^64 divides 2^64 |
| MeshFrames.UniformOffset | examples/src/meshes/main.rs:119-121 | every frame's uniform offset is a u64 and a multiple of align, even when the product wraps, as its use as a descriptor offset needs; without a wrap it is frame size × index |
| MeshFrames.ModelsOffset | examples/src/meshes/main.rs:123-125 | the models offset is a u64; when frame size × index + UNIFORM_SIZE does not wrap it is exactly that, the end of the frame's uniform block |
| MeshFrames.IndirectOffset | examples/src/meshes/main.rs:127-131 | the indirect offset is a u64; when frame size × index + UNIFORM_SIZE + MODELS_SIZE does not wrap it is exactly that, the end of the frame's model matrices |
| MeshFrames.BufferSize | examples/src/meshes/main.rs:225-236 | the buffer size is a u64 multiple of align, even when the product wraps; without a wrap it is exactly frames × frame size |
| MeshFrames.FrameRegionsInsideBuffer | examples/src/meshes/main.rs:119-131 | with no overflow, frame index < frames has uniform, models and indirect regions in that order at the plain sums, ending at or before the next frame's start, inside the buffer of size frame size × frames |
| MeshFrames.SliceLayout | examples/src/meshes/main.rs:119-131 | slice index of frames equal slices holds its three regions in order without wrap-around |
| MeshFrames.LightsArray | examples/src/meshes/main.rs:307-315 | the light array has MAX_LIGHTS entries: the first min(len, 32) scene lights, then zeroed lights; nothing beyond the array is written |
| MeshFrames.LightsCount | examples/src/meshes/main.rs:306 | lights_count is the light count cast to i32: it lies in the i32 range, differs from the count by a multiple of 2^32, and equals it below 2^31 |
| MeshFrames.LightsCountNotClamped | examples/src/meshes/main.rs:306-315 | with more than MAX_LIGHTS lights the reported count exceeds the lights actually copied |
| MeshFrames.AddObject | examples/src/meshes/main.rs:521-535 | adds the object and reports true exactly when fewer than MAX_OBJECTS exist; otherwise the list is unchanged and false is reported |
| MeshFrames.AddObjects | examples/src/meshes/main.rs:521-535 | running the closure repeatedly keeps the existing objects as a prefix and never lifts the count above MAX_OBJECTS |
| MeshFrames.AddObjectsCount | examples/src/meshes/main.rs:522-525 | from a list within the cap, n runs end with min(len + n, MAX_OBJECTS) objects |
| MeshFrames.ObjectsBounded | examples/src/meshes/main.rs:522-535 | from no objects, n runs of the closure give min(n, MAX_OBJECTS) objects |
| MeshFrames.ObjectUploadInsideModelsRegion | examples/src/meshes/main.rs:340-350 | the model matrices uploaded at models_offset end at or before the same frame's indirect command |

## Left out

- Device calls: the real `create_shader_module` and `destroy_shader_module` are replaced by the `Backend` oracle.
- `Shader::module` (shader/src/lib.rs:61-69) is not modelled: it is only a device call.
- The reflection merge (`SpirvReflection::reflect`, `reflect::merge`, `compile_cache`) lives in a module that is not part of this model. `ShaderSetBuilders.ReflectInputs` keeps only the vertex-or-compute precondition and the order in which reflect visits the slots.
- The second `SpirvShader::from_bytes` (shader/src/lib.rs:194-204) delegates to `gfx_hal::pso::read_spirv`, which is not part of this model. `Shaders.FromBytes` follows its documented contract: a length that is not a multiple of 4 is an error.
- Serde plumbing (visitor, `Serializer`/`Deserializer`) is left out, and so is the host byte order: the codec fixes little-endian.
- The `shaderc` compiler module and `rendy/examples/triangle/main.rs` are not part of this model.
- The meshes example's float math, camera, light values, mesh generation, random numbers, descriptor writes and draw encoding are left out.
- `ShaderStageFlags` is a bit set in gfx-hal. The model only has its six single-stage values.
- `SliceUtil.CastVec`: the capacity of the returned vector (size × capacity) is not modelled, because sequences have no capacity.
- `MeshFrames.BufferFrameSize`: a debug build panics on `u64` overflow, but the model wraps, as a release build does.
- `MeshFrames.ObjectUploadInsideModelsRegion`: `size_of::<Model>()` is taken to be the size of one uploaded object, because the `Model` type is not part of this model.
- `ShaderSetBuilders.Build`: in shader/src/lib.rs the `create_storage` closure opened at line 330 is never closed: there is no `Ok(storage)` and no `};` before the inserts at lines 342-406. The model reads the closure as ending with `Ok(storage)` right after the struct literal (`CreateStorage`), so each `create_storage(...)?` at lines 349, 360, 371, 382, 393 and 404 never fails, and `build` fails only on a builder with neither vertex nor compute shader.
- `Shaders.FromBytes`: the first definition (shader/src/lib.rs:172-190) panics through its `assert!`s on an empty input and on lengths congruent to 3 modulo 4, while lengths congruent to 1 or 2 pass its check and overrun the copy (see "## Findings"); for all of these the model returns `EmptyBytecode` or `UnalignedBytecode` instead, as the `io::Result` of the second definition does. The second definition's `read_spirv` is not part of this model: its decoding is assumed to be the little-endian word codec of `SpirvCodec`, and its empty case is `EmptyBytecode` rather than whatever `read_spirv` or the `assert!` of `SpirvShader::new` would do.
- `ShaderSets.Load`: a hash map's iteration order is a parameter, so the contract holds for every order rather than for the one the map happens to use.

## Findings

| source | as written | input that shows it | evidently intended | confidence | as-written member | corrected member |
|---|---|---|---|---|---|---|
| shader/src/lib.rs:174 | `assert_ne!(!bytes.len() % 4, 0)`: the bitwise `!` applies to the length before `% 4`, so only lengths congruent to 3 modulo 4 are refused | a 5-byte input passes; the copy then writes 5 bytes into a vector with room for 1 word | refuse every length that is not a multiple of 4, as the second definition's documentation says | not executed | Shaders.FromBytesAcceptsAsWritten, Shaders.FromBytesAsWrittenOverruns, Shaders.FromBytesAsWrittenAdmitsFiveBytes | Shaders.FromBytes |
