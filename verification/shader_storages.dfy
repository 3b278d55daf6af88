/** `ShaderStorage`: one stage's bytecode, entry point and specialization,
    paired with the backend module once compiled. Its lifecycle is carried by
    the `shaderModule` field (the source's `module`) alone: `None` before `compile` and after `dispose`,
    `Some(handle)` in between. */
module ShaderStorages {
  import opened Wrappers
  import opened Shaders
  import opened Backend

  type Word = Shaders.Word

  /** One specialization constant: its id and the byte range of its value. */
  datatype SpecConstant = SpecConstant(id: bv32, start: nat, end: nat)

  /** Specialization constants and the bytes they are read from. */
  datatype Specialization = Specialization(constants: seq<SpecConstant>, data: seq<Shaders.Byte>)

  /** `Specialization::default()`: no constants, no data. */
  const DefaultSpecialization := Specialization([], [])

  datatype ShaderStorage = ShaderStorage(
    stage: Stage,
    spirv: seq<Word>,
    shaderModule: Option<Handle>,
    entrypoint: string,
    specialization: Option<Specialization>)

  /** What a pipeline needs of one stage: entry name, module, specialization. */
  datatype EntryPoint = EntryPoint(entry: string, shaderModule: Handle, specialization: Specialization)

  /** `get_entry_point` unwraps the module: on an uncompiled storage it panics. */
  datatype EntryPointError = ModuleNotLoaded(stage: Stage)

  predicate Loaded(s: ShaderStorage) {
    s.shaderModule.Some?
  }

  /** `get_entry_point`: the stored entry name, the compiled module and the
      stored specialization, or the default one when none was given. */
  function GetEntryPoint(s: ShaderStorage): (r: Result<EntryPoint, EntryPointError>)
    ensures r.Success? <==> Loaded(s)
    ensures r.Failure? ==> r.error == ModuleNotLoaded(s.stage)
    ensures r.Success? ==> s.shaderModule == Some(r.value.shaderModule)
    ensures r.Success? ==> r.value.entry == s.entrypoint
    ensures r.Success? && s.specialization.Some? ==> r.value.specialization == s.specialization.value
    ensures r.Success? && s.specialization.None? ==> r.value.specialization == DefaultSpecialization
  {
    match s.shaderModule
    case None => Failure(ModuleNotLoaded(s.stage))
    case Some(m) => Success(EntryPoint(s.entrypoint, m, s.specialization.GetOr(DefaultSpecialization)))
  }

  /** `compile`: asks the device for a module built from the stored bytecode
      and stores it. There is no check for an existing module: compiling a
      loaded storage replaces its handle without destroying the old one.
      On failure the storage and device are left as they were. */
  function Compile(s: ShaderStorage, d: Device, accepts: seq<Word> -> bool)
    : (r: Result<(ShaderStorage, Device), CreateError>)
    ensures r.Success? <==> accepts(s.spirv)
    ensures r.Success? ==> Loaded(r.value.0)
    ensures r.Success? ==> r.value.0.(shaderModule := s.shaderModule) == s
    ensures r.Success? ==> r.value.1.live == d.live + {r.value.0.shaderModule.value}
    ensures r.Success? && Valid(d) ==> r.value.0.shaderModule.value !in d.live && Valid(r.value.1)
  {
    match CreateShaderModule(d, s.spirv, accepts)
    case Failure(e) => Failure(e)
    case Success((d', h)) => Success((s.(shaderModule := Some(h)), d'))
  }

  /** The device may destroy whatever module the storage holds. */
  ghost predicate HeldBy(s: ShaderStorage, d: Device) {
    s.shaderModule.Some? ==> s.shaderModule.value in d.live
  }

  /** `dispose`: destroys the module if there is one; the storage ends up
      without a module either way, and an uncompiled storage is untouched. */
  function Dispose(s: ShaderStorage, d: Device): (r: (ShaderStorage, Device))
    requires HeldBy(s, d)
    ensures !Loaded(r.0)
    ensures r.0.(shaderModule := s.shaderModule) == s
    ensures s.shaderModule.Some? ==> r.1.live == d.live - {s.shaderModule.value}
    ensures s.shaderModule.None? ==> r == (s, d)
    ensures Valid(d) ==> Valid(r.1)
  {
    match s.shaderModule
    case Some(m) => (s.(shaderModule := None), DestroyShaderModule(d, m))
    case None => (s.(shaderModule := None), d)
  }

  /** After a successful compile the entry point is available and names the
      freshly created module. */
  lemma CompileThenEntryPoint(s: ShaderStorage, d: Device, accepts: seq<Word> -> bool)
    requires accepts(s.spirv)
    ensures Compile(s, d, accepts).Success?
    ensures var (s', d') := Compile(s, d, accepts).value;
            GetEntryPoint(s').Success? && GetEntryPoint(s').value.shaderModule in d'.live
            && (Valid(d) ==> GetEntryPoint(s').value.shaderModule !in d.live)
  {
  }

  /** After dispose the entry point is refused again. */
  lemma DisposeThenNoEntryPoint(s: ShaderStorage, d: Device)
    requires HeldBy(s, d)
    ensures GetEntryPoint(Dispose(s, d).0) == Failure(ModuleNotLoaded(s.stage))
  {
  }

  /** Disposing twice is the same as disposing once: no double free. */
  lemma DisposeIdempotent(s: ShaderStorage, d: Device)
    requires HeldBy(s, d)
    ensures var (s', d') := Dispose(s, d); HeldBy(s', d') && Dispose(s', d') == (s', d')
  {
  }

  /** Compile followed by dispose returns an uncompiled storage and the device
      to its former set of live modules. */
  lemma CompileDisposeRoundTrip(s: ShaderStorage, d: Device, accepts: seq<Word> -> bool)
    requires Valid(d) && !Loaded(s)
    requires accepts(s.spirv)
    ensures var (s', d') := Compile(s, d, accepts).value;
            HeldBy(s', d') && Dispose(s', d').0 == s && Dispose(s', d').1.live == d.live
  {
    var (s', d') := Compile(s, d, accepts).value;
    assert (d.live + {s'.shaderModule.value}) - {s'.shaderModule.value} == d.live;
  }

  /** Compiling an already compiled storage leaks its previous module: that
      handle stays live on the device but the storage no longer refers to it. */
  lemma RecompileLeaksModule(s: ShaderStorage, d: Device, accepts: seq<Word> -> bool)
    requires Valid(d) && Loaded(s) && HeldBy(s, d)
    requires accepts(s.spirv)
    ensures var (s', d') := Compile(s, d, accepts).value;
            s.shaderModule.value in d'.live && s'.shaderModule != s.shaderModule
  {
  }
}
