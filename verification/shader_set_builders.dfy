/** `ShaderSetBuilder`: six optional `(bytecode, entry)` slots filled one
    stage at a time, then turned into a `ShaderSet` of uncompiled storages. */
module ShaderSetBuilders {
  import opened Wrappers
  import opened Shaders
  import opened ShaderStorages
  import opened ShaderSets

  type Word = Shaders.Word

  /** One populated slot: the bytecode copied out of a shader and its entry name. */
  datatype Slot = Slot(spirv: seq<Word>, entry: string)

  datatype ShaderSetBuilder = ShaderSetBuilder(
    vertex: Option<Slot>,
    fragment: Option<Slot>,
    geometry: Option<Slot>,
    hull: Option<Slot>,
    domain: Option<Slot>,
    compute: Option<Slot>)

  /** `ShaderSetBuilder::default()`: every slot empty. */
  const EmptyBuilder := ShaderSetBuilder(None, None, None, None, None, None)

  /** The slot the builder keeps for `stage`. */
  function SlotOf(b: ShaderSetBuilder, stage: Stage): Option<Slot> {
    match stage
    case Vertex => b.vertex
    case Fragment => b.fragment
    case Geometry => b.geometry
    case Hull => b.hull
    case Domain => b.domain
    case Compute => b.compute
  }

  /** `SpecConstantSet`: an optional specialization per stage. */
  datatype SpecConstantSet = SpecConstantSet(
    vertex: Option<Specialization>,
    fragment: Option<Specialization>,
    geometry: Option<Specialization>,
    hull: Option<Specialization>,
    domain: Option<Specialization>,
    compute: Option<Specialization>)

  /** The specialization field named after `stage`. */
  function SpecOf(c: SpecConstantSet, stage: Stage): Option<Specialization> {
    match stage
    case Vertex => c.vertex
    case Fragment => c.fragment
    case Geometry => c.geometry
    case Hull => c.hull
    case Domain => c.domain
    case Compute => c.compute
  }

  // ---------------------------------------------------------------------------
  // with_<stage>
  // ---------------------------------------------------------------------------

  /** The contract shared by the six `with_<stage>` operations: the shader's
      bytecode error is passed on unchanged; otherwise `stage`'s slot holds the
      shader's bytecode and entry (whatever was there before, and whatever
      stage the shader itself reports) and the other five slots are untouched. */
  ghost predicate SetsOnlySlot<E>(b: ShaderSetBuilder, stage: Stage, shader: ShaderSource<E>,
                                  r: Result<ShaderSetBuilder, E>) {
    && (r.Failure? <==> shader.spirv.Failure?)
    && (r.Failure? ==> r.error == shader.spirv.error)
    && (r.Success? ==> SlotOf(r.value, stage) == Some(Slot(shader.spirv.value, shader.entry)))
    && (r.Success? ==> forall other :: other != stage ==> SlotOf(r.value, other) == SlotOf(b, other))
  }

  /** `with_vertex`. */
  function WithVertex<E>(b: ShaderSetBuilder, shader: ShaderSource<E>): (r: Result<ShaderSetBuilder, E>)
    ensures SetsOnlySlot(b, Vertex, shader, r)
  {
    var data :- shader.spirv;
    Success(b.(vertex := Some(Slot(data, shader.entry))))
  }

  /** `with_fragment`. */
  function WithFragment<E>(b: ShaderSetBuilder, shader: ShaderSource<E>): (r: Result<ShaderSetBuilder, E>)
    ensures SetsOnlySlot(b, Fragment, shader, r)
  {
    var data :- shader.spirv;
    Success(b.(fragment := Some(Slot(data, shader.entry))))
  }

  /** `with_geometry`. */
  function WithGeometry<E>(b: ShaderSetBuilder, shader: ShaderSource<E>): (r: Result<ShaderSetBuilder, E>)
    ensures SetsOnlySlot(b, Geometry, shader, r)
  {
    var data :- shader.spirv;
    Success(b.(geometry := Some(Slot(data, shader.entry))))
  }

  /** `with_hull`. */
  function WithHull<E>(b: ShaderSetBuilder, shader: ShaderSource<E>): (r: Result<ShaderSetBuilder, E>)
    ensures SetsOnlySlot(b, Hull, shader, r)
  {
    var data :- shader.spirv;
    Success(b.(hull := Some(Slot(data, shader.entry))))
  }

  /** `with_domain`. */
  function WithDomain<E>(b: ShaderSetBuilder, shader: ShaderSource<E>): (r: Result<ShaderSetBuilder, E>)
    ensures SetsOnlySlot(b, Domain, shader, r)
  {
    var data :- shader.spirv;
    Success(b.(domain := Some(Slot(data, shader.entry))))
  }

  /** `with_compute`. */
  function WithCompute<E>(b: ShaderSetBuilder, shader: ShaderSource<E>): (r: Result<ShaderSetBuilder, E>)
    ensures SetsOnlySlot(b, Compute, shader, r)
  {
    var data :- shader.spirv;
    Success(b.(compute := Some(Slot(data, shader.entry))))
  }

  /** A `SpirvShader` can always be added: its bytecode view never fails. */
  lemma WithSpirvShaderSucceeds<E>(b: ShaderSetBuilder, s: SpirvShader)
    ensures WithVertex<E>(b, AsShader(s)) == Success(b.(vertex := Some(Slot(s.spirv, s.entry))))
    ensures WithFragment<E>(b, AsShader(s)) == Success(b.(fragment := Some(Slot(s.spirv, s.entry))))
    ensures WithGeometry<E>(b, AsShader(s)) == Success(b.(geometry := Some(Slot(s.spirv, s.entry))))
    ensures WithHull<E>(b, AsShader(s)) == Success(b.(hull := Some(Slot(s.spirv, s.entry))))
    ensures WithDomain<E>(b, AsShader(s)) == Success(b.(domain := Some(Slot(s.spirv, s.entry))))
    ensures WithCompute<E>(b, AsShader(s)) == Success(b.(compute := Some(Slot(s.spirv, s.entry))))
  {
  }

  /** Adding the same stage twice keeps only the second shader. */
  lemma WithVertexOverwrites<E>(b: ShaderSetBuilder, first: ShaderSource<E>, second: ShaderSource<E>)
    requires first.spirv.Success?
    ensures WithVertex(b, first).Success?
    ensures WithVertex(WithVertex(b, first).value, second) == WithVertex(b, second)
  {
  }

  // ---------------------------------------------------------------------------
  // build and the reflection precondition
  // ---------------------------------------------------------------------------

  /** What `build` and `reflect` report when neither vertex nor compute is present. */
  datatype BuildError = MissingVertexOrCompute

  /** The precondition shared by `build` and `reflect`. */
  predicate HasVertexOrCompute(b: ShaderSetBuilder) {
    b.vertex.Some? || b.compute.Some?
  }

  /** The `create_storage` closure: an uncompiled storage for one slot. */
  function CreateStorage(stage: Stage, slot: Slot, spec: Option<Specialization>): (s: ShaderStorage)
    ensures !Loaded(s)
  {
    ShaderStorage(stage, slot.spirv, None, slot.entry, spec)
  }

  /** The storage `build` creates for a populated slot. */
  ghost predicate StorageFromSlot(s: ShaderStorage, stage: Stage, slot: Slot, spec: Option<Specialization>) {
    && s.stage == stage
    && s.spirv == slot.spirv
    && s.entrypoint == slot.entry
    && s.shaderModule.None?
    && s.specialization == spec
  }

  /** One `if let Some(shader) = self.<stage>.clone()` step of `build`. */
  function InsertSlot(shaders: ShaderSet, stage: Stage, slot: Option<Slot>, spec: Option<Specialization>): (r: ShaderSet)
    ensures forall st :: st in r <==> st in shaders || (st == stage && slot.Some?)
    ensures forall st :: st in shaders && st != stage ==> r[st] == shaders[st]
    ensures slot.Some? ==> StorageFromSlot(r[stage], stage, slot.value, spec)
  {
    match slot
    case None => shaders
    case Some(s) => shaders[stage := CreateStorage(stage, s, spec)]
  }

  /** The order in which `build` inserts the populated slots. */
  const BuildOrder: seq<Stage> := [Vertex, Fragment, Compute, Domain, Hull, Geometry]

  /** Inserts, for each of `stages` in turn, its slot if populated. */
  function InsertSlots(shaders: ShaderSet, stages: seq<Stage>, b: ShaderSetBuilder, spec: SpecConstantSet): (r: ShaderSet)
    ensures forall st :: st in r <==> st in shaders || (st in stages && SlotOf(b, st).Some?)
    ensures forall st :: st in shaders && st !in stages ==> r[st] == shaders[st]
    ensures forall st :: st in stages && SlotOf(b, st).Some? ==>
              StorageFromSlot(r[st], st, SlotOf(b, st).value, SpecOf(spec, st))
    decreases |stages|
  {
    if |stages| == 0 then shaders
    else
      var st := stages[0];
      var r := InsertSlots(InsertSlot(shaders, st, SlotOf(b, st), SpecOf(spec, st)), stages[1..], b, spec);
      assert forall x :: x in stages ==> x == st || x in stages[1..];
      r
  }

  lemma BuildOrderListsAll()
    ensures forall st :: st in BuildOrder
  {
    forall st ensures st in BuildOrder {
      match st
      case Vertex => assert BuildOrder[0] == st;
      case Fragment => assert BuildOrder[1] == st;
      case Compute => assert BuildOrder[2] == st;
      case Domain => assert BuildOrder[3] == st;
      case Hull => assert BuildOrder[4] == st;
      case Geometry => assert BuildOrder[5] == st;
    }
  }

  /** `build`: refuses a builder with neither vertex nor compute shader;
      otherwise one uncompiled storage per populated slot, keyed by its stage,
      with the specialization of the same-named field. */
  function Build(b: ShaderSetBuilder, spec: SpecConstantSet): (r: Result<ShaderSet, BuildError>)
    ensures r.Failure? <==> !HasVertexOrCompute(b)
    ensures r.Failure? ==> r.error == MissingVertexOrCompute
    ensures r.Success? ==> forall st :: st in r.value <==> SlotOf(b, st).Some?
    ensures r.Success? ==> forall st :: st in r.value ==>
              StorageFromSlot(r.value[st], st, SlotOf(b, st).value, SpecOf(spec, st))
  {
    if b.vertex.None? && b.compute.None? then Failure(MissingVertexOrCompute)
    else
      BuildOrderListsAll();
      Success(InsertSlots(map[], BuildOrder, b, spec))
  }

  /** The order in which `reflect` visits the populated slots. */
  const ReflectOrder: seq<Stage> := [Vertex, Fragment, Hull, Domain, Compute, Geometry]

  /** The populated stages among `stages`, in order. */
  function Populated(b: ShaderSetBuilder, stages: seq<Stage>): (r: seq<Stage>)
    ensures forall st :: st in r <==> st in stages && SlotOf(b, st).Some?
    ensures |r| <= |stages|
    ensures NoDuplicates(stages) ==> NoDuplicates(r)
  {
    if |stages| == 0 then []
    else
      assert NoDuplicates(stages) ==> stages[0] !in stages[1..];
      (if SlotOf(b, stages[0]).Some? then [stages[0]] else []) + Populated(b, stages[1..])
  }

  /** The bytecode of one slot, as a list of zero or one entries. */
  function SlotSpirv(slot: Option<Slot>): seq<seq<Word>> {
    if slot.Some? then [slot.value.spirv] else []
  }

  /** The bytecode of the slots of `stages`, visited one after another, each
      populated slot contributing its bytecode and an empty one nothing. */
  function StagesSpirv(b: ShaderSetBuilder, stages: seq<Stage>): seq<seq<Word>> {
    if |stages| == 0 then [] else SlotSpirv(SlotOf(b, stages[0])) + StagesSpirv(b, stages[1..])
  }

  lemma {:induction false} StagesSpirvLength(b: ShaderSetBuilder, stages: seq<Stage>)
    ensures |StagesSpirv(b, stages)| == |Populated(b, stages)|
    decreases |stages|
  {
    if |stages| > 0 {
      StagesSpirvLength(b, stages[1..]);
    }
  }

  lemma {:induction false} StagesSpirvAt(b: ShaderSetBuilder, stages: seq<Stage>, i: nat)
    requires i < |StagesSpirv(b, stages)|
    ensures |StagesSpirv(b, stages)| == |Populated(b, stages)|
    ensures StagesSpirv(b, stages)[i] == SlotOf(b, Populated(b, stages)[i]).value.spirv
    decreases |stages|
  {
    StagesSpirvLength(b, stages);
    var rest := stages[1..];
    var head := SlotOf(b, stages[0]);
    assert StagesSpirv(b, stages) == SlotSpirv(head) + StagesSpirv(b, rest);
    assert Populated(b, stages) == (if head.Some? then [stages[0]] else []) + Populated(b, rest);
    if head.Some? && i > 0 {
      StagesSpirvAt(b, rest, i - 1);
    } else if head.None? {
      StagesSpirvAt(b, rest, i);
    }
  }

  /** Visiting the slots of `stages` yields, position by position, the
      bytecode of the populated stages among them. */
  lemma StagesSpirvOfPopulated(b: ShaderSetBuilder, stages: seq<Stage>)
    ensures |StagesSpirv(b, stages)| == |Populated(b, stages)|
    ensures forall i :: 0 <= i < |StagesSpirv(b, stages)| ==>
              StagesSpirv(b, stages)[i] == SlotOf(b, Populated(b, stages)[i]).value.spirv
  {
    StagesSpirvLength(b, stages);
    forall i | 0 <= i < |StagesSpirv(b, stages)|
      ensures StagesSpirv(b, stages)[i] == SlotOf(b, Populated(b, stages)[i]).value.spirv
    {
      StagesSpirvAt(b, stages, i);
    }
  }

  /** The part of `reflect` before the merge: refuses a builder with neither
      vertex nor compute shader, otherwise lists the bytecode of every
      populated slot, each once, in the order vertex, fragment, hull, domain,
      compute, geometry. */
  function ReflectInputs(b: ShaderSetBuilder): (r: Result<seq<seq<Word>>, BuildError>)
    ensures r.Failure? <==> !HasVertexOrCompute(b)
    ensures r.Success? ==> |r.value| == |Populated(b, ReflectOrder)|
    ensures r.Success? ==> forall i :: 0 <= i < |r.value| ==>
              r.value[i] == SlotOf(b, Populated(b, ReflectOrder)[i]).value.spirv
    ensures r.Success? && b.vertex.Some? ==> r.value[0] == b.vertex.value.spirv
  {
    if !HasVertexOrCompute(b) then Failure(MissingVertexOrCompute)
    else
      StagesSpirvOfPopulated(b, ReflectOrder);
      Success(StagesSpirv(b, ReflectOrder))
  }

  /** `stage` if its slot is populated, as a list of zero or one stages. */
  function PopulatedOne(b: ShaderSetBuilder, stage: Stage): seq<Stage> {
    if SlotOf(b, stage).Some? then [stage] else []
  }

  lemma PopulatedCons(b: ShaderSetBuilder, stage: Stage, rest: seq<Stage>)
    ensures Populated(b, [stage] + rest) == PopulatedOne(b, stage) + Populated(b, rest)
  {
    assert ([stage] + rest)[1..] == rest;
  }

  /** The populated stages in `reflect`'s order, slot by slot. */
  lemma PopulatedReflectOrder(b: ShaderSetBuilder)
    ensures Populated(b, ReflectOrder)
              == PopulatedOne(b, Vertex) + (PopulatedOne(b, Fragment) + (PopulatedOne(b, Hull)
                 + (PopulatedOne(b, Domain) + (PopulatedOne(b, Compute) + PopulatedOne(b, Geometry)))))
  {
    assert ReflectOrder == [Vertex] + ([Fragment] + ([Hull] + ([Domain] + ([Compute] + [Geometry]))));
    PopulatedCons(b, Vertex, [Fragment] + ([Hull] + ([Domain] + ([Compute] + [Geometry]))));
    PopulatedCons(b, Fragment, [Hull] + ([Domain] + ([Compute] + [Geometry])));
    PopulatedCons(b, Hull, [Domain] + ([Compute] + [Geometry]));
    PopulatedCons(b, Domain, [Compute] + [Geometry]);
    PopulatedCons(b, Compute, [Geometry]);
    PopulatedCons(b, Geometry, []);
    assert PopulatedOne(b, Geometry) + [] == PopulatedOne(b, Geometry);
  }

  lemma StagesSpirvCons(b: ShaderSetBuilder, stage: Stage, rest: seq<Stage>)
    ensures StagesSpirv(b, [stage] + rest) == SlotSpirv(SlotOf(b, stage)) + StagesSpirv(b, rest)
  {
    assert ([stage] + rest)[1..] == rest;
  }

  /** `reflect` visits the slots one `if let` after another: the inputs it
      reflects are the vertex, fragment, hull, domain, compute and geometry
      bytecode, each present slot exactly once and in that order. */
  lemma ReflectInputsInSourceOrder(b: ShaderSetBuilder)
    requires HasVertexOrCompute(b)
    ensures ReflectInputs(b) == Success(SlotSpirv(b.vertex) + (SlotSpirv(b.fragment) + (SlotSpirv(b.hull)
                                         + (SlotSpirv(b.domain) + (SlotSpirv(b.compute) + SlotSpirv(b.geometry))))))
  {
    assert ReflectOrder == [Vertex] + ([Fragment] + ([Hull] + ([Domain] + ([Compute] + [Geometry]))));
    StagesSpirvCons(b, Vertex, [Fragment] + ([Hull] + ([Domain] + ([Compute] + [Geometry]))));
    StagesSpirvCons(b, Fragment, [Hull] + ([Domain] + ([Compute] + [Geometry])));
    StagesSpirvCons(b, Hull, [Domain] + ([Compute] + [Geometry]));
    StagesSpirvCons(b, Domain, [Compute] + [Geometry]);
    StagesSpirvCons(b, Compute, [Geometry]);
    StagesSpirvCons(b, Geometry, []);
    assert SlotSpirv(b.geometry) + [] == SlotSpirv(b.geometry);
  }

  /** `build` and `reflect` accept exactly the same builders, whatever the
      slots other than vertex and compute hold. */
  lemma BuildAndReflectAgree(b: ShaderSetBuilder, spec: SpecConstantSet)
    ensures Build(b, spec).Failure? <==> ReflectInputs(b).Failure?
    ensures Build(b, spec).Failure? <==> b.vertex.None? && b.compute.None?
  {
  }

  /** A built set has no compiled module, each storage is keyed by its own
      stage, and the set is consistent with every device. */
  lemma BuildIsUnloaded(b: ShaderSetBuilder, spec: SpecConstantSet, d: Backend.Device)
    requires Build(b, spec).Success?
    ensures var shaders := Build(b, spec).value;
            (forall st :: st in shaders ==> !Loaded(shaders[st]) && shaders[st].stage == st)
            && Consistent(shaders, d)
  {
  }

  /** A builder with a vertex shader builds; before `load` its `raw` fails
      because the vertex module is not compiled. */
  lemma BuildWithVertexThenRaw(b: ShaderSetBuilder, spec: SpecConstantSet)
    requires b.vertex.Some?
    ensures Build(b, spec).Success?
    ensures Raw(Build(b, spec).value) == Failure(StageNotLoaded(Vertex))
  {
  }

  /** A default builder given only a fragment shader is refused by both
      `build` and `reflect`: neither a vertex nor a compute shader is present. */
  lemma FragmentOnlyIsRefused<E>(s: SpirvShader, spec: SpecConstantSet)
    ensures WithFragment<E>(EmptyBuilder, AsShader(s)).Success?
    ensures var b := WithFragment<E>(EmptyBuilder, AsShader(s)).value;
            Build(b, spec) == Failure(MissingVertexOrCompute) && ReflectInputs(b).Failure?
  {
  }

  /** The whole pipeline: a builder with a vertex shader, built, loaded on a
      device that accepts every slot's bytecode, yields a `raw` bundle whose
      vertex entry point carries the vertex slot's entry name and
      specialization, and whose fragment field is present exactly when the
      fragment slot was filled. */
  lemma BuildLoadRaw(b: ShaderSetBuilder, spec: SpecConstantSet, d: Backend.Device,
                     accepts: seq<Word> -> bool, order: seq<Stage>)
    requires b.vertex.Some?
    requires IterationOrder(order, Build(b, spec).value)
    requires forall st :: SlotOf(b, st).Some? ==> accepts(SlotOf(b, st).value.spirv)
    ensures var r := Load(Build(b, spec).value, d, accepts, order);
            && r.result.Success?
            && Raw(r.shaders).Success?
            && Raw(r.shaders).value.vertex.entry == b.vertex.value.entry
            && Raw(r.shaders).value.vertex.specialization == spec.vertex.GetOr(DefaultSpecialization)
            && (Raw(r.shaders).value.fragment.None? <==> b.fragment.None?)
  {
    var shaders := Build(b, spec).value;
    assert forall st :: st in shaders ==> accepts(shaders[st].spirv);
    LoadSuccessLoadsAll(shaders, d, accepts, order);
    LoadThenRaw(shaders, d, accepts, order);
    var r := Load(shaders, d, accepts, order);
    assert r.shaders[Vertex].(shaderModule := shaders[Vertex].shaderModule) == shaders[Vertex];
  }
}
