/** `ShaderSet`: the storages of a shader set keyed by stage, loaded and
    disposed together, and the graphics entry-point bundle built from them. */
module ShaderSets {
  import opened Wrappers
  import opened Shaders
  import opened Backend
  import opened ShaderStorages

  type ShaderSet = map<Stage, ShaderStorage>

  // ---------------------------------------------------------------------------
  // Iteration order and the set/device invariant
  // ---------------------------------------------------------------------------

  predicate NoDuplicates(order: seq<Stage>) {
    forall i, j :: 0 <= i < j < |order| ==> order[i] != order[j]
  }

  /** `order` lists stages of the set, each once: a (part of a) hash-map
      iteration order, which the source does not fix. */
  predicate Visits(order: seq<Stage>, shaders: ShaderSet) {
    NoDuplicates(order) && forall i :: 0 <= i < |order| ==> order[i] in shaders
  }

  /** `order` is a complete iteration order of the set's keys. */
  predicate IterationOrder(order: seq<Stage>, shaders: ShaderSet) {
    Visits(order, shaders) && forall st :: st in shaders ==> st in order
  }

  /** Every compiled module of the set is live on the device. */
  ghost predicate AllHeld(shaders: ShaderSet, d: Device) {
    forall st :: st in shaders ==> HeldBy(shaders[st], d)
  }

  /** Every compiled module of the set is live on the device, and no two
      storages share a module (each storage owns its handle). */
  ghost predicate Consistent(shaders: ShaderSet, d: Device) {
    && AllHeld(shaders, d)
    && (forall s1, s2 :: s1 in shaders && s2 in shaders && s1 != s2 && Loaded(shaders[s1]) && Loaded(shaders[s2])
          ==> shaders[s1].shaderModule != shaders[s2].shaderModule)
  }

  /** The modules held by the storages of the given stages. */
  ghost function HandlesOf(shaders: ShaderSet, stages: seq<Stage>): set<Handle> {
    set st | st in stages && st in shaders && Loaded(shaders[st]) :: shaders[st].shaderModule.value
  }

  /** Only modules may differ between the two sets. */
  ghost predicate SameStorages(shaders: ShaderSet, shaders': ShaderSet) {
    shaders'.Keys == shaders.Keys
    && forall st :: st in shaders ==> shaders'[st].(shaderModule := shaders[st].shaderModule) == shaders[st]
  }

  // ---------------------------------------------------------------------------
  // load
  // ---------------------------------------------------------------------------

  /** The set, the device and the verdict after `load`: compiled storages
      stay compiled even when a later one fails. */
  datatype LoadOutcome = LoadOutcome(shaders: ShaderSet, device: Device, result: Result<(), CreateError>)

  /** `load` stopped at `order[k]`, which the device refused: the stages
      before it were compiled, it and the rest are unchanged. */
  ghost predicate StoppedAt(shaders: ShaderSet, shaders': ShaderSet, order: seq<Stage>, accepts: seq<Word> -> bool, k: int)
    requires Visits(order, shaders) && shaders'.Keys == shaders.Keys
  {
    && 0 <= k < |order|
    && !accepts(shaders[order[k]].spirv)
    && (forall i :: 0 <= i < k ==> accepts(shaders[order[i]].spirv) && Loaded(shaders'[order[i]]))
    && (forall i :: k <= i < |order| ==> shaders'[order[i]] == shaders[order[i]])
  }

  /** `load`: compiles the storages in iteration order and returns at the
      first failure. */
  function Load(shaders: ShaderSet, d: Device, accepts: seq<Word> -> bool, order: seq<Stage>): (r: LoadOutcome)
    requires Visits(order, shaders)
    ensures SameStorages(shaders, r.shaders)
    ensures forall st :: st in shaders && st !in order ==> r.shaders[st] == shaders[st]
    ensures r.result.Success? <==> forall i :: 0 <= i < |order| ==> accepts(shaders[order[i]].spirv)
    ensures r.result.Success? ==> forall i :: 0 <= i < |order| ==> Loaded(r.shaders[order[i]])
    ensures r.result.Failure? ==> exists k :: StoppedAt(shaders, r.shaders, order, accepts, k)
    ensures Valid(d) && Consistent(shaders, d) ==> Valid(r.device) && Consistent(r.shaders, r.device)
    ensures d.live <= r.device.live
    ensures AllHeld(shaders, d) ==> r.device.live == d.live + HandlesOf(r.shaders, order)
    ensures Valid(d) ==> forall st :: st in shaders && r.shaders[st] != shaders[st] ==>
              Loaded(r.shaders[st]) && r.shaders[st].shaderModule.value !in d.live
    decreases |order|
  {
    if |order| == 0 then LoadOutcome(shaders, d, Success(()))
    else
      var st := order[0];
      match Compile(shaders[st], d, accepts)
      case Failure(e) =>
        assert StoppedAt(shaders, shaders, order, accepts, 0);
        LoadOutcome(shaders, d, Failure(e))
      case Success((s', d')) =>
        var shaders1 := shaders[st := s'];
        assert Visits(order[1..], shaders1) by {
          forall i | 0 <= i < |order[1..]| ensures order[1..][i] in shaders1 {
            assert order[1..][i] == order[i + 1];
          }
        }
        var r := Load(shaders1, d', accepts, order[1..]);
        LoadStep(shaders, d, accepts, order, s', d', shaders1, order[1..], r);
        LoadStepDevice(shaders, d, accepts, order, s', d', shaders1, order[1..], r);
        r
  }

  /** The induction step of `Load`: one successful compile followed by the
      outcome of loading the remaining stages. */
  lemma LoadStep(shaders: ShaderSet, d: Device, accepts: seq<Word> -> bool, order: seq<Stage>,
                 s': ShaderStorage, d': Device, shaders1: ShaderSet, tail: seq<Stage>, r: LoadOutcome)
    requires Visits(order, shaders) && |order| > 0
    requires Compile(shaders[order[0]], d, accepts) == Success((s', d'))
    requires shaders1 == shaders[order[0] := s'] && tail == order[1..]
    requires Visits(tail, shaders1)
    requires SameStorages(shaders1, r.shaders)
    requires forall st :: st in shaders1 && st !in tail ==> r.shaders[st] == shaders1[st]
    requires r.result.Success? <==> forall i :: 0 <= i < |tail| ==> accepts(shaders1[tail[i]].spirv)
    requires r.result.Success? ==> forall i :: 0 <= i < |tail| ==> Loaded(r.shaders[tail[i]])
    requires r.result.Failure? ==> exists k :: StoppedAt(shaders1, r.shaders, tail, accepts, k)
    requires Valid(d') && Consistent(shaders1, d') ==> Valid(r.device) && Consistent(r.shaders, r.device)
    requires d'.live <= r.device.live
    ensures SameStorages(shaders, r.shaders)
    ensures forall st :: st in shaders && st !in order ==> r.shaders[st] == shaders[st]
    ensures r.result.Success? <==> forall i :: 0 <= i < |order| ==> accepts(shaders[order[i]].spirv)
    ensures r.result.Success? ==> forall i :: 0 <= i < |order| ==> Loaded(r.shaders[order[i]])
    ensures r.result.Failure? ==> exists k :: StoppedAt(shaders, r.shaders, order, accepts, k)
    ensures Valid(d) && Consistent(shaders, d) ==> Valid(r.device) && Consistent(r.shaders, r.device)
    ensures d.live <= r.device.live
  {
    var st := order[0];
    assert forall i :: 0 <= i < |tail| ==> tail[i] == order[i + 1] && tail[i] != st;
    assert st !in tail;
    assert r.shaders[st] == s';
    if r.result.Failure? {
      var k :| StoppedAt(shaders1, r.shaders, tail, accepts, k);
      LoadStepStopped(shaders, accepts, order, s', shaders1, tail, r.shaders, k);
    } else {
      forall i | 0 <= i < |order|
        ensures accepts(shaders[order[i]].spirv) && Loaded(r.shaders[order[i]])
      {
        if i > 0 {
          assert order[i] == tail[i - 1];
        }
      }
    }
    if Valid(d) && Consistent(shaders, d) {
      CompileKeepsConsistent(shaders, d, accepts, st, s', d');
    }
  }

  /** The device side of the induction step of `Load`: the module created
      for the first stage joins the modules created for the rest, and every
      module `load` stores is one the device did not have before. */
  lemma LoadStepDevice(shaders: ShaderSet, d: Device, accepts: seq<Word> -> bool, order: seq<Stage>,
                       s': ShaderStorage, d': Device, shaders1: ShaderSet, tail: seq<Stage>, r: LoadOutcome)
    requires Visits(order, shaders) && |order| > 0
    requires Compile(shaders[order[0]], d, accepts) == Success((s', d'))
    requires shaders1 == shaders[order[0] := s'] && tail == order[1..]
    requires r.shaders.Keys == shaders1.Keys
    requires forall st :: st in shaders1 && st !in tail ==> r.shaders[st] == shaders1[st]
    requires AllHeld(shaders1, d') ==> r.device.live == d'.live + HandlesOf(r.shaders, tail)
    requires Valid(d') ==> forall st :: st in shaders1 && r.shaders[st] != shaders1[st] ==>
               Loaded(r.shaders[st]) && r.shaders[st].shaderModule.value !in d'.live
    ensures AllHeld(shaders, d) ==> r.device.live == d.live + HandlesOf(r.shaders, order)
    ensures Valid(d) ==> forall st :: st in shaders && r.shaders[st] != shaders[st] ==>
              Loaded(r.shaders[st]) && r.shaders[st].shaderModule.value !in d.live
  {
    var st := order[0];
    var h := s'.shaderModule.value;
    assert forall i :: 0 <= i < |tail| ==> tail[i] == order[i + 1] && tail[i] != st;
    assert st !in tail;
    assert r.shaders[st] == s';
    if AllHeld(shaders, d) {
      assert AllHeld(shaders1, d');
      assert HandlesOf(r.shaders, order) == {h} + HandlesOf(r.shaders, tail) by {
        forall x | x in order ensures x == st || x in tail {
          var i :| 0 <= i < |order| && order[i] == x;
          if i > 0 {
            assert order[i] == tail[i - 1];
          }
        }
      }
    }
  }

  /** A stop in the tail is a stop one position later in the whole order. */
  lemma LoadStepStopped(shaders: ShaderSet, accepts: seq<Word> -> bool, order: seq<Stage>,
                        s': ShaderStorage, shaders1: ShaderSet, tail: seq<Stage>, shaders': ShaderSet, k: int)
    requires Visits(order, shaders) && |order| > 0
    requires accepts(shaders[order[0]].spirv) && Loaded(s')
    requires shaders1 == shaders[order[0] := s'] && tail == order[1..]
    requires Visits(tail, shaders1) && shaders'.Keys == shaders1.Keys
    requires shaders'[order[0]] == s'
    requires StoppedAt(shaders1, shaders', tail, accepts, k)
    ensures StoppedAt(shaders, shaders', order, accepts, k + 1)
  {
    assert forall i :: 0 <= i < |tail| ==> tail[i] == order[i + 1] && tail[i] != order[0];
    forall i | 0 <= i < k + 1
      ensures accepts(shaders[order[i]].spirv) && Loaded(shaders'[order[i]])
    {
      if i > 0 {
        assert order[i] == tail[i - 1];
      }
    }
    forall i | k + 1 <= i < |order|
      ensures shaders'[order[i]] == shaders[order[i]]
    {
      assert order[i] == tail[i - 1];
    }
  }

  /** Storing a freshly compiled module keeps the set consistent with the
      device that created it. */
  lemma CompileKeepsConsistent(shaders: ShaderSet, d: Device, accepts: seq<Word> -> bool,
                               st: Stage, s': ShaderStorage, d': Device)
    requires st in shaders && Valid(d) && Consistent(shaders, d)
    requires Compile(shaders[st], d, accepts) == Success((s', d'))
    ensures Valid(d') && Consistent(shaders[st := s'], d')
  {
    var shaders1 := shaders[st := s'];
    forall s1, s2 | s1 in shaders1 && s2 in shaders1 && s1 != s2 && Loaded(shaders1[s1]) && Loaded(shaders1[s2])
      ensures shaders1[s1].shaderModule != shaders1[s2].shaderModule
    {
      if s1 == st {
        assert shaders1[s2].shaderModule.value in d.live;
      } else if s2 == st {
        assert shaders1[s1].shaderModule.value in d.live;
      }
    }
  }

  // ---------------------------------------------------------------------------
  // dispose
  // ---------------------------------------------------------------------------

  /** `dispose`: disposes every storage in iteration order. */
  function Dispose(shaders: ShaderSet, d: Device, order: seq<Stage>): (r: (ShaderSet, Device))
    requires Visits(order, shaders)
    requires Consistent(shaders, d)
    ensures SameStorages(shaders, r.0)
    ensures forall i :: 0 <= i < |order| ==> !Loaded(r.0[order[i]])
    ensures forall st :: st in shaders && st !in order ==> r.0[st] == shaders[st]
    ensures r.1.live == d.live - HandlesOf(shaders, order)
    ensures r.1.next == d.next
    decreases |order|
  {
    if |order| == 0 then
      assert HandlesOf(shaders, order) == {};
      (shaders, d)
    else
      var (s', d') := ShaderStorages.Dispose(shaders[order[0]], d);
      var shaders1 := shaders[order[0] := s'];
      DisposeKeepsConsistent(shaders, d, order, s', d', shaders1);
      var r := Dispose(shaders1, d', order[1..]);
      DisposeStep(shaders, d, order, s', d', shaders1, order[1..], r);
      r
  }

  /** Disposing one storage keeps the rest of the set held by the device. */
  lemma DisposeKeepsConsistent(shaders: ShaderSet, d: Device, order: seq<Stage>,
                               s': ShaderStorage, d': Device, shaders1: ShaderSet)
    requires Visits(order, shaders) && |order| > 0
    requires Consistent(shaders, d)
    requires (s', d') == ShaderStorages.Dispose(shaders[order[0]], d)
    requires shaders1 == shaders[order[0] := s']
    ensures Consistent(shaders1, d')
    ensures Visits(order[1..], shaders1)
  {
    var st := order[0];
    forall x | x in shaders1 ensures HeldBy(shaders1[x], d') {
      if x != st && Loaded(shaders[x]) && Loaded(shaders[st]) {
        assert shaders[x].shaderModule != shaders[st].shaderModule;
      }
    }
    forall i | 0 <= i < |order[1..]| ensures order[1..][i] in shaders1 {
      assert order[1..][i] == order[i + 1];
    }
  }

  /** The induction step of `Dispose`. */
  lemma DisposeStep(shaders: ShaderSet, d: Device, order: seq<Stage>,
                    s': ShaderStorage, d': Device, shaders1: ShaderSet, tail: seq<Stage>, r: (ShaderSet, Device))
    requires Visits(order, shaders) && |order| > 0
    requires Consistent(shaders, d)
    requires (s', d') == ShaderStorages.Dispose(shaders[order[0]], d)
    requires shaders1 == shaders[order[0] := s'] && tail == order[1..]
    requires SameStorages(shaders1, r.0)
    requires forall i :: 0 <= i < |tail| ==> !Loaded(r.0[tail[i]])
    requires forall st :: st in shaders1 && st !in tail ==> r.0[st] == shaders1[st]
    requires r.1.live == d'.live - HandlesOf(shaders1, tail)
    requires r.1.next == d'.next
    ensures SameStorages(shaders, r.0)
    ensures forall i :: 0 <= i < |order| ==> !Loaded(r.0[order[i]])
    ensures forall st :: st in shaders && st !in order ==> r.0[st] == shaders[st]
    ensures r.1.live == d.live - HandlesOf(shaders, order)
    ensures r.1.next == d.next
  {
    var st := order[0];
    assert forall i :: 0 <= i < |tail| ==> tail[i] == order[i + 1] && tail[i] != st;
    assert st !in tail;
    assert HandlesOf(shaders1, tail) == HandlesOf(shaders, tail) by {
      forall x | x in tail ensures x != st && shaders1[x] == shaders[x] {
        var i :| 0 <= i < |tail| && tail[i] == x;
      }
    }
    var own := if Loaded(shaders[st]) then {shaders[st].shaderModule.value} else {};
    assert HandlesOf(shaders, order) == own + HandlesOf(shaders, tail) by {
      forall x | x in order ensures x == st || x in tail {
        var i :| 0 <= i < |order| && order[i] == x;
        if i > 0 {
          assert order[i] == tail[i - 1];
        }
      }
    }
    assert r.0[st] == s';
    forall i | 0 <= i < |order| ensures !Loaded(r.0[order[i]]) {
      if i > 0 {
        assert order[i] == tail[i - 1];
      }
    }
  }

  /** Disposing a set with nothing compiled changes neither set nor device. */
  lemma {:induction false} DisposeUnloadedIsNoOp(shaders: ShaderSet, d: Device, order: seq<Stage>)
    requires Visits(order, shaders) && Consistent(shaders, d)
    requires forall st :: st in shaders ==> !Loaded(shaders[st])
    ensures Dispose(shaders, d, order) == (shaders, d)
    decreases |order|
  {
    if |order| > 0 {
      var (s', d') := ShaderStorages.Dispose(shaders[order[0]], d);
      assert (s', d') == (shaders[order[0]], d);
      assert shaders[order[0] := s'] == shaders;
      DisposeKeepsConsistent(shaders, d, order, s', d', shaders);
      DisposeUnloadedIsNoOp(shaders, d, order[1..]);
    }
  }

  // ---------------------------------------------------------------------------
  // raw
  // ---------------------------------------------------------------------------

  /** The graphics stages, in the order `raw` fills the bundle's fields. */
  const GraphicsStages: seq<Stage> := [Vertex, Fragment, Domain, Hull, Geometry]

  /** gfx-hal's `GraphicsShaderSet`: a vertex entry and four optional ones. */
  datatype GraphicsShaderSet = GraphicsShaderSet(
    vertex: EntryPoint,
    fragment: Option<EntryPoint>,
    domain: Option<EntryPoint>,
    hull: Option<EntryPoint>,
    geometry: Option<EntryPoint>)

  /** The panics of `raw`: no vertex storage (`expect`), or a present stage
      whose module was never compiled (the `unwrap` in `get_entry_point`). */
  datatype RawError = MissingVertexShader | StageNotLoaded(stage: Stage)

  /** The entry point of a present, compiled stage. */
  function EntryOf(s: ShaderStorage): EntryPoint
    requires Loaded(s)
  {
    GetEntryPoint(s).value
  }

  /** One optional field of the bundle: absent stage, or its entry point. */
  function OptionalEntry(shaders: ShaderSet, stage: Stage): (r: Result<Option<EntryPoint>, RawError>)
    ensures r.Failure? <==> stage in shaders && !Loaded(shaders[stage])
    ensures r.Failure? ==> r.error == StageNotLoaded(stage)
    ensures r.Success? ==> (r.value.None? <==> stage !in shaders)
    ensures r.Success? && r.value.Some? ==> r.value.value == EntryOf(shaders[stage])
  {
    if stage !in shaders then Success(None)
    else match GetEntryPoint(shaders[stage])
      case Failure(_) => Failure(StageNotLoaded(stage))
      case Success(ep) => Success(Some(ep))
  }

  /** The bundle's optional field for `stage` matches the set. */
  ghost predicate FieldMatches(field: Option<EntryPoint>, shaders: ShaderSet, stage: Stage) {
    && (field.None? <==> stage !in shaders)
    && (field.Some? ==> stage in shaders && Loaded(shaders[stage]) && field.value == EntryOf(shaders[stage]))
  }

  /** Every present graphics stage is compiled. */
  ghost predicate GraphicsLoaded(shaders: ShaderSet) {
    forall st :: st in shaders && st != Compute ==> Loaded(shaders[st])
  }

  /** `raw`: the entry-point bundle for pipeline creation. It needs a compiled
      vertex stage; each optional field is `None` exactly when its stage is
      absent; the compute stage plays no part. The first failing field, in
      the order of `GraphicsStages`, decides the error. */
  function Raw(shaders: ShaderSet): (r: Result<GraphicsShaderSet, RawError>)
    ensures r == Failure(MissingVertexShader) <==> Vertex !in shaders
    ensures r.Success? <==> Vertex in shaders && GraphicsLoaded(shaders)
    ensures r.Failure? && r.error.StageNotLoaded? ==>
              exists k :: 0 <= k < |GraphicsStages| && r.error.stage == GraphicsStages[k]
                && GraphicsStages[k] in shaders && !Loaded(shaders[GraphicsStages[k]])
                && forall j :: 0 <= j < k && GraphicsStages[j] in shaders ==> Loaded(shaders[GraphicsStages[j]])
    ensures r.Success? ==> r.value.vertex == EntryOf(shaders[Vertex])
    ensures r.Success? ==> FieldMatches(r.value.fragment, shaders, Fragment)
    ensures r.Success? ==> FieldMatches(r.value.domain, shaders, Domain)
    ensures r.Success? ==> FieldMatches(r.value.hull, shaders, Hull)
    ensures r.Success? ==> FieldMatches(r.value.geometry, shaders, Geometry)
  {
    if Vertex !in shaders then Failure(MissingVertexShader)
    else if !Loaded(shaders[Vertex]) then
      assert GraphicsStages[0] == Vertex;
      Failure(StageNotLoaded(Vertex))
    else
      var vertex := EntryOf(shaders[Vertex]);
      match OptionalEntry(shaders, Fragment)
      case Failure(e) =>
        assert GraphicsStages[1] == Fragment;
        Failure(e)
      case Success(fragment) =>
        match OptionalEntry(shaders, Domain)
        case Failure(e) =>
          assert GraphicsStages[2] == Domain;
          Failure(e)
        case Success(domain) =>
          match OptionalEntry(shaders, Hull)
          case Failure(e) =>
            assert GraphicsStages[3] == Hull;
            Failure(e)
          case Success(hull) =>
            match OptionalEntry(shaders, Geometry)
            case Failure(e) =>
              assert GraphicsStages[4] == Geometry;
              Failure(e)
            case Success(geometry) =>
              Success(GraphicsShaderSet(vertex, fragment, domain, hull, geometry))
  }

  // ---------------------------------------------------------------------------
  // Lifecycle properties
  // ---------------------------------------------------------------------------

  /** A successful `load` over a full iteration order leaves every storage
      compiled; a failed one is possible only if some stage is refused. */
  lemma LoadSuccessLoadsAll(shaders: ShaderSet, d: Device, accepts: seq<Word> -> bool, order: seq<Stage>)
    requires IterationOrder(order, shaders)
    ensures var r := Load(shaders, d, accepts, order);
            (r.result.Success? <==> forall st :: st in shaders ==> accepts(shaders[st].spirv))
            && (r.result.Success? ==> forall st :: st in r.shaders ==> Loaded(r.shaders[st]))
  {
    var r := Load(shaders, d, accepts, order);
    forall st | st in shaders ensures exists i :: 0 <= i < |order| && order[i] == st {
      assert st in order;
    }
  }

  /** `dispose` over a full iteration order leaves no storage compiled and
      destroys exactly the modules the set held. */
  lemma DisposeReleasesAll(shaders: ShaderSet, d: Device, order: seq<Stage>)
    requires IterationOrder(order, shaders) && Consistent(shaders, d)
    ensures var (shaders', d') := Dispose(shaders, d, order);
            (forall st :: st in shaders' ==> !Loaded(shaders'[st]))
            && d'.live == d.live - HandlesOf(shaders, order)
            && (forall st :: st in shaders && Loaded(shaders[st]) ==> shaders[st].shaderModule.value !in d'.live)
  {
    var (shaders', d') := Dispose(shaders, d, order);
    forall st | st in shaders' ensures !Loaded(shaders'[st]) {
      var i :| 0 <= i < |order| && order[i] == st;
    }
    forall st | st in shaders && Loaded(shaders[st]) ensures shaders[st].shaderModule.value in HandlesOf(shaders, order) {
    }
  }

  /** Disposing a disposed set changes nothing: no module is destroyed twice. */
  lemma DisposeTwiceIsHarmless(shaders: ShaderSet, d: Device, order: seq<Stage>)
    requires IterationOrder(order, shaders) && Consistent(shaders, d)
    ensures var (shaders', d') := Dispose(shaders, d, order);
            Consistent(shaders', d') && Dispose(shaders', d', order) == (shaders', d')
  {
    var (shaders', d') := Dispose(shaders, d, order);
    DisposeReleasesAll(shaders, d, order);
    assert Visits(order, shaders');
    DisposeUnloadedIsNoOp(shaders', d', order);
  }

  /** `load` followed by `dispose`, whether the load succeeded or stopped at
      a refused stage, returns the device to the modules it had: every module
      the load created is destroyed, and nothing else is. */
  lemma LoadDisposeRoundTrip(shaders: ShaderSet, d: Device, accepts: seq<Word> -> bool, order: seq<Stage>)
    requires Visits(order, shaders) && Valid(d)
    requires forall st :: st in shaders ==> !Loaded(shaders[st])
    ensures var r := Load(shaders, d, accepts, order);
            Consistent(r.shaders, r.device) && Dispose(r.shaders, r.device, order).1.live == d.live
  {
    assert Consistent(shaders, d);
    var r := Load(shaders, d, accepts, order);
    var created := HandlesOf(r.shaders, order);
    assert r.device.live == d.live + created;
    forall h | h in created ensures h !in d.live {
      var st :| st in order && st in r.shaders && Loaded(r.shaders[st]) && r.shaders[st].shaderModule.value == h;
      assert r.shaders[st] != shaders[st];
    }
    assert (d.live + created) - created == d.live;
  }

  /** `raw` before any `load` fails as soon as the set has a vertex stage:
      nothing is compiled yet. */
  lemma RawBeforeLoadFails(shaders: ShaderSet)
    requires Vertex in shaders && !Loaded(shaders[Vertex])
    ensures Raw(shaders) == Failure(StageNotLoaded(Vertex))
  {
  }

  /** After a successful `load`, `raw` succeeds exactly when there is a
      vertex stage, and its optional fields follow the stages present. */
  lemma LoadThenRaw(shaders: ShaderSet, d: Device, accepts: seq<Word> -> bool, order: seq<Stage>)
    requires IterationOrder(order, shaders)
    requires Load(shaders, d, accepts, order).result.Success?
    ensures var shaders' := Load(shaders, d, accepts, order).shaders;
            (Raw(shaders').Success? <==> Vertex in shaders)
            && (Raw(shaders').Success? ==> (Raw(shaders').value.fragment.None? <==> Fragment !in shaders))
  {
    LoadSuccessLoadsAll(shaders, d, accepts, order);
  }

  /** After `dispose`, `raw` fails again. */
  lemma RawAfterDisposeFails(shaders: ShaderSet, d: Device, order: seq<Stage>)
    requires IterationOrder(order, shaders) && Consistent(shaders, d)
    requires Vertex in shaders
    ensures Raw(Dispose(shaders, d, order).0) == Failure(StageNotLoaded(Vertex))
  {
    DisposeReleasesAll(shaders, d, order);
  }

  /** The compute stage never influences `raw`. */
  lemma RawIgnoresCompute(shaders: ShaderSet, s: ShaderStorage)
    ensures Raw(shaders[Compute := s]) == Raw(shaders)
    ensures Raw(shaders - {Compute}) == Raw(shaders)
  {
    RawSeesGraphicsOnly(shaders[Compute := s], shaders);
    RawSeesGraphicsOnly(shaders - {Compute}, shaders);
  }

  /** Two sets that agree on every graphics stage give the same `raw`. */
  lemma RawSeesGraphicsOnly(a: ShaderSet, b: ShaderSet)
    requires forall st :: st != Compute ==> (st in a <==> st in b)
    requires forall st :: st != Compute && st in a ==> a[st] == b[st]
    ensures Raw(a) == Raw(b)
  {
    assert forall st :: st != Compute ==> OptionalEntry(a, st) == OptionalEntry(b, st);
  }
}
