/** The per-frame layout of the meshes example's single host-visible buffer:
    each frame in flight owns a slice holding the uniform block, the
    per-object model matrices and (except on OpenGL) one indirect draw
    command, rounded up to the device's uniform-offset alignment. The light
    array copy and the object-count cap of the same example are here too.
    Arithmetic is on `nat`, with the 64-bit wrap-around of `u64` written out. */
module MeshFrames {
  import opened Arithmetic

  /** 2^64: one more than the largest `u64`. */
  const U64: nat := 0x1_0000_0000_0000_0000

  const MAX_LIGHTS: nat := 32
  const MAX_OBJECTS: nat := 1024

  /** The struct sizes the layout is built from, in bytes: `UniformArgs`,
      one `Model`, one `DrawIndexedCommand`, and whether the OpenGL backend
      (which draws without an indirect command) is selected. */
  datatype Sizes = Sizes(uniformArgs: nat, model: nat, drawIndexedCommand: nat, glBackend: bool)

  /** `UNIFORM_SIZE`. */
  function UniformSize(z: Sizes): nat {
    z.uniformArgs
  }

  /** `MODELS_SIZE`: room for `MAX_OBJECTS` model matrices. */
  function ModelsSize(z: Sizes): nat {
    z.model * MAX_OBJECTS
  }

  /** `INDIRECT_SIZE`: zero on OpenGL. */
  function IndirectSize(z: Sizes): nat {
    if z.glBackend then 0 else z.drawIndexedCommand
  }

  /** The bytes one frame needs before rounding. */
  function FrameContent(z: Sizes): nat {
    UniformSize(z) + ModelsSize(z) + IndirectSize(z)
  }

  /** Both non-empty structs have a positive size, and the constants'
      sum is itself a `u64` (it is evaluated at compile time). */
  predicate ValidSizes(z: Sizes) {
    z.uniformArgs > 0 && z.model > 0 && FrameContent(z) < U64
  }

  // ---------------------------------------------------------------------------
  // Bitwise round-up
  // ---------------------------------------------------------------------------

  /** Bitwise OR of two naturals, bit by bit from the least significant. */
  function Or(x: nat, y: nat): nat
    decreases x + y
  {
    if x == 0 then y
    else if y == 0 then x
    else 2 * Or(x / 2, y / 2) + (if x % 2 == 1 || y % 2 == 1 then 1 else 0)
  }

  predicate IsPowerOfTwo(n: nat)
    decreases n
  {
    n == 1 || (n >= 2 && n % 2 == 0 && IsPowerOfTwo(n / 2))
  }

  /** `buffer_frame_size`: `((content - 1) | (align - 1)) + 1` in `u64`. For
      a power-of-two alignment it is a multiple of the alignment, the first
      one not below the content size; it wraps to zero only when that
      multiple is 2^64. */
  function BufferFrameSize(z: Sizes, align: nat): (size: nat)
    requires ValidSizes(z)
    requires IsPowerOfTwo(align) && align < U64
    ensures size < U64
    ensures size % align == 0
    ensures FrameContent(z) + align <= U64 ==> FrameContent(z) <= size < FrameContent(z) + align
  {
    var x := FrameContent(z) - 1;
    RoundUp(x, align);
    (Or(x, align - 1) + 1) % U64
  }

  /** The bitwise round-up of `x + 1` to a power of two `a`: a multiple of `a`
      above `x` by at most `a`, which stays a multiple of `a` when reduced
      to `u64`. */
  lemma RoundUp(x: nat, a: nat)
    requires IsPowerOfTwo(a) && a < U64 && x < U64
    ensures x < Or(x, a - 1) + 1 <= x + a
    ensures (Or(x, a - 1) + 1) % U64 % a == 0
    ensures x + a < U64 ==> (Or(x, a - 1) + 1) % U64 == Or(x, a - 1) + 1
  {
    var j := AlignedRoundUp(x, a);
    ReducedMultiple(Or(x, a - 1) + 1, j, a);
  }

  /** The round-up as a multiple `j * a` of the alignment, at most 2^64. */
  lemma AlignedRoundUp(x: nat, a: nat) returns (j: nat)
    requires IsPowerOfTwo(a) && a < U64 && x < U64
    ensures Or(x, a - 1) + 1 == j * a <= U64
    ensures x < Or(x, a - 1) + 1 <= x + a
  {
    PowerOfTwoHalf(a);
    var k := OrLowMask(x, a);
    j := k + 1;
    assert Or(x, a - 1) + 1 == j * a by {
      MulSucc(k, a);
    }
    RoundUpFits(k, a);
  }

  /** Below 2^64, the next multiple of a power-of-two `a` is at most 2^64. */
  lemma RoundUpFits(k: nat, a: nat)
    requires IsPowerOfTwo(a) && a < U64 && k * a < U64
    ensures (k + 1) * a <= U64
  {
    var m := AlignDividesU64(a);
    NextMultipleAtMost(k, m, a);
  }

  /** The multiple of `a` after one below `m * a` is at most `m * a`. */
  lemma NextMultipleAtMost(k: nat, m: nat, a: nat)
    requires k * a < m * a
    ensures (k + 1) * a <= m * a
  {
    MulLessCancel(k, m, a);
    MulMonotone(k + 1, m, a);
  }

  /** A multiple of `a` no larger than 2^64 is still one after reduction to `u64`. */
  lemma ReducedMultiple(n: nat, k: nat, a: nat)
    requires a > 0 && n == k * a && n <= U64
    ensures n % U64 % a == 0
  {
    if n == U64 {
      MultipleMod(0, a);
    } else {
      MultipleMod(k, a);
    }
  }

  /** OR-ing `x` with `a - 1`, for a power of two `a`, sets the low bits:
      the result is one below a multiple of `a`, and lies in `[x, x + a)`. */
  lemma {:induction false} OrLowMask(x: nat, a: nat) returns (k: nat)
    requires IsPowerOfTwo(a)
    ensures Or(x, a - 1) == k * a + (a - 1)
    ensures x <= Or(x, a - 1) < x + a
    decreases a
  {
    PowerOfTwoHalf(a);
    if a == 1 {
      k := x;
    } else if x == 0 {
      k := 0;
    } else {
      var b := a / 2;
      assert Or(x, a - 1) == 2 * Or(x / 2, b - 1) + 1 by {
        assert a - 1 > 0 && (a - 1) % 2 == 1 && (a - 1) / 2 == b - 1;
      }
      k := OrLowMask(x / 2, b);
      Double(k, b);
    }
  }

  /** A power of two is positive, and one above 1 is twice its half. */
  lemma PowerOfTwoHalf(a: nat)
    requires IsPowerOfTwo(a)
    ensures a >= 1
    ensures a > 1 ==> a == 2 * (a / 2) && IsPowerOfTwo(a / 2)
  {
  }

  /** 2^e. */
  function Pow2(e: nat): nat {
    if e == 0 then 1 else 2 * Pow2(e - 1)
  }

  lemma {:induction false} Pow2IsPowerOfTwo(e: nat)
    ensures IsPowerOfTwo(Pow2(e))
  {
    if e > 0 {
      Pow2IsPowerOfTwo(e - 1);
      Pow2Positive(e - 1);
      assert Pow2(e) / 2 == Pow2(e - 1);
    }
  }

  lemma {:induction false} Pow2Positive(e: nat)
    ensures Pow2(e) >= 1
  {
    if e > 0 {
      Pow2Positive(e - 1);
    }
  }

  lemma {:induction false} Pow2Add(i: nat, j: nat)
    ensures Pow2(i + j) == Pow2(i) * Pow2(j)
  {
    if i > 0 {
      var p := Pow2(i - 1);
      var q := Pow2(j);
      assert Pow2(i - 1 + j) == p * q by {
        Pow2Add(i - 1, j);
      }
      assert Pow2(i + j) == 2 * (p * q);
      DoubleLeft(p, q);
    }
  }

  /** 2^(2e) is the square of 2^e. */
  lemma Pow2Square(e: nat, v: nat)
    requires Pow2(e) == v
    ensures Pow2(e + e) == v * v
  {
    Pow2Add(e, e);
  }

  /** 2^64 is a power of two, by repeated squaring from 2. */
  lemma U64IsPowerOfTwo()
    ensures IsPowerOfTwo(U64)
  {
    Pow2Square(1, 2);
    Pow2Square(2, 4);
    Pow2Square(4, 16);
    Pow2Square(8, 0x100);
    Pow2Square(16, 0x1_0000);
    Pow2Square(32, 0x1_0000_0000);
    Pow2IsPowerOfTwo(64);
  }

  /** Of two powers of two, the larger is a multiple of the smaller. */
  lemma {:induction false} PowerOfTwoFactor(a: nat, n: nat) returns (m: nat)
    requires IsPowerOfTwo(a) && IsPowerOfTwo(n) && a <= n
    ensures n == m * a
    decreases a
  {
    PowerOfTwoHalf(a);
    PowerOfTwoHalf(n);
    if a == 1 {
      m := n;
    } else {
      m := PowerOfTwoFactor(a / 2, n / 2);
      Double(m, a / 2);
    }
  }

  /** Every power-of-two alignment below 2^64 divides 2^64. */
  lemma AlignDividesU64(a: nat) returns (m: nat)
    requires IsPowerOfTwo(a) && a < U64
    ensures U64 == m * a
  {
    U64IsPowerOfTwo();
    m := PowerOfTwoFactor(a, U64);
  }

  // Small facts of arithmetic, each kept to one multiplication step.

  lemma Double(k: nat, b: nat)
    ensures 2 * (k * b) == k * (2 * b)
  {
  }

  lemma DoubleLeft(p: nat, q: nat)
    ensures 2 * (p * q) == (2 * p) * q
  {
  }

  /** A nonzero multiple of `a` is at least `a` away from zero. */
  lemma MulBound(x: int, a: nat)
    ensures x >= 1 ==> x * a >= a
    ensures x <= -1 ==> x * a + a <= 0
  {
    if x >= 1 {
      MulMonotone(1, x, a);
    } else if x <= -1 {
      MulMonotone(1, -x, a);
      assert (-x) * a == -(x * a);
    }
  }

  lemma MulLessCancel(q: nat, m: nat, a: nat)
    requires q * a < m * a
    ensures q < m
  {
    assert (m - q) * a == m * a - q * a;
    MulBound(m - q, a);
  }

  /** Euclidean division is unique: a quotient and remainder that rebuild
      `n` are `n / d` and `n % d`. */
  lemma DivideExactly(n: nat, d: nat, q: nat, r: nat)
    requires d > 0 && r < d && n == d * q + r
    ensures n / d == q && n % d == r
  {
    var q' := n / d;
    var r' := n % d;
    assert d * q' + r' == d * q + r;
    assert (q' - q) * d == r - r';
    MulBound(q' - q, d);
  }

  lemma MultipleMod(k: nat, a: nat)
    requires a > 0
    ensures (k * a) % a == 0
  {
    DivideExactly(k * a, a, k, 0);
  }

  /** Reducing a multiple of `a` to `u64` keeps it a multiple of `a`, when
      `a` divides 2^64. */
  lemma WrapKeepsMultiple(j: nat, a: nat, m: nat)
    requires a > 0 && U64 == m * a
    ensures ((j * a) % U64) % a == 0
  {
    var n := j * a;
    var q := n / U64;
    assert n % U64 == n - q * U64;
    assert q * U64 == (q * m) * a;
    assert n % U64 == (j - q * m) * a;
    MulBound(j - q * m, a);
    MultipleMod(j - q * m, a);
  }

  // ---------------------------------------------------------------------------
  // Offsets of one frame's regions
  // ---------------------------------------------------------------------------

  /** `uniform_offset`: the start of frame `index`'s slice (`u64` multiply).
      It is on an `align` boundary, as a dynamic uniform-buffer descriptor
      offset must be, even if the product wraps; without a wrap it is the
      start of the `index`-th slice of frame size. */
  function UniformOffset(z: Sizes, index: nat, align: nat): (offset: nat)
    requires ValidSizes(z) && IsPowerOfTwo(align) && align < U64
    ensures offset < U64
    ensures offset % align == 0
    ensures BufferFrameSize(z, align) * index < U64 ==> offset == BufferFrameSize(z, align) * index
  {
    MultipleWrapAligned(BufferFrameSize(z, align), index, align);
    (BufferFrameSize(z, align) * index) % U64
  }

  /** `models_offset`: just after the uniform block of the same slice. */
  function ModelsOffset(z: Sizes, index: nat, align: nat): (offset: nat)
    requires ValidSizes(z) && IsPowerOfTwo(align) && align < U64
    ensures offset < U64
    ensures BufferFrameSize(z, align) * index + UniformSize(z) < U64 ==>
              offset == BufferFrameSize(z, align) * index + UniformSize(z)
  {
    (UniformOffset(z, index, align) + UniformSize(z)) % U64
  }

  /** `indirect_offset`: just after the model matrices of the same slice. */
  function IndirectOffset(z: Sizes, index: nat, align: nat): (offset: nat)
    requires ValidSizes(z) && IsPowerOfTwo(align) && align < U64
    ensures offset < U64
    ensures BufferFrameSize(z, align) * index + UniformSize(z) + ModelsSize(z) < U64 ==>
              offset == BufferFrameSize(z, align) * index + UniformSize(z) + ModelsSize(z)
  {
    (ModelsOffset(z, index, align) + ModelsSize(z)) % U64
  }

  /** The size the buffer is created with: `buffer_frame_size(align) * frames`,
      a whole number of aligned frames; without a wrap, exactly `frames` of them. */
  function BufferSize(z: Sizes, align: nat, frames: nat): (size: nat)
    requires ValidSizes(z) && IsPowerOfTwo(align) && align < U64
    ensures size < U64
    ensures size % align == 0
    ensures BufferFrameSize(z, align) * frames < U64 ==> size == BufferFrameSize(z, align) * frames
  {
    MultipleWrapAligned(BufferFrameSize(z, align), frames, align);
    (BufferFrameSize(z, align) * frames) % U64
  }

  /** Any multiple of a power-of-two `a` times `index`, reduced to `u64`, is
      still a multiple of `a`. */
  lemma MultipleWrapAligned(f: nat, index: nat, a: nat)
    requires IsPowerOfTwo(a) && a < U64 && f % a == 0
    ensures (f * index) % U64 % a == 0
  {
    PowerOfTwoHalf(a);
    var m := AlignDividesU64(a);
    var c := f / a;
    assert f * index == (c * index) * a by {
      assert f == c * a;
      Rotate(c, a, index);
    }
    WrapKeepsMultiple(c * index, a, m);
  }

  lemma Rotate(c: nat, a: nat, i: nat)
    ensures (c * a) * i == (c * i) * a
  {
  }

  /** When the buffer size fits in a `u64` and the frame size did not wrap,
      frame `index < frames` lays out uniform block, model matrices and
      indirect command in that order, all inside its own slice
      `[uniform_offset(index), uniform_offset(index + 1))`, and so inside the
      buffer. */
  lemma FrameRegionsInsideBuffer(z: Sizes, align: nat, frames: nat, index: nat)
    requires ValidSizes(z) && IsPowerOfTwo(align) && align < U64
    requires FrameContent(z) + align <= U64
    requires BufferFrameSize(z, align) * frames < U64
    requires index < frames
    ensures UniformOffset(z, index, align) == BufferFrameSize(z, align) * index
    ensures ModelsOffset(z, index, align) == UniformOffset(z, index, align) + UniformSize(z)
    ensures IndirectOffset(z, index, align) == ModelsOffset(z, index, align) + ModelsSize(z)
    ensures IndirectOffset(z, index, align) + IndirectSize(z)
              <= BufferFrameSize(z, align) * (index + 1)
              <= BufferSize(z, align, frames)
    ensures BufferSize(z, align, frames) == BufferFrameSize(z, align) * frames
  {
    SliceLayout(BufferFrameSize(z, align), index, frames, UniformSize(z), ModelsSize(z), IndirectSize(z));
  }

  /** Slice `index` of `frames` slices of `f` bytes each, holding regions of
      `u`, `m` and `i` bytes in that order: with no `u64` wrap anywhere, the
      offsets are the plain sums and the regions end inside the slice. */
  lemma SliceLayout(f: nat, index: nat, frames: nat, u: nat, m: nat, i: nat)
    requires u + m + i <= f
    requires f * frames < U64
    requires index < frames
    ensures (f * index) % U64 == f * index
    ensures ((f * index) % U64 + u) % U64 == f * index + u
    ensures (((f * index) % U64 + u) % U64 + m) % U64 == f * index + u + m
    ensures f * index + u + m + i <= f * (index + 1) <= (f * frames) % U64
    ensures (f * frames) % U64 == f * frames
  {
    assert f * (index + 1) == f * index + f && f * (index + 1) <= f * frames by {
      MulMonotone(index + 1, frames, f);
      MulSucc(index, f);
    }
  }

  // ---------------------------------------------------------------------------
  // Lights and objects
  // ---------------------------------------------------------------------------

  function Min(a: nat, b: nat): nat {
    if a < b then a else b
  }

  /** The fixed `lights` array of `UniformArgs`: the first `min(len, 32)`
      scene lights, then zeroed lights. It never writes past the array. */
  function LightsArray<L>(lights: seq<L>, zero: L): (lightArray: seq<L>)
    ensures |lightArray| == MAX_LIGHTS
    ensures forall i :: 0 <= i < MAX_LIGHTS && i < |lights| ==> lightArray[i] == lights[i]
    ensures forall i :: |lights| <= i < MAX_LIGHTS ==> lightArray[i] == zero
  {
    var count := Min(|lights|, 32);
    lights[..count] + seq(MAX_LIGHTS - count, _ => zero)
  }

  /** `lights_count`: `lights.len() as i32`, a truncating cast, and not
      clamped to `MAX_LIGHTS`. */
  function LightsCount(len: nat): (count: int)
    requires len < U64
    ensures -0x8000_0000 <= count < 0x8000_0000
    ensures len < 0x8000_0000 ==> count == len
    ensures (len - count) % 0x1_0000_0000 == 0
  {
    var low := len % 0x1_0000_0000;
    if low < 0x8000_0000 then low else low - 0x1_0000_0000
  }

  /** A scene with more than `MAX_LIGHTS` lights reports its full count while
      the array carries only the first `MAX_LIGHTS` of them. */
  lemma LightsCountNotClamped<L>(lights: seq<L>, zero: L)
    requires MAX_LIGHTS < |lights| < 0x8000_0000
    ensures LightsCount(|lights|) > |LightsArray(lights, zero)|
  {
  }

  /** One call of the update closure: adds an object while fewer than
      `MAX_OBJECTS` exist and reports whether it did. */
  function AddObject<T>(objects: seq<T>, item: T): (r: (seq<T>, bool))
    ensures r.1 <==> |objects| < MAX_OBJECTS
    ensures r.1 ==> r.0 == objects + [item]
    ensures !r.1 ==> r.0 == objects
  {
    if |objects| >= MAX_OBJECTS then (objects, false)
    else (objects + [item], true)
  }

  /** The object list after the closure has run once per sample. */
  function AddObjects<T>(objects: seq<T>, samples: seq<T>): (r: seq<T>)
    ensures |objects| <= MAX_OBJECTS ==> |r| <= MAX_OBJECTS
    ensures |objects| <= |r|
    ensures r[..|objects|] == objects
    decreases |samples|
  {
    if |samples| == 0 then objects
    else
      var next := AddObject(objects, samples[0]).0;
      var r := AddObjects(next, samples[1..]);
      assert r[..|objects|] == r[..|next|][..|objects|];
      r
  }

  /** Starting from no objects, however many frames run, the list never
      exceeds `MAX_OBJECTS` and stops growing once it is full. */
  lemma {:induction false} ObjectsBounded<T>(samples: seq<T>)
    ensures |AddObjects([], samples)| == Min(|samples|, MAX_OBJECTS)
  {
    AddObjectsCount([], samples);
  }

  lemma {:induction false} AddObjectsCount<T>(objects: seq<T>, samples: seq<T>)
    requires |objects| <= MAX_OBJECTS
    ensures |AddObjects(objects, samples)| == Min(|objects| + |samples|, MAX_OBJECTS)
    decreases |samples|
  {
    if |samples| > 0 {
      AddObjectsCount(AddObject(objects, samples[0]).0, samples[1..]);
    }
  }

  /** The model matrices uploaded at `models_offset` (one `Model` per
      object) end at or before the indirect command of the same frame. */
  lemma ObjectUploadInsideModelsRegion<T>(z: Sizes, align: nat, frames: nat, index: nat, objects: seq<T>)
    requires ValidSizes(z) && IsPowerOfTwo(align) && align < U64
    requires FrameContent(z) + align <= U64
    requires BufferFrameSize(z, align) * frames < U64
    requires index < frames
    requires |objects| <= MAX_OBJECTS
    ensures ModelsOffset(z, index, align) + |objects| * z.model <= IndirectOffset(z, index, align)
  {
    FrameRegionsInsideBuffer(z, align, frames, index);
    MulMonotone(|objects|, MAX_OBJECTS, z.model);
  }
}
