/** The command-line entry point's parameter policy: the preset table that overwrites the
    parsed arguments, the output-size rule, the cap that keeps the exact solver off large
    grids, and the normalisation of the output path. */
module Cli {
  import opened Wrappers
  import opened Text
  import opened Arith

  /** The six settings a preset fixes. */
  datatype Look = Look(resolution: int, algorithm: string, shape: string,
                       particleScale: real, colorMix: real, jitter: real)

  /** The preset table: a look for "sand", "blocks" and "bubbles", none for "custom" or any
      other name. */
  function Preset(name: string): (look: Option<Look>)
    ensures look.Some? <==> name in {"sand", "blocks", "bubbles"}
  {
    if name == "sand" then Some(Look(128, "sort", "circle", 0.5, 0.0, 0.1))
    else if name == "blocks" then Some(Look(32, "optimal", "square", 1.0, 0.0, 0.0))
    else if name == "bubbles" then Some(Look(64, "greedy", "circle", 0.8, 0.2, 0.05))
    else None
  }

  /** What a preset leaves of the current look: the preset's own look, or, for a name
      without one, the current look unchanged. */
  function WithPreset(name: string, current: Look): (r: Look)
    ensures Preset(name).None? ==> r == current
    ensures Preset(name).Some? ==> r == Preset(name).value
  {
    match Preset(name)
    case Some(look) => look
    case None => current
  }

  /** A named preset decides all six settings: what was there before does not matter. */
  lemma PresetOverridesAll(name: string, a: Look, b: Look)
    requires name in {"sand", "blocks", "bubbles"}
    ensures WithPreset(name, a) == WithPreset(name, b)
  {
  }

  /** Applying a preset twice is applying it once. */
  lemma PresetIdempotent(name: string, current: Look)
    ensures WithPreset(name, WithPreset(name, current)) == WithPreset(name, current)
  {
  }

  predicate KnownAlgorithm(algorithm: string) {
    algorithm in {"greedy", "approx", "optimal", "sort"}
  }

  /** Every preset look is one argparse would accept, with a positive grid and scales in
      [0, 1], and none of them is touched by the optimal cap. */
  lemma PresetLooksValid(name: string)
    requires Preset(name).Some?
    ensures var look := Preset(name).value;
      KnownAlgorithm(look.algorithm) && look.shape in {"square", "circle"} &&
      1 <= look.resolution && 0.0 < look.particleScale <= 1.0 &&
      0.0 <= look.colorMix <= 1.0 && 0.0 <= look.jitter &&
      Capped(look.algorithm, look.resolution) == look.algorithm
  {
  }

  /** The exact solver is replaced by the rank matcher on grids finer than 80 cells a
      side; nothing else is changed. */
  function Capped(algorithm: string, resolution: int): (a: string)
    ensures !(a == "optimal" && resolution > 80)
    ensures algorithm != "optimal" || resolution <= 80 ==> a == algorithm
    ensures algorithm == "optimal" && resolution > 80 ==> a == "sort"
  {
    if algorithm == "optimal" && resolution > 80 then "sort" else algorithm
  }

  /** Capping twice is capping once. */
  lemma CapIdempotent(algorithm: string, resolution: int)
    ensures Capped(Capped(algorithm, resolution), resolution) == Capped(algorithm, resolution)
  {
  }

  /** Python's `a // n`: the quotient rounded toward negative infinity. Dafny's `/` is
      Euclidean, which differs for a negative divisor and a non-zero remainder. */
  function FloorDiv(a: int, n: int): (q: int)
    requires n != 0
    ensures n > 0 ==> q * n <= a < q * n + n
    ensures n < 0 ==> q * n + n < a <= q * n
  {
    if n > 0 || a % n == 0 then a / n else a / n - 1
  }

  /** Floor division with a negative divisor: 512 // -3 == -171. */
  lemma FloorDivNegative()
    ensures FloorDiv(512, -3) == -171
  {
  }

  /** A multiple of n leaves no remainder. */
  lemma MultipleMod(q: int, n: int)
    requires n != 0
    ensures (q * n) % n == 0
  {
    if n > 0 {
      DivModUnique(q * n, n, q, 0);
    } else {
      DivModUnique(q * n, -n, -q, 0);
      assert (q * n) % n == (q * n) % (-n);
    }
  }

  /** The message Python's ZeroDivisionError carries for `512 // 0`. */
  const ZeroDivision := "integer division or modulo by zero"

  /** The frame side: the largest multiple of the resolution up to 512, or the resolution
      itself when it exceeds 512. A zero resolution raises. */
  function OutputSize(resolution: int): (size: Result<int>)
    ensures size.Failure? <==> resolution == 0
    ensures size.Failure? ==> size.error == ZeroDivision
    ensures size.Success? ==> size.value % resolution == 0
    ensures resolution >= 1 ==> size.Success? && size.value >= 1
    ensures 1 <= resolution <= 512 ==> size.Success? && size.value <= 512 < size.value + resolution
    ensures resolution > 512 ==> size == Success(resolution)
  {
    if resolution == 0 then Failure(ZeroDivision)
    else
      var q := FloorDiv(512, resolution);
      var s := q * resolution;
      MultipleMod(q, resolution);
      MultipleCases(q, resolution);
      if s == 0 then Success(resolution) else Success(s)
  }

  /** The multiple q * n of a floor quotient q = 512 // n: none above 512, at least one
      for 1 <= n <= 512, and at least 512 for a negative n, so never 0 below 0. */
  lemma MultipleCases(q: int, n: int)
    requires n > 0 ==> q * n <= 512 < q * n + n
    requires n < 0 ==> q * n + n < 512 <= q * n
    ensures n > 512 ==> q * n == 0
    ensures 1 <= n <= 512 ==> 1 <= q * n
  {
    if n > 512 {
      assert q == 0;
    } else if n > 0 {
      PositiveMultiple(q, n);
    }
  }

  /** A resolution up to 512 fits at least once into 512. */
  lemma PositiveMultiple(q: int, n: int)
    requires 1 <= n <= 512 && q * n <= 512 < q * n + n
    ensures q >= 1 && q * n >= 1
  {
    NonPositiveProduct(q, n);
    MulMono(1, q, n);
  }

  lemma NonPositiveProduct(q: int, n: int)
    requires 0 <= n
    ensures q <= 0 ==> q * n <= 0
  {
    if q <= 0 {
      MulMono(0, -q, n);
      assert (-q) * n == -(q * n);
    }
  }

  /** A 64-cell grid renders at 512, a 100-cell grid at 500, a 600-cell grid at 600. */
  lemma OutputSizeExamples()
    ensures OutputSize(64) == Success(512)
    ensures OutputSize(100) == Success(500)
    ensures OutputSize(600) == Success(600)
  {
  }

  /** `os.path.basename` on a POSIX path: everything after the last '/', or the whole
      path when it has none. */
  function Basename(path: string): (b: string)
    ensures '/' !in b
    ensures EndsWith(path, b)
    ensures '/' !in path ==> b == path
    ensures '/' in path ==> |b| < |path| && path[|path| - |b| - 1] == '/'
  {
    AfterLast(path, '/')
  }

  /** The path is already inside the outputs directory. */
  predicate InOutputs(path: string) {
    StartsWith(path, "outputs/") || StartsWith(path, "outputs\\")
  }

  /** The path names a video container, whatever the case of its extension. */
  predicate VideoExtension(path: string) {
    EndsWith(Lower(path), ".mp4") || EndsWith(Lower(path), ".gif")
  }

  /** The directory step: a path outside outputs/ keeps only its file name, moved there. */
  function IntoOutputs(path: string): (p: string)
    ensures InOutputs(p)
    ensures InOutputs(path) ==> p == path
    ensures !InOutputs(path) ==> p == "outputs/" + Basename(path)
  {
    if InOutputs(path) then path
    else
      var p := "outputs/" + Basename(path);
      assert p[..|"outputs/"|] == "outputs/";
      p
  }

  /** The extension step: anything that is not .mp4 or .gif gets .mp4 appended. */
  function WithVideoExtension(path: string): (p: string)
    ensures VideoExtension(p)
    ensures VideoExtension(path) ==> p == path
    ensures !VideoExtension(path) ==> p == path + ".mp4"
  {
    if VideoExtension(path) then path
    else
      var p := path + ".mp4";
      LowerConcat(path, ".mp4");
      assert Lower(".mp4") == ".mp4";
      EndsWithConcat(Lower(path), ".mp4");
      p
  }

  /** Where the video is written. */
  function OutputPath(out: string): (path: string)
    ensures InOutputs(path) && VideoExtension(path)
  {
    var dir := IntoOutputs(out);
    var p := WithVideoExtension(dir);
    if !VideoExtension(dir) then
      InOutputsConcat(dir, ".mp4");
      p
    else p
  }

  lemma InOutputsConcat(a: string, b: string)
    requires InOutputs(a)
    ensures InOutputs(a + b)
  {
    if StartsWith(a, "outputs/") {
      StartsWithConcat(a, b, "outputs/");
    } else {
      StartsWithConcat(a, b, "outputs\\");
    }
  }

  /** A path that already conforms is returned as it is. */
  lemma OutputPathKeepsConforming(out: string)
    requires InOutputs(out) && VideoExtension(out)
    ensures OutputPath(out) == out
  {
  }

  /** Normalising twice is normalising once. */
  lemma OutputPathIdempotent(out: string)
    ensures OutputPath(OutputPath(out)) == OutputPath(out)
  {
    OutputPathKeepsConforming(OutputPath(out));
  }

  /** A wrong extension is kept and `.mp4` appended after it, and a path outside outputs/
      keeps its file name. */
  lemma OutputPathAppends(out: string)
    ensures !VideoExtension(IntoOutputs(out)) ==> OutputPath(out) == IntoOutputs(out) + ".mp4"
    ensures InOutputs(out) ==> StartsWith(OutputPath(out), out)
    ensures !InOutputs(out) ==> StartsWith(OutputPath(out), "outputs/" + Basename(out))
  {
    var dir := IntoOutputs(out);
    if !VideoExtension(dir) {
      StartsWithConcat(dir, ".mp4", dir);
    }
    assert StartsWith(dir, dir);
  }

  /** `outputs/clip.MP4` already conforms and stays as it is. */
  lemma ConformingPathExample()
    ensures OutputPath("outputs/clip.MP4") == "outputs/clip.MP4"
  {
    var out := "outputs/clip.MP4";
    assert out[..8] == "outputs/";
    LowerSuffix(out, 12);
    assert out[12..] == ".MP4";
    assert Lower(".MP4") == ".mp4";
    OutputPathKeepsConforming(out);
  }

  /** The parsed command-line arguments that the policy reads and overwrites. */
  class Args {
    var preset: string
    var resolution: int
    var algorithm: string
    var shape: string
    var particleScale: real
    var colorMix: real
    var jitter: real
    var out: string

    constructor(preset: string, resolution: int, algorithm: string, shape: string,
                particleScale: real, colorMix: real, jitter: real, out: string)
      ensures this.preset == preset && this.out == out
      ensures Current() == Look(resolution, algorithm, shape, particleScale, colorMix, jitter)
    {
      this.preset := preset;
      this.resolution := resolution;
      this.algorithm := algorithm;
      this.shape := shape;
      this.particleScale := particleScale;
      this.colorMix := colorMix;
      this.jitter := jitter;
      this.out := out;
    }

    function Current(): Look
      reads this
    {
      Look(resolution, algorithm, shape, particleScale, colorMix, jitter)
    }

    /** The preset branches: a named preset overwrites the six settings one by one. */
    method ApplyPreset()
      modifies this
      ensures Current() == WithPreset(old(preset), old(Current()))
      ensures preset == old(preset) && out == old(out)
    {
      if preset == "sand" {
        resolution := 128;
        algorithm := "sort";
        shape := "circle";
        particleScale := 0.5;
        colorMix := 0.0;
        jitter := 0.1;
      } else if preset == "blocks" {
        resolution := 32;
        algorithm := "optimal";
        shape := "square";
        particleScale := 1.0;
        colorMix := 0.0;
        jitter := 0.0;
      } else if preset == "bubbles" {
        resolution := 64;
        algorithm := "greedy";
        shape := "circle";
        particleScale := 0.8;
        colorMix := 0.2;
        jitter := 0.05;
      }
    }

    /** The frame side for the current resolution, reassigned step by step. */
    method ComputeOutputSize() returns (size: Result<int>)
      ensures size == OutputSize(resolution)
    {
      if resolution == 0 {
        return Failure(ZeroDivision);
      }
      var s := 512;
      s := FloorDiv(s, resolution) * resolution;
      if s == 0 {
        s := resolution;
      }
      return Success(s);
    }

    /** The cap: only the algorithm may change. */
    method CapOptimal()
      modifies this
      ensures algorithm == Capped(old(algorithm), old(resolution))
      ensures preset == old(preset) && out == old(out) && resolution == old(resolution)
      ensures shape == old(shape) && particleScale == old(particleScale)
      ensures colorMix == old(colorMix) && jitter == old(jitter)
    {
      if algorithm == "optimal" && resolution > 80 {
        algorithm := "sort";
      }
    }

    /** The output path, reassigned step by step. */
    method NormaliseOutputPath() returns (path: string)
      ensures path == OutputPath(out)
    {
      path := out;
      if !StartsWith(path, "outputs/") && !StartsWith(path, "outputs\\") {
        path := "outputs/" + Basename(path);
      }
      if !(EndsWith(Lower(path), ".mp4") || EndsWith(Lower(path), ".gif")) {
        path := path + ".mp4";
      }
    }

    /** The policy steps in the order the entry point runs them: preset, output size,
        cap, output path. */
    method Prepare() returns (size: Result<int>, path: string)
      modifies this
      ensures Current() == var look := WithPreset(old(preset), old(Current()));
        look.(algorithm := Capped(look.algorithm, look.resolution))
      ensures !(algorithm == "optimal" && resolution > 80)
      ensures size == OutputSize(resolution)
      ensures InOutputs(path) && VideoExtension(path) && path == OutputPath(old(out))
      ensures preset == old(preset) && out == old(out)
    {
      ApplyPreset();
      size := ComputeOutputSize();
      CapOptimal();
      path := NormaliseOutputPath();
    }
  }
}
