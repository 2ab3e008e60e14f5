/** The web entry point's request policy: which uploads are accepted, how the form's
    parameters are resolved against the presets, and the fixed arguments the pipeline is
    started with. The pipeline itself (image loading, the solver, the renderer and the
    video writer) is not run here: an accepted request yields the job that would be. */
module App {
  import opened Wrappers
  import opened Text
  import Cli

  const AllowedExtensions: set<string> := {"png", "jpg", "jpeg", "gif"}

  /** `allowed_file`: the name has a dot, and what follows its last dot is an allowed
      extension in any letter case. */
  predicate AllowedFile(filename: string)
    ensures AllowedFile(filename) ==>
      |filename| >= 4 && (filename[|filename| - 4] == '.' || (|filename| >= 5 && filename[|filename| - 5] == '.'))
  {
    '.' in filename && Lower(AfterLast(filename, '.')) in AllowedExtensions
  }

  /** The name is judged by the text after its last dot alone. */
  lemma AllowedFileByExtension(stem: string, ext: string)
    requires '.' !in ext
    ensures AllowedFile(stem + "." + ext) <==> Lower(ext) in AllowedExtensions
  {
    AfterLastSplit(stem, '.', ext);
    assert (stem + "." + ext)[|stem|] == '.';
  }

  /** The extension after dot i, when no dot follows it, is an allowed one. */
  predicate AllowedAfterDot(filename: string, i: int) {
    0 <= i < |filename| && filename[i] == '.' && '.' !in filename[i + 1..] &&
    Lower(filename[i + 1..]) in AllowedExtensions
  }

  /** The same rule read off the name directly: some dot is followed by no other dot and
      then by an allowed extension. */
  lemma AllowedFileIff(filename: string)
    ensures AllowedFile(filename) <==> exists i :: AllowedAfterDot(filename, i)
  {
    if AllowedFile(filename) {
      var i := LastDot(filename);
    }
    if exists i :: AllowedAfterDot(filename, i) {
      var i :| AllowedAfterDot(filename, i);
      DotDecides(filename, i);
    }
  }

  lemma LastDot(filename: string) returns (i: int)
    requires AllowedFile(filename)
    ensures AllowedAfterDot(filename, i)
  {
    var r := AfterLast(filename, '.');
    i := |filename| - |r| - 1;
    assert filename[i + 1..] == r;
  }

  lemma DotDecides(filename: string, i: int)
    requires AllowedAfterDot(filename, i)
    ensures AllowedFile(filename)
  {
    assert filename == filename[..i] + "." + filename[i + 1..];
    AllowedFileByExtension(filename[..i], filename[i + 1..]);
  }

  /** An upper-case extension is accepted. */
  lemma UpperCaseAccepted()
    ensures AllowedFile("photo.PNG")
  {
    AllowedFileByExtension("photo", "PNG");
    assert "photo" + "." + "PNG" == "photo.PNG";
    assert Lower("PNG") == "png";
  }

  /** Only the last extension counts: `a.png.exe` is rejected. */
  lemma DoubleExtensionRejected()
    ensures !AllowedFile("a.png.exe")
  {
    AllowedFileByExtension("a.png", "exe");
    assert "a.png" + "." + "exe" == "a.png.exe";
    assert Lower("exe") == "exe";
  }

  /** A name without a dot is rejected, even when it spells an extension. */
  lemma NoDotRejected()
    ensures !AllowedFile("png")
  {
    assert '.' !in "png";
  }

  /** The form fields the generator reads, already parsed; None for a missing field. */
  datatype Form = Form(preset: Option<string>, resolution: Option<int>, algorithm: Option<string>,
                       particleScale: Option<real>, colorMix: Option<real>, shape: Option<string>,
                       jitter: Option<real>)

  /** The look a custom request asks for: every field from the form, with its default. */
  function CustomLook(form: Form): (look: Cli.Look)
    ensures look.resolution == form.resolution.GetOr(64) && look.algorithm == form.algorithm.GetOr("sort")
    ensures look.particleScale == form.particleScale.GetOr(0.6) && look.colorMix == form.colorMix.GetOr(0.0)
    ensures look.shape == form.shape.GetOr("circle") && look.jitter == form.jitter.GetOr(0.05)
  {
    Cli.Look(form.resolution.GetOr(64), form.algorithm.GetOr("sort"), form.shape.GetOr("circle"),
             form.particleScale.GetOr(0.6), form.colorMix.GetOr(0.0), form.jitter.GetOr(0.05))
  }

  /** The requested look: the preset (sand when none is given), or the form's values for
      any other preset name. */
  function ResolveLook(form: Form): (look: Cli.Look)
    ensures Cli.Preset(form.preset.GetOr("sand")).Some? ==> look == Cli.Preset(form.preset.GetOr("sand")).value
    ensures Cli.Preset(form.preset.GetOr("sand")).None? ==> look == CustomLook(form)
  {
    Cli.WithPreset(form.preset.GetOr("sand"), CustomLook(form))
  }

  /** A form without a preset field is the sand preset, whatever else it holds. */
  lemma DefaultIsSand(form: Form)
    requires form.preset.None?
    ensures ResolveLook(form) == Cli.Look(128, "sort", "circle", 0.5, 0.0, 0.1)
  {
  }

  /** The arguments the pipeline is started with. */
  datatype Job = Job(look: Cli.Look, outputSize: int, proximity: real, duration: real, fps: int,
                     holdStart: real, holdEnd: real)

  /** The JSON reply: an error with its HTTP status, or the job that was started. */
  datatype Reply = Error(status: int, message: string) | Started(job: Job)

  const Proximity := 0.3
  const Duration := 6.0
  const Fps := 30
  const HoldStart := 1.0
  const HoldEnd := 2.0

  /** The reply to a generation request. `source` is the uploaded file's name (None when
      there is no upload) and `targetFound` whether the fixed target image exists, at
      `targetLocation`. */
  function Respond(source: Option<string>, targetFound: bool, targetLocation: string, form: Form): (reply: Reply)
    ensures source.None? ==> reply == Error(400, "Missing source image")
    ensures source == Some("") ==> reply == Error(400, "No file selected")
    ensures source.Some? && source.value != "" && !AllowedFile(source.value) ==>
      reply == Error(400, "Invalid file type")
    ensures source.Some? && AllowedFile(source.value) && !targetFound ==>
      reply == Error(500, "Target image not found at " + targetLocation)
    ensures reply.Started? <==>
      source.Some? && AllowedFile(source.value) && targetFound && ResolveLook(form).resolution != 0
  {
    if source.None? then Error(400, "Missing source image")
    else if source.value == "" then Error(400, "No file selected")
    else if !AllowedFile(source.value) then Error(400, "Invalid file type")
    else if !targetFound then Error(500, "Target image not found at " + targetLocation)
    else
      var look := ResolveLook(form);
      match Cli.OutputSize(look.resolution)
      case Failure(e) => Error(500, e)
      case Success(size) =>
        Started(Job(look.(algorithm := Cli.Capped(look.algorithm, look.resolution)), size,
                    Proximity, Duration, Fps, HoldStart, HoldEnd))
  }

  /** A started job runs at the requested grid, never with the exact solver above 80
      cells a side, at the output size the command line computes for that grid (one the
      grid divides), with the fixed arguments. */
  lemma StartedJob(source: Option<string>, targetFound: bool, targetLocation: string, form: Form)
    requires Respond(source, targetFound, targetLocation, form).Started?
    ensures var job := Respond(source, targetFound, targetLocation, form).job;
      var look := ResolveLook(form);
      job.look == look.(algorithm := Cli.Capped(look.algorithm, look.resolution)) &&
      !(job.look.algorithm == "optimal" && job.look.resolution > 80) &&
      Cli.OutputSize(look.resolution) == Success(job.outputSize) &&
      job.outputSize % job.look.resolution == 0 &&
      (job.look.resolution >= 1 ==> job.outputSize >= 1) &&
      job.proximity == 0.3 && job.duration == 6.0 && job.fps == 30 &&
      job.holdStart == 1.0 && job.holdEnd == 2.0
  {
  }

  /** With a named preset, the form's other fields do not change the reply. */
  lemma PresetIgnoresForm(source: Option<string>, targetFound: bool, targetLocation: string, a: Form, b: Form)
    requires a.preset == b.preset && Cli.Preset(a.preset.GetOr("sand")).Some?
    ensures Respond(source, targetFound, targetLocation, a) == Respond(source, targetFound, targetLocation, b)
  {
  }

  /** A zero resolution in a custom request fails with the division error. */
  lemma ZeroResolutionFails(source: Option<string>, targetLocation: string, form: Form)
    requires source.Some? && AllowedFile(source.value)
    requires Cli.Preset(form.preset.GetOr("sand")).None? && form.resolution == Some(0)
    ensures Respond(source, true, targetLocation, form) == Error(500, Cli.ZeroDivision)
  {
  }

  /** `generate`: the checks in order, then the parameters assigned branch by branch and
      the output size and algorithm reassigned. */
  method Generate(source: Option<string>, targetFound: bool, targetLocation: string, form: Form)
    returns (reply: Reply)
    ensures reply == Respond(source, targetFound, targetLocation, form)
  {
    if source.None? {
      return Error(400, "Missing source image");
    }
    var filename := source.value;
    if filename == "" {
      return Error(400, "No file selected");
    }
    if !AllowedFile(filename) {
      return Error(400, "Invalid file type");
    }
    if !targetFound {
      return Error(500, "Target image not found at " + targetLocation);
    }
    var preset := form.preset.GetOr("sand");
    var resolution := form.resolution.GetOr(64);
    var algorithm := form.algorithm.GetOr("sort");
    var particleScale, colorMix, shape, jitter;
    if preset == "sand" {
      resolution, algorithm := 128, "sort";
      particleScale, colorMix, shape, jitter := 0.5, 0.0, "circle", 0.1;
    } else if preset == "blocks" {
      resolution, algorithm := 32, "optimal";
      particleScale, colorMix, shape, jitter := 1.0, 0.0, "square", 0.0;
    } else if preset == "bubbles" {
      resolution, algorithm := 64, "greedy";
      particleScale, colorMix, shape, jitter := 0.8, 0.2, "circle", 0.05;
    } else {
      particleScale := form.particleScale.GetOr(0.6);
      colorMix := form.colorMix.GetOr(0.0);
      shape := form.shape.GetOr("circle");
      jitter := form.jitter.GetOr(0.05);
    }
    if resolution == 0 {
      return Error(500, Cli.ZeroDivision);
    }
    var outputSize := 512;
    outputSize := Cli.FloorDiv(outputSize, resolution) * resolution;
    if outputSize == 0 {
      outputSize := resolution;
    }
    if algorithm == "optimal" && resolution > 80 {
      algorithm := "sort";
    }
    var look := Cli.Look(resolution, algorithm, shape, particleScale, colorMix, jitter);
    return Started(Job(look, outputSize, Proximity, Duration, Fps, HoldStart, HoldEnd));
  }
}
