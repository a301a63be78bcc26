/** The renderer invoker (src/drawio.rs): it checks that the draw.io
    executable, and the headless display wrapper `xvfb-run` when one is
    configured, can be started, and converts one diagram per call by running
    draw.io and then checking that the output file exists. */
module Drawio {
  import opened Common
  import opened System

  /** The renderer's `-f` argument. */
  function FormatString(format: OutputFormat): (s: string)
    ensures s == "pdf" <==> format == Pdf
    ensures s == "svg" <==> format == Svg
  {
    match format
    case Pdf => "pdf"
    case Svg => "svg"
  }

  /** The lightweight invocation used to check that a tool can be started. */
  function ProbeCommand(program: string): Command
  {
    Command(program, ["--help"])
  }

  /** Whether an exit status means that the renderer found no display:
      status 133, or no status at all (the process was ended by a signal). */
  predicate DisplayFailure(status: Option<int>)
  {
    status == None || status == Some(133)
  }

  /** How the result of running the renderer is judged. The renderer may
      exit successfully without having converted anything, so apart from
      the display failures the verdict rests on the output file alone. */
  function Classify(out: Option<ProcessOutput>, output: Path): (r: Result<()>)
    ensures r == Err(CommandNotExecuted) <==> out.None?
    ensures r == Err(DisplayUnavailable) <==> out.Some? && DisplayFailure(out.value.status)
    ensures r.Ok? <==> out.Some? && !DisplayFailure(out.value.status) && output in out.value.files
    ensures out.Some? && !DisplayFailure(out.value.status) && output !in out.value.files ==>
              r == Err(OutputNotCreated(output, out.value.stdout))
  {
    match out
    case None => Err(CommandNotExecuted)
    case Some(o) =>
      if DisplayFailure(o.status) then Err(DisplayUnavailable)
      else if output !in o.files then Err(OutputNotCreated(output, o.stdout))
      else Ok(())
  }

  /** The files after `Command::output`: what the process left, or the files
      as they were when it could not be started. */
  function FilesAfter(out: Option<ProcessOutput>, files: set<Path>): set<Path>
  {
    if out.Some? then out.value.files else files
  }

  datatype DrawioConverter = DrawioConverter(drawioPath: string, xvfbRunPath: Option<string>) {

    /** The renderer's command line: draw.io directly, or as the first
        argument of `xvfb-run`, followed by the fixed conversion arguments. */
    function ConversionCommand(input: Path, output: Path, format: OutputFormat): (cmd: Command)
      ensures xvfbRunPath.Some? ==> cmd.program == xvfbRunPath.value
      ensures xvfbRunPath.None? ==> cmd.program == drawioPath
      ensures cmd.args == (if xvfbRunPath.Some? then [drawioPath] else []) +
                          ["--crop", "-x", "-o", output, "-f", FormatString(format), input,
                           "--no-sandbox", "--disable-gpu", "--disable-dev-shm-usage"]
    {
      var start := if xvfbRunPath.Some? then Command(xvfbRunPath.value, []).Arg(drawioPath) else Command(drawioPath, []);
      assert start.args == if xvfbRunPath.Some? then [drawioPath] else [];
      TwoArgs(start, "--crop", "-x");
      var cropped := start.Arg("--crop").Arg("-x");
      TwoArgs(cropped, "-o", output);
      var targeted := cropped.Arg("-o").Arg(output);
      TwoArgs(targeted, "-f", FormatString(format));
      var formatted := targeted.Arg("-f").Arg(FormatString(format));
      TwoArgs(formatted, input, "--no-sandbox");
      var sandboxed := formatted.Arg(input).Arg("--no-sandbox");
      TwoArgs(sandboxed, "--disable-gpu", "--disable-dev-shm-usage");
      sandboxed.Arg("--disable-gpu").Arg("--disable-dev-shm-usage")
    }

    /** `convert_to`: render `input` into `output` in `format`. */
    method ConvertTo(input: Path, output: Path, format: OutputFormat, host: Host) returns (r: Result<()>)
      modifies host
      ensures Effect(r, host.files) == ConvertToEffect(this, input, output, format, old(host.files), host.env)
    {
      if !host.Exists(input) {
        return Err(InputNotFound(input));
      }
      if host.Exists(output) {
        var removed := host.RemoveFile(output);
        if !removed {
          return Err(OutputCleanupFailed(output));
        }
      }
      assert host.files == old(host.files) - {output};
      var cmd := ConversionCommand(input, output, format);
      var out := host.Output(cmd);
      if out.None? {
        return Err(CommandNotExecuted);
      }
      if DisplayFailure(out.value.status) {
        return Err(DisplayUnavailable);
      }
      if !host.Exists(output) {
        return Err(OutputNotCreated(output, out.value.stdout));
      }
      return Ok(());
    }
  }

  /** What `convert_to` does to the files, and what it returns. */
  function ConvertToEffect(converter: DrawioConverter, input: Path, output: Path, format: OutputFormat,
                           files: set<Path>, env: Environment): (r: Effect<()>)
    // a missing input is reported before anything is removed or run
    ensures input !in files ==> r == Effect(Err(InputNotFound(input)), files)
    // a stale output that cannot be removed stops the conversion before the renderer runs
    ensures input in files && output in files && output in env.protected ==>
              r == Effect(Err(OutputCleanupFailed(output)), files)
    // otherwise the renderer runs on the files without the stale output, and its run is classified
    ensures input in files && !(output in files && output in env.protected) ==>
              var out := env.run(converter.ConversionCommand(input, output, format), files - {output});
              r == Effect(Classify(out, output), FilesAfter(out, files - {output}))
    // success means that the output file exists afterwards
    ensures r.result.Ok? ==> output in r.files
  {
    if input !in files then Effect(Err(InputNotFound(input)), files)
    else if output in files && output in env.protected then Effect(Err(OutputCleanupFailed(output)), files)
    else
      var cleaned := files - {output};
      var out := env.run(converter.ConversionCommand(input, output, format), cleaned);
      Effect(Classify(out, output), FilesAfter(out, cleaned))
  }

  /** `new`: probe `xvfb-run` (only when configured), then draw.io. */
  method New(xvfbRunPath: Option<string>, drawioPath: string, host: Host) returns (r: Result<DrawioConverter>)
    modifies host
    ensures Effect(r, host.files) == NewEffect(xvfbRunPath, drawioPath, old(host.files), host.env)
  {
    if xvfbRunPath.Some? {
      var probe := host.Output(ProbeCommand(xvfbRunPath.value));
      if probe.None? {
        return Err(ToolUnavailable(xvfbRunPath.value));
      }
    }
    var probe := host.Output(ProbeCommand(drawioPath));
    if probe.None? {
      return Err(ToolUnavailable(drawioPath));
    }
    return Ok(DrawioConverter(drawioPath, xvfbRunPath));
  }

  /** Probing `drawioPath` after the wrapper, if any, has been probed. */
  function ProbeDrawio(xvfbRunPath: Option<string>, drawioPath: string, files: set<Path>, env: Environment): (r: Effect<DrawioConverter>)
    ensures r.result.Ok? <==> env.run(ProbeCommand(drawioPath), files).Some?
    ensures r.result.Ok? ==> r.result.value == DrawioConverter(drawioPath, xvfbRunPath)
    ensures r.result.Err? ==> r.result.error == ToolUnavailable(drawioPath)
    ensures r.files == FilesAfter(env.run(ProbeCommand(drawioPath), files), files)
  {
    var probe := env.run(ProbeCommand(drawioPath), files);
    if probe.None? then Effect(Err(ToolUnavailable(drawioPath)), files)
    else Effect(Ok(DrawioConverter(drawioPath, xvfbRunPath)), probe.value.files)
  }

  function NewEffect(xvfbRunPath: Option<string>, drawioPath: string, files: set<Path>, env: Environment): (r: Effect<DrawioConverter>)
    // without a wrapper only draw.io is probed
    ensures xvfbRunPath.None? ==> r == ProbeDrawio(xvfbRunPath, drawioPath, files, env)
    // a wrapper that cannot be started is reported before draw.io is probed
    ensures xvfbRunPath.Some? && env.run(ProbeCommand(xvfbRunPath.value), files).None? ==>
              r == Effect(Err(ToolUnavailable(xvfbRunPath.value)), files)
    // otherwise draw.io is probed after the wrapper
    ensures xvfbRunPath.Some? && env.run(ProbeCommand(xvfbRunPath.value), files).Some? ==>
              r == ProbeDrawio(xvfbRunPath, drawioPath, env.run(ProbeCommand(xvfbRunPath.value), files).value.files, env)
    // on success both paths are kept unchanged
    ensures r.result.Ok? ==> r.result.value == DrawioConverter(drawioPath, xvfbRunPath)
    ensures r.result.Err? ==> r.result.error == ToolUnavailable(drawioPath) ||
                              (xvfbRunPath.Some? && r.result.error == ToolUnavailable(xvfbRunPath.value))
  {
    match xvfbRunPath
    case None => ProbeDrawio(xvfbRunPath, drawioPath, files, env)
    case Some(wrapper) =>
      var probe := env.run(ProbeCommand(wrapper), files);
      if probe.None? then Effect(Err(ToolUnavailable(wrapper)), files)
      else ProbeDrawio(xvfbRunPath, drawioPath, probe.value.files, env)
  }
}
