/** The conversion policy (src/cache.rs). `ConverterCache` is the
    abstraction over caching strategies; the only strategy is the one that
    never caches: it names the output after the input, with the extension of
    the target format, and always asks the renderer to convert. */
module Cache {
  import opened Common
  import opened Paths
  import opened System
  import opened Drawio

  /** The extension of a rendered file. */
  function OutputExtension(format: OutputFormat): (e: string)
    ensures e == "pdf" <==> format == Pdf
    ensures e == "svg" <==> format == Svg
    ensures PlainExtension(e)
  {
    match format
    case Pdf => "pdf"
    case Svg => "svg"
  }

  /** The path of the rendered file: the input path with its extension
      replaced. It lies in the same directory, keeps the stem, and has the
      target format's extension, so it is never a `drawio` path. */
  function OutputPath(input: Path, format: OutputFormat): (out: Path)
    ensures Directory(out) == Directory(input)
    ensures FileName(input).Some? ==> FileName(out).Some? && Stem(FileName(out).value) == Stem(FileName(input).value)
    ensures FileName(input).Some? ==> Extension(out) == Some(OutputExtension(format))
    ensures FileName(input).None? ==> out == input
    ensures Extension(out) != Some("drawio")
  {
    var out := WithExtension(input, OutputExtension(format));
    if FileName(input).Some? then
      WithExtensionSetsExtension(input, OutputExtension(format));
      out
    else
      out
  }

  datatype ConverterCache = NoCacheConverter(converter: DrawioConverter) {

    /** `convert`: render `input` in `format` and return the rendered file's path. */
    method Convert(input: Path, format: OutputFormat, host: Host) returns (r: Result<Path>)
      modifies host
      ensures Effect(r, host.files) == ConvertEffect(this, input, format, old(host.files), host.env)
    {
      var output := OutputPath(input, format);
      var converted := converter.ConvertTo(input, output, format, host);
      if converted.Err? {
        return Err(ConversionFailed(input, output, converted.error));
      }
      return Ok(output);
    }
  }

  /** What `convert` does to the files, and what it returns: the renderer is
      asked for exactly `OutputPath(input, format)` in `format`; its failure
      is passed on with both paths as context, and its success yields that
      path, which then exists. */
  function ConvertEffect(cache: ConverterCache, input: Path, format: OutputFormat,
                         files: set<Path>, env: Environment): (r: Effect<Path>)
    ensures var rendered := ConvertToEffect(cache.converter, input, OutputPath(input, format), format, files, env);
            && r.files == rendered.files
            && (r.result.Ok? <==> rendered.result.Ok?)
            && (r.result.Err? ==> r.result.error == ConversionFailed(input, OutputPath(input, format), rendered.result.error))
    ensures r.result.Ok? ==> r.result.value == OutputPath(input, format) && r.result.value in r.files
    ensures r.result.Ok? ==> Extension(r.result.value) != Some("drawio")
  {
    var output := OutputPath(input, format);
    var rendered := ConvertToEffect(cache.converter, input, output, format, files, env);
    match rendered.result
    case Err(e) => Effect(Err(ConversionFailed(input, output, e)), rendered.files)
    case Ok(_) => Effect(Ok(output), rendered.files)
  }
}
