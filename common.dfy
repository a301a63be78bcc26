/** Values shared by every part of the filter: paths, the two target image
    formats, and the error/result types through which each stage reports
    failure to its caller. */
module Common {

  /** A filesystem path, as the `/`-separated text the document carries. */
  type Path = string

  datatype Option<+T> = None | Some(value: T)

  /** The formats the renderer can produce for a diagram (src/cache.rs). */
  datatype OutputFormat = Pdf | Svg

  /** The failures the filter can report. The `...Failed` constructors carry
      the context that the caller attaches while propagating a cause. */
  datatype Error =
    | UnsupportedFormat(format: string)
    | ToolUnavailable(tool: Path)
    | InputNotFound(input: Path)
    | OutputCleanupFailed(output: Path)
    | CommandNotExecuted
    | DisplayUnavailable
    | OutputNotCreated(output: Path, stdout: seq<bv8>)
    | ConversionFailed(input: Path, output: Path, cause: Error)
    | OutputFormatConversionFailed(cause: Error)
    | ImageConversionFailed(cause: Error)
    | ConverterCreationFailed(cause: Error)

  datatype Result<+T> = Ok(value: T) | Err(error: Error)
}
