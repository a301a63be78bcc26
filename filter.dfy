/** The orchestrator (src/main.rs): it selects the images whose url has the
    extension `drawio`, converts them one after the other, rewrites each url
    to the rendered file, and emits the document only when every conversion
    succeeded. */
module Filter {
  import opened Common
  import opened Paths
  import opened Pandoc
  import opened System
  import opened Drawio
  import opened Cache

  /** The resolved command line. */
  datatype Config = Config(format: string, xvfbRunCmd: Option<string>, drawioCmd: string, credits: bool)

  /** What the filter writes to standard output. */
  datatype Emitted = Credits | Document(blocks: seq<Block>)

  /** The outcome of converting images, with the document and the files
      after it. */
  datatype Run = Run(result: Result<()>, blocks: seq<Block>, files: set<Path>)

  /** The image format to render for pandoc's output format. */
  function OutputFormatFor(format: string): (r: Option<OutputFormat>)
    ensures r == Some(Pdf) <==> format in {"pdf", "latex", "context"}
    ensures r == Some(Svg) <==> format in {"html", "html5", "html4"}
    ensures r == None <==> format !in {"pdf", "latex", "context", "html", "html5", "html4"}
  {
    match format
    case "pdf" => Some(Pdf)
    case "latex" => Some(Pdf)
    case "context" => Some(Pdf)
    case "html" => Some(Svg)
    case "html5" => Some(Svg)
    case "html4" => Some(Svg)
    case _ => None
  }

  /** Whether a url names a diagram: its extension is exactly `drawio`. */
  predicate IsDrawio(url: string)
  {
    Extension(url) == Some("drawio")
  }

  /** A hidden file named `.drawio` has no extension, so it is not selected. */
  lemma HiddenDrawioIsNotSelected(dir: Path)
    requires dir == [] || dir[|dir| - 1] == '/'
    ensures !IsDrawio(dir + ".drawio")
  {
    var name := ".drawio";
    assert forall i :: 0 < i < |name| ==> name[i] != '.';
    LastIndexOfIs(name, '.', 0);
    ExtensionOfName(dir, name);
  }

  /** The handles among `hs` whose image url names a diagram, in their order. */
  function SelectDrawio(blocks: seq<Block>, hs: seq<Handle>): (r: seq<Handle>)
    requires forall h :: h in hs ==> IsImageAt(blocks, h)
    ensures forall h :: h in r <==> h in hs && IsDrawio(ImageUrl(blocks, h))
    ensures Increasing(hs) ==> Increasing(r)
  {
    if hs == [] then []
    else
      var rest := SelectDrawio(blocks, hs[1..]);
      if IsDrawio(ImageUrl(blocks, hs[0])) then
        assert Increasing(hs) ==> Increasing([hs[0]] + rest) by {
          if Increasing(hs) {
            IncreasingTail(hs);
            IncreasingCons(hs[0], rest);
          }
        }
        [hs[0]] + rest
      else rest
  }

  /** The handles of a sequence, as a set. */
  function Positions(hs: seq<Handle>): set<Handle>
  {
    set h | h in hs
  }

  /** The positions of the images whose url names a diagram. */
  ghost function DrawioImages(blocks: seq<Block>): set<Handle>
  {
    set b, i | 0 <= b < |blocks| && 0 <= i < |blocks[b].inlines| &&
               blocks[b].inlines[i].Image? && IsDrawio(blocks[b].inlines[i].target.url) :: Handle(b, i)
  }

  /** How a converted image's url is renamed. */
  function Renamer(format: OutputFormat): string -> string
  {
    url => OutputPath(url, format)
  }

  /** The document the filter is meant to produce: every image whose url
      names a diagram points to the rendered file instead, in the same
      directory and with the target format's extension; every other inline
      element is as it was. */
  ghost function ConvertedDocument(blocks: seq<Block>, format: OutputFormat): (r: seq<Block>)
    ensures SameShape(blocks, r)
    ensures forall b, i :: 0 <= b < |blocks| && 0 <= i < |blocks[b].inlines| ==>
              var inline := blocks[b].inlines[i];
              r[b].inlines[i] == if inline.Image? && IsDrawio(inline.target.url)
                                 then WithUrl(inline, OutputPath(inline.target.url, format))
                                 else inline
  {
    RewriteAt(blocks, DrawioImages(blocks), Renamer(format))
  }

  /** `convert_image`, on values. */
  function ConvertImageEffect(cache: ConverterCache, blocks: seq<Block>, image: Handle, format: string,
                              files: set<Path>, env: Environment): (r: Run)
    requires IsImageAt(blocks, image)
    ensures SameShape(blocks, r.blocks)
    // an unknown format fails before the converter is asked for anything
    ensures OutputFormatFor(format).None? ==> r == Run(Err(UnsupportedFormat(format)), blocks, files)
    // the url is rewritten to the returned path exactly when the conversion succeeds
    ensures r.result.Ok? ==>
              && OutputFormatFor(format).Some?
              && r.blocks == WithImageUrl(blocks, image, OutputPath(ImageUrl(blocks, image), OutputFormatFor(format).value))
    ensures r.result.Err? ==> r.blocks == blocks
    // the converter is asked for the image's url in the mapped format
    ensures OutputFormatFor(format).Some? ==>
              var converted := ConvertEffect(cache, ImageUrl(blocks, image), OutputFormatFor(format).value, files, env);
              && r.files == converted.files
              && (r.result.Ok? <==> converted.result.Ok?)
              && (r.result.Err? ==> r.result.error == OutputFormatConversionFailed(converted.result.error))
  {
    var url := ImageUrl(blocks, image);
    match OutputFormatFor(format)
    case None => Run(Err(UnsupportedFormat(format)), blocks, files)
    case Some(outputFormat) =>
      var converted := ConvertEffect(cache, url, outputFormat, files, env);
      match converted.result
      case Err(e) => Run(Err(OutputFormatConversionFailed(e)), blocks, converted.files)
      case Ok(output) => Run(Ok(()), WithImageUrl(blocks, image, output), converted.files)
  }

  /** The conversion loop of `main`, on values: images are converted in
      order, and the first failure ends the loop. */
  function ConvertImagesEffect(cache: ConverterCache, blocks: seq<Block>, images: seq<Handle>, format: string,
                               files: set<Path>, env: Environment): (r: Run)
    requires forall h :: h in images ==> IsImageAt(blocks, h)
    ensures SameShape(blocks, r.blocks)
    decreases |images|
  {
    if images == [] then Run(Ok(()), blocks, files)
    else
      var step := ConvertImageEffect(cache, blocks, images[0], format, files, env);
      if step.result.Err? then Run(Err(ImageConversionFailed(step.result.error)), step.blocks, step.files)
      else
        assert forall h :: h in images[1..] ==> IsImageAt(step.blocks, h) by {
          forall h | h in images[1..] ensures IsImageAt(step.blocks, h) {
            assert h in images;
          }
        }
        var rest := ConvertImagesEffect(cache, step.blocks, images[1..], format, step.files, env);
        SameShapeTransitive(blocks, step.blocks, rest.blocks);
        rest
  }

  /** `convert_image`. */
  method ConvertImage(cache: ConverterCache, doc: PandocDocument, image: Handle, format: string, host: Host)
    returns (r: Result<()>)
    requires IsImageAt(doc.blocks, image)
    modifies doc, host
    ensures Run(r, doc.blocks, host.files) == ConvertImageEffect(cache, old(doc.blocks), image, format, old(host.files), host.env)
  {
    var url := ImageUrl(doc.blocks, image);
    var outputFormat := OutputFormatFor(format);
    if outputFormat.None? {
      return Err(UnsupportedFormat(format));
    }
    var output := cache.Convert(url, outputFormat.value, host);
    if output.Err? {
      return Err(OutputFormatConversionFailed(output.error));
    }
    doc.SetImageUrl(image, output.value);
    return Ok(());
  }

  /** The `for` loop of `main` over the selected images. */
  method ConvertImages(cache: ConverterCache, doc: PandocDocument, images: seq<Handle>, format: string, host: Host)
    returns (r: Result<()>)
    requires forall h :: h in images ==> IsImageAt(doc.blocks, h)
    modifies doc, host
    ensures Run(r, doc.blocks, host.files) == ConvertImagesEffect(cache, old(doc.blocks), images, format, old(host.files), host.env)
  {
    var i := 0;
    while i < |images|
      invariant 0 <= i <= |images|
      invariant forall h :: h in images[i..] ==> IsImageAt(doc.blocks, h)
      invariant ConvertImagesEffect(cache, old(doc.blocks), images, format, old(host.files), host.env)
                == ConvertImagesEffect(cache, doc.blocks, images[i..], format, host.files, host.env)
    {
      assert images[i..][0] == images[i] && images[i..][1..] == images[i + 1..];
      var converted := ConvertImage(cache, doc, images[i], format, host);
      if converted.Err? {
        return Err(ImageConversionFailed(converted.error));
      }
      i := i + 1;
    }
    return Ok(());
  }

  /** The images `main` converts: those whose url names a diagram, in
      document order. */
  function DrawioHandles(blocks: seq<Block>): (r: seq<Handle>)
    ensures forall h :: h in r ==> IsImageAt(blocks, h)
    ensures forall h :: h in r <==> IsImageAt(blocks, h) && IsDrawio(ImageUrl(blocks, h))
    ensures Increasing(r)
  {
    SelectDrawio(blocks, GetAllImages(blocks))
  }

  /** Converting every diagram image of a document. */
  function ConvertDocument(cache: ConverterCache, blocks: seq<Block>, format: string, files: set<Path>, env: Environment): Run
  {
    ConvertImagesEffect(cache, blocks, DrawioHandles(blocks), format, files, env)
  }

  /** What is written once the conversions are over: the document, or
      nothing when one of them failed. */
  function Emit(run: Run): (r: Effect<Emitted>)
    ensures r.files == run.files
    ensures r.result.Ok? <==> run.result.Ok?
    ensures r.result.Ok? ==> r.result.value == Document(run.blocks)
    ensures r.result.Err? ==> r.result.error == run.result.error
  {
    if run.result.Err? then Effect(Err(run.result.error), run.files)
    else Effect(Ok(Document(run.blocks)), run.files)
  }

  /** The whole filter, on values. */
  function FilterEffect(config: Config, blocks: seq<Block>, files: set<Path>, env: Environment): Effect<Emitted>
  {
    if config.credits then Effect(Ok(Credits), files)
    else
      var made := NewEffect(config.xvfbRunCmd, config.drawioCmd, files, env);
      match made.result
      case Err(e) => Effect(Err(ConverterCreationFailed(e)), made.files)
      case Ok(drawio) => Emit(ConvertDocument(NoCacheConverter(drawio), blocks, config.format, made.files, env))
  }

  /** `main`, from the resolved command line and the parsed document to what
      is written to standard output (nothing on failure). */
  method RunFilter(config: Config, input: seq<Block>, host: Host) returns (r: Result<Emitted>)
    modifies host
    ensures Effect(r, host.files) == FilterEffect(config, input, old(host.files), host.env)
  {
    if config.credits {
      return Ok(Credits);
    }
    var drawio := New(config.xvfbRunCmd, config.drawioCmd, host);
    if drawio.Err? {
      return Err(ConverterCreationFailed(drawio.error));
    }
    var converter := NoCacheConverter(drawio.value);
    var pandoc := new PandocDocument(input);
    var drawioImages := DrawioHandles(pandoc.blocks);
    var converted := ConvertImages(converter, pandoc, drawioImages, config.format, host);
    if converted.Err? {
      return Err(converted.error);
    }
    return Ok(Document(pandoc.blocks));
  }

  /** The credits run writes the credits and touches nothing else. */
  lemma CreditsOnly(config: Config, blocks: seq<Block>, files: set<Path>, env: Environment)
    requires config.credits
    ensures FilterEffect(config, blocks, files, env) == Effect(Ok(Credits), files)
  {
  }

  /** A tool that cannot be started stops the run before any image is
      looked at: its error is the run's error and nothing is written. */
  lemma ProbeFailureStops(config: Config, blocks: seq<Block>, files: set<Path>, env: Environment)
    requires !config.credits
    requires NewEffect(config.xvfbRunCmd, config.drawioCmd, files, env).result.Err?
    ensures var made := NewEffect(config.xvfbRunCmd, config.drawioCmd, files, env);
            FilterEffect(config, blocks, files, env) == Effect(Err(ConverterCreationFailed(made.result.error)), made.files)
  {
  }

  /** A failed conversion after successful probing is the run's failure:
      its error and its files are the run's, and nothing is written. */
  lemma ConversionFailureStops(config: Config, blocks: seq<Block>, files: set<Path>, env: Environment)
    requires !config.credits
    requires NewEffect(config.xvfbRunCmd, config.drawioCmd, files, env).result.Ok?
    requires var made := NewEffect(config.xvfbRunCmd, config.drawioCmd, files, env);
             ConvertDocument(NoCacheConverter(made.result.value), blocks, config.format, made.files, env).result.Err?
    ensures var made := NewEffect(config.xvfbRunCmd, config.drawioCmd, files, env);
            var run := ConvertDocument(NoCacheConverter(made.result.value), blocks, config.format, made.files, env);
            FilterEffect(config, blocks, files, env) == Effect(Err(run.result.error), run.files)
  {
  }

  /** Converting `first + rest` is converting `first` and, if that
      succeeded, converting `rest` from where it left off: once an image
      fails, no later image is converted and the run ends as it stood. */
  lemma {:induction false} ConvertImagesSplit(cache: ConverterCache, blocks: seq<Block>, first: seq<Handle>, rest: seq<Handle>,
                                              format: string, files: set<Path>, env: Environment)
    requires forall h :: h in first ==> IsImageAt(blocks, h)
    requires forall h :: h in rest ==> IsImageAt(blocks, h)
    ensures var run := ConvertImagesEffect(cache, blocks, first, format, files, env);
            && (run.result.Err? ==> ConvertImagesEffect(cache, blocks, first + rest, format, files, env) == run)
            && (run.result.Ok? ==> ConvertImagesEffect(cache, blocks, first + rest, format, files, env)
                                   == ConvertImagesEffect(cache, run.blocks, rest, format, run.files, env))
    decreases |first|
  {
    if first == [] {
      assert first + rest == rest;
    } else {
      assert (first + rest)[0] == first[0];
      assert (first + rest)[1..] == first[1..] + rest;
      var step := ConvertImageEffect(cache, blocks, first[0], format, files, env);
      if step.result.Ok? {
        assert forall h :: h in first[1..] ==> h in first;
        ConvertImagesSplit(cache, step.blocks, first[1..], rest, format, step.files, env);
      }
    }
  }

  /** Converting one image of a document whose images in `S` are already
      renamed renames that image too, when it succeeds. */
  lemma ConvertImageRewrites(cache: ConverterCache, original: seq<Block>, S: set<Handle>, h: Handle,
                             format: string, fmt: OutputFormat, files: set<Path>, env: Environment)
    requires OutputFormatFor(format) == Some(fmt)
    requires IsImageAt(original, h) && h !in S
    ensures IsImageAt(RewriteAt(original, S, Renamer(fmt)), h)
    ensures var step := ConvertImageEffect(cache, RewriteAt(original, S, Renamer(fmt)), h, format, files, env);
            step.result.Ok? ==> step.blocks == RewriteAt(original, S + {h}, Renamer(fmt))
  {
    var rename := Renamer(fmt);
    RewriteOneMore(original, S, h, rename);
    var url := ImageUrl(original, h);
    assert rename(url) == OutputPath(url, fmt);
  }

  /** The images after the first of an increasing sequence are not the first. */
  lemma TailAfterHead(images: seq<Handle>, S: set<Handle>, blocks: seq<Block>)
    requires images != [] && Distinct(images)
    requires forall h :: h in images ==> IsImageAt(blocks, h) && h !in S
    ensures Distinct(images[1..])
    ensures forall g :: g in images[1..] ==> IsImageAt(blocks, g) && g !in S + {images[0]}
  {
    DistinctTail(images);
    forall g | g in images[1..] ensures IsImageAt(blocks, g) && g !in S + {images[0]} {
      assert g in images;
    }
  }

  /** After a successful first conversion, the loop goes on with the rest. */
  lemma ConvertImagesAfterFirst(cache: ConverterCache, blocks: seq<Block>, images: seq<Handle>, format: string,
                                files: set<Path>, env: Environment)
    requires images != []
    requires forall h :: h in images ==> IsImageAt(blocks, h)
    ensures var step := ConvertImageEffect(cache, blocks, images[0], format, files, env);
            step.result.Err? ==> ConvertImagesEffect(cache, blocks, images, format, files, env).result.Err?
    ensures var step := ConvertImageEffect(cache, blocks, images[0], format, files, env);
            step.result.Ok? ==>
              && (forall h :: h in images[1..] ==> IsImageAt(step.blocks, h))
              && ConvertImagesEffect(cache, blocks, images, format, files, env)
                 == ConvertImagesEffect(cache, step.blocks, images[1..], format, step.files, env)
  {
    var step := ConvertImageEffect(cache, blocks, images[0], format, files, env);
    forall h | h in images[1..] ensures IsImageAt(step.blocks, h) {
      assert h in images;
    }
  }

  /** The positions of a nonempty sequence are its head's and its tail's. */
  lemma HeadAndTail(S: set<Handle>, images: seq<Handle>)
    requires images != []
    ensures (S + {images[0]}) + Positions(images[1..]) == S + Positions(images)
  {
    assert images == [images[0]] + images[1..];
  }

  /** The first step of `ConvertImagesRewrites`: converting the first image
      renames it, and the loop goes on with the rest, which are distinct
      from it. */
  lemma ConvertFirstRewrites(cache: ConverterCache, original: seq<Block>, S: set<Handle>, images: seq<Handle>,
                             format: string, fmt: OutputFormat, files: set<Path>, env: Environment)
    requires OutputFormatFor(format) == Some(fmt)
    requires images != [] && Distinct(images)
    requires forall h :: h in images ==> IsImageAt(original, h) && h !in S
    ensures forall h :: h in images ==> IsImageAt(RewriteAt(original, S, Renamer(fmt)), h)
    ensures var blocks := RewriteAt(original, S, Renamer(fmt));
            var step := ConvertImageEffect(cache, blocks, images[0], format, files, env);
            && (step.result.Err? ==> ConvertImagesEffect(cache, blocks, images, format, files, env).result.Err?)
            && (step.result.Ok? ==>
                  && step.blocks == RewriteAt(original, S + {images[0]}, Renamer(fmt))
                  && Distinct(images[1..])
                  && (forall g :: g in images[1..] ==> IsImageAt(original, g) && g !in S + {images[0]})
                  && (forall g :: g in images[1..] ==> IsImageAt(step.blocks, g))
                  && ConvertImagesEffect(cache, blocks, images, format, files, env)
                     == ConvertImagesEffect(cache, step.blocks, images[1..], format, step.files, env)
                  && (S + {images[0]}) + Positions(images[1..]) == S + Positions(images))
  {
    var blocks := RewriteAt(original, S, Renamer(fmt));
    ConvertImageRewrites(cache, original, S, images[0], format, fmt, files, env);
    TailAfterHead(images, S, original);
    ConvertImagesAfterFirst(cache, blocks, images, format, files, env);
    HeadAndTail(S, images);
  }

  /** A successful conversion of distinct images, started from a document
      whose images in `S` are already renamed, renames those images too. */
  lemma {:induction false} ConvertImagesRewrites(cache: ConverterCache, original: seq<Block>, S: set<Handle>, start: seq<Block>,
                                                 images: seq<Handle>, format: string, fmt: OutputFormat,
                                                 files: set<Path>, env: Environment, T: set<Handle>)
    requires OutputFormatFor(format) == Some(fmt)
    requires start == RewriteAt(original, S, Renamer(fmt))
    requires Distinct(images)
    requires forall h :: h in images ==> IsImageAt(original, h) && h !in S
    requires T == S + Positions(images)
    ensures forall h :: h in images ==> IsImageAt(start, h)
    ensures var run := ConvertImagesEffect(cache, start, images, format, files, env);
            run.result.Ok? ==> run.blocks == RewriteAt(original, T, Renamer(fmt))
    decreases |images|
  {
    if images == [] {
      assert T == S;
    } else {
      ConvertFirstRewrites(cache, original, S, images, format, fmt, files, env);
      var step := ConvertImageEffect(cache, start, images[0], format, files, env);
      if step.result.Ok? {
        ConvertImagesRewrites(cache, original, S + {images[0]}, step.blocks, images[1..], format, fmt, step.files, env, T);
      }
    }
  }

  /** The handles the filter selects are exactly the positions of the
      images whose url names a diagram. */
  lemma SelectedAreDrawioImages(blocks: seq<Block>)
    ensures Positions(DrawioHandles(blocks)) == DrawioImages(blocks)
  {
    var selected := DrawioHandles(blocks);
    forall h | h in DrawioImages(blocks) ensures h in selected {
      assert IsImageAt(blocks, h);
    }
  }

  /** The converted document renames exactly the images the filter selects. */
  lemma ConvertedDocumentIs(blocks: seq<Block>, format: OutputFormat)
    ensures ConvertedDocument(blocks, format) == RewriteAt(blocks, Positions(DrawioHandles(blocks)), Renamer(format))
  {
    SelectedAreDrawioImages(blocks);
  }

  /** A successful conversion of a document's diagram images yields the
      converted document. */
  lemma ConvertDocumentConverts(cache: ConverterCache, blocks: seq<Block>, format: string, files: set<Path>, env: Environment)
    requires OutputFormatFor(format).Some?
    ensures var run := ConvertDocument(cache, blocks, format, files, env);
            run.result.Ok? ==> run.blocks == ConvertedDocument(blocks, OutputFormatFor(format).value)
  {
    var fmt := OutputFormatFor(format).value;
    IncreasingIsDistinct(DrawioHandles(blocks));
    ConvertImagesRenames(cache, blocks, DrawioHandles(blocks), format, fmt, files, env);
    ConvertedDocumentIs(blocks, fmt);
  }

  /** A successful conversion of distinct images renames exactly those. */
  lemma ConvertImagesRenames(cache: ConverterCache, blocks: seq<Block>, images: seq<Handle>, format: string, fmt: OutputFormat,
                             files: set<Path>, env: Environment)
    requires OutputFormatFor(format) == Some(fmt)
    requires Distinct(images)
    requires forall h :: h in images ==> IsImageAt(blocks, h)
    ensures var run := ConvertImagesEffect(cache, blocks, images, format, files, env);
            run.result.Ok? ==> run.blocks == RewriteAt(blocks, Positions(images), Renamer(fmt))
  {
    RewriteNowhere(blocks, Renamer(fmt));
    assert {} + Positions(images) == Positions(images);
    ConvertImagesRewrites(cache, blocks, {}, blocks, images, format, fmt, files, env, Positions(images));
  }

  /** On success the document depends only on which images were converted,
      not on the order: two runs over the same distinct images in different
      orders, each from its own files, give the same document when both
      succeed. */
  lemma ConvertOrderIndependent(cache: ConverterCache, blocks: seq<Block>, images: seq<Handle>, images': seq<Handle>,
                                format: string, files: set<Path>, files': set<Path>, env: Environment)
    requires OutputFormatFor(format).Some?
    requires Distinct(images) && Distinct(images')
    requires Positions(images) == Positions(images')
    requires forall h :: h in images ==> IsImageAt(blocks, h)
    requires forall h :: h in images' ==> IsImageAt(blocks, h)
    ensures var run := ConvertImagesEffect(cache, blocks, images, format, files, env);
            var run' := ConvertImagesEffect(cache, blocks, images', format, files', env);
            run.result.Ok? && run'.result.Ok? ==> run.blocks == run'.blocks
  {
    var fmt := OutputFormatFor(format).value;
    ConvertImagesRenames(cache, blocks, images, format, fmt, files, env);
    ConvertImagesRenames(cache, blocks, images', format, fmt, files', env);
  }

  /** A document without diagram images has no handle to convert. */
  lemma NoHandlesWithoutDiagrams(blocks: seq<Block>)
    requires DrawioImages(blocks) == {}
    ensures DrawioHandles(blocks) == []
  {
    SelectedAreDrawioImages(blocks);
    var images := DrawioHandles(blocks);
    if images != [] {
      NonemptyPositions(images);
    }
  }

  lemma NonemptyPositions(hs: seq<Handle>)
    requires hs != []
    ensures Positions(hs) != {}
  {
    assert hs[0] in Positions(hs);
  }

  /** Without diagram images nothing is converted, whatever the format. */
  lemma ConvertDocumentWithoutDiagrams(cache: ConverterCache, blocks: seq<Block>, format: string, files: set<Path>, env: Environment)
    requires DrawioImages(blocks) == {}
    ensures ConvertDocument(cache, blocks, format, files, env) == Run(Ok(()), blocks, files)
  {
    NoHandlesWithoutDiagrams(blocks);
  }

  /** With an unsupported format, a document with a diagram image fails on
      its first diagram, before the converter is asked for anything. */
  lemma ConvertDocumentUnsupportedFormat(cache: ConverterCache, blocks: seq<Block>, format: string, files: set<Path>, env: Environment)
    requires OutputFormatFor(format).None?
    requires DrawioImages(blocks) != {}
    ensures ConvertDocument(cache, blocks, format, files, env) == Run(Err(ImageConversionFailed(UnsupportedFormat(format))), blocks, files)
  {
    SelectedAreDrawioImages(blocks);
    var images := DrawioHandles(blocks);
    var h :| h in DrawioImages(blocks);
    assert h in Positions(images);
  }

  /** What a successful run of the filter writes: the document with every
      diagram image pointing to its rendered file and everything else as it
      was. An unsupported format can only succeed on a document without
      diagrams, which is written unchanged. */
  lemma FilterConverts(config: Config, blocks: seq<Block>, files: set<Path>, env: Environment)
    requires !config.credits
    ensures var r := FilterEffect(config, blocks, files, env);
            r.result.Ok? ==> r.result.value.Document?
    ensures var r := FilterEffect(config, blocks, files, env);
            r.result.Ok? && OutputFormatFor(config.format).Some? ==>
              r.result.value.blocks == ConvertedDocument(blocks, OutputFormatFor(config.format).value)
    ensures var r := FilterEffect(config, blocks, files, env);
            r.result.Ok? && OutputFormatFor(config.format).None? ==>
              DrawioImages(blocks) == {} && r.result.value.blocks == blocks
  {
    var made := NewEffect(config.xvfbRunCmd, config.drawioCmd, files, env);
    if made.result.Ok? {
      var cache := NoCacheConverter(made.result.value);
      if OutputFormatFor(config.format).Some? {
        ConvertDocumentConverts(cache, blocks, config.format, made.files, env);
      } else if DrawioImages(blocks) != {} {
        ConvertDocumentUnsupportedFormat(cache, blocks, config.format, made.files, env);
      } else {
        ConvertDocumentWithoutDiagrams(cache, blocks, config.format, made.files, env);
      }
    }
  }

  /** A document without diagram images is written unchanged whatever the
      output format, once the tools could be probed. */
  lemma NoDrawioImagesUnchanged(config: Config, blocks: seq<Block>, files: set<Path>, env: Environment)
    requires !config.credits
    requires DrawioImages(blocks) == {}
    requires NewEffect(config.xvfbRunCmd, config.drawioCmd, files, env).result.Ok?
    ensures FilterEffect(config, blocks, files, env)
            == Effect(Ok(Document(blocks)), NewEffect(config.xvfbRunCmd, config.drawioCmd, files, env).files)
  {
    var made := NewEffect(config.xvfbRunCmd, config.drawioCmd, files, env);
    ConvertDocumentWithoutDiagrams(NoCacheConverter(made.result.value), blocks, config.format, made.files, env);
  }

  /** An unsupported output format fails the whole run on a document with a
      diagram image before any conversion is attempted: the files are as the
      probes left them and nothing is written. */
  lemma UnsupportedFormatFails(config: Config, blocks: seq<Block>, files: set<Path>, env: Environment)
    requires !config.credits
    requires DrawioImages(blocks) != {}
    requires OutputFormatFor(config.format).None?
    requires NewEffect(config.xvfbRunCmd, config.drawioCmd, files, env).result.Ok?
    ensures FilterEffect(config, blocks, files, env)
            == Effect(Err(ImageConversionFailed(UnsupportedFormat(config.format))),
                      NewEffect(config.xvfbRunCmd, config.drawioCmd, files, env).files)
  {
    var made := NewEffect(config.xvfbRunCmd, config.drawioCmd, files, env);
    ConvertDocumentUnsupportedFormat(NoCacheConverter(made.result.value), blocks, config.format, made.files, env);
  }

  /** Every converted url lies in the directory of the diagram and has the
      extension of the target format. */
  lemma ConvertedUrls(blocks: seq<Block>, format: OutputFormat, h: Handle)
    requires h in DrawioImages(blocks)
    ensures IsImageAt(ConvertedDocument(blocks, format), h)
    ensures var url := ImageUrl(ConvertedDocument(blocks, format), h);
            && Directory(url) == Directory(ImageUrl(blocks, h))
            && Extension(url) == Some(OutputExtension(format))
  {
    var url := ImageUrl(blocks, h);
    assert IsDrawio(url);
    assert FileName(url).Some?;
  }

  /** No image of a converted document names a diagram any more. */
  lemma NoDrawioAfterConversion(blocks: seq<Block>, format: OutputFormat)
    ensures DrawioImages(ConvertedDocument(blocks, format)) == {}
  {
  }

  /** Running the filter on its own output changes nothing: the urls it
      wrote no longer name diagrams, so no image is selected again. */
  lemma FilterIsIdempotent(config: Config, blocks: seq<Block>, files: set<Path>, env: Environment,
                           out: seq<Block>, files': set<Path>, env': Environment)
    requires !config.credits
    requires FilterEffect(config, blocks, files, env).result == Ok(Document(out))
    requires NewEffect(config.xvfbRunCmd, config.drawioCmd, files', env').result.Ok?
    ensures FilterEffect(config, out, files', env').result == Ok(Document(out))
    ensures FilterEffect(config, out, files', env').files == NewEffect(config.xvfbRunCmd, config.drawioCmd, files', env').files
  {
    FilterConverts(config, blocks, files, env);
    if OutputFormatFor(config.format).Some? {
      NoDrawioAfterConversion(blocks, OutputFormatFor(config.format).value);
    }
    NoDrawioImagesUnchanged(config, out, files', env');
  }
}
