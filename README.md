# pandoc-drawio, modelled in Dafny

`pandoc-drawio` is a pandoc filter. It reads a pandoc document, looks for images whose url has the extension `drawio`, and renders each of these diagrams with the draw.io desktop application. The output is a PDF for the `pdf`, `latex` and `context` output formats, and an SVG for `html`, `html5` and `html4`. The filter rewrites each image's url to the rendered file and writes the document back out. The filter writes the document only when every conversion succeeded.

The model follows the four parts of the program:

- `Filter` (`src/main.rs`) covers:
  - the format table;
  - the case-sensitive `drawio` extension filter;
  - `convert_image`;
  - the sequential conversion loop that stops at the first failure;
  - the rule that the document is written only on success.

  `RunFilter`, `ConvertImages` and `ConvertImage` are methods over a mutable document and a mutable host. Each is proved equal to an effect function on values (`FilterEffect`, `ConvertImagesEffect`, `ConvertImageEffect`). The lemmas about these functions state what a run produces: the converted document, the failure cases, independence from the conversion order, and idempotence.
- `Pandoc` (`src/pandoc.rs`): a document is a sequence of blocks of inline elements. An image handle is a (block, inline) index pair. `get_all_images` yields one handle per image, in document order. `PandocDocument.SetImageUrl` is the write through `image_url`, and it changes only that image's url.
- `Cache` (`src/cache.rs`) covers the no-cache conversion policy. The output path is the input path with its extension replaced, and the call is then delegated to the renderer.
- `Drawio` (`src/drawio.rs`) covers:
  - the tool probes of `new`;
  - the steps of `convert_to`: the input pre-check, the removal of a stale output, the exact argument vector (with or without `xvfb-run`), and the verdict on the process outcome.

Three supporting modules complete the model:

- `Paths` defines Rust's `Path::extension` and `Path::with_extension` for `/`-separated paths and proves their laws.
- `System` models the host:
  - the set of existing files;
  - the paths whose removal fails;
  - child processes, as an oracle from a command and the current files to an optional outcome (exit status, standard output, files afterwards).
- `Common` holds the shared types.

## Model

| member | source | states |
|---|---|---|
| `Filter.OutputFormatFor` | src/main.rs:84-88 | `pdf`, `latex` and `context` map to PDF. `html`, `html5` and `html4` map to SVG. Every other string maps to none, in both directions. |
| `Filter.HiddenDrawioIsNotSelected` | src/main.rs:57 | A file named `.drawio` has no extension, so its image is not selected. |
| `Filter.IsDrawio` | src/main.rs:55-58 | Defines the filter's test: the url's extension, by the `Paths.Extension` rule, is exactly `drawio`, compared case-sensitively. |
| `Filter.SelectDrawio` | src/main.rs:52-59 | Keeps exactly the handles whose image url has the extension `drawio`, and keeps document order. |
| `Filter.DrawioHandles` | src/main.rs:52-59 | The selected handles are exactly the images whose url has the extension `drawio`, in increasing document order. |
| `Filter.SelectedAreDrawioImages` | src/main.rs:52-59 | The set of selected handles equals the set of positions of `drawio` images. |
| `Filter.ConvertDocument` | src/main.rs:52-64 | Defines selection followed by the conversion loop. Its result is stated by `ConvertDocumentConverts`, `ConvertDocumentWithoutDiagrams` and `ConvertDocumentUnsupportedFormat`. |
| `Filter.ConvertedDocument` | src/main.rs:52-64 | The intended result has the same shape as the input. Every `drawio` image points to the output path for the format, and every other inline element is unchanged. |
| `Filter.ConvertedDocumentIs` | src/main.rs:52-64 | The intended result renames exactly the selected handles. |
| `Filter.ConvertImageEffect` | src/main.rs:80-107 | An unknown format fails before the converter is asked, and changes nothing. Otherwise the converter is asked for the image's url in the mapped format. The converter's error is passed on with context. On success the url becomes the returned path. On failure the document is unchanged. |
| `Filter.ConvertImage` | src/main.rs:80-107 | `convert_image` on the mutable document and host gives exactly `ConvertImageEffect`. |
| `Filter.ConvertImagesEffect` | src/main.rs:62-64 | The conversion loop keeps the shape of the document: the same blocks, inlines and image positions. |
| `Filter.ConvertImages` | src/main.rs:62-64 | The `for` loop with early exit on the mutable document and host gives exactly `ConvertImagesEffect`. |
| `Filter.ConvertImagesSplit` | src/main.rs:62-64 | Once an image fails, no later image is converted and the run ends as it stood. Otherwise the rest is converted from where the first part left off. |
| `Filter.ConvertImagesAfterFirst` | src/main.rs:62-64 | A failing first image fails the loop. After a successful first image, the loop continues on the rest of the images from the updated document and files. |
| `Filter.ConvertImageRewrites` | src/main.rs:90-104 | A successful conversion of one more image renames exactly that image as well. |
| `Filter.ConvertFirstRewrites` | src/main.rs:62-64 | The first step of the loop renames the first image, and the loop continues with distinct remaining images. |
| `Filter.ConvertImagesRewrites` | src/main.rs:62-64 | A successful loop over distinct images renames exactly those images, starting from any partly renamed document. |
| `Filter.ConvertImagesRenames` | src/main.rs:62-64 | A successful loop over distinct images renames exactly the images at those positions and nothing else. |
| `Filter.ConvertOrderIndependent` | src/main.rs:62-64 | Two successful runs over the same distinct images, in any order, give the same document. |
| `Filter.ConvertDocumentConverts` | src/main.rs:52-64 | A successful conversion of all `drawio` images yields the intended converted document. |
| `Filter.ConvertDocumentWithoutDiagrams` | src/main.rs:52-64 | Without `drawio` images, any format string succeeds and leaves the document and the files unchanged. |
| `Filter.ConvertDocumentUnsupportedFormat` | src/main.rs:84-91 | With an unsupported format, the first `drawio` image fails before the converter is called, and the document and the files are unchanged. |
| `Filter.Emit` | src/main.rs:66-75 | The document is emitted exactly when every conversion succeeded. Otherwise the run's own error is returned and nothing is written. The files are the run's files in both cases. |
| `Filter.FilterEffect` | src/main.rs:26-76 | Defines `main` on values: credits, then probing, then conversion of the selected images, then output. Its outcomes are stated by `CreditsOnly`, `ProbeFailureStops`, `ConversionFailureStops`, `FilterConverts`, `NoDrawioImagesUnchanged` and `UnsupportedFormatFails`. |
| `Filter.CreditsOnly` | src/main.rs:30-34 | A credits run writes the credits and leaves the files as they were. |
| `Filter.ProbeFailureStops` | src/main.rs:36-38 | A tool that cannot be started stops the run before any image is looked at. The run fails with the probe's error, wrapped as a converter-creation failure, and nothing is written. |
| `Filter.ConversionFailureStops` | src/main.rs:62-73 | A failed conversion after successful probing fails the run with that conversion's error and files, and nothing is written. |
| `Filter.RunFilter` | src/main.rs:26-76 | `main` on the mutable host gives exactly `FilterEffect`: credits, probing, selection, the loop, and output only on success. |
| `Filter.FilterConverts` | src/main.rs:26-76 | A successful run without `--credits` writes the converted document. With an unsupported format, a run can only succeed on a document without diagrams, which it writes unchanged. |
| `Filter.NoDrawioImagesUnchanged` | src/main.rs:52-73 | A document without `drawio` images is written unchanged whatever the format, once probing has succeeded. |
| `Filter.UnsupportedFormatFails` | src/main.rs:62-73 | An unsupported format fails the whole run on a document with a diagram. Nothing is written, and the files are as probing left them. |
| `Filter.ConvertedUrls` | src/cache.rs:38-41 | Each converted url lies in the directory of its diagram and has the target format's extension. |
| `Filter.NoDrawioAfterConversion` | src/main.rs:52-59 | No image of a converted document has the extension `drawio`. |
| `Filter.FilterIsIdempotent` | src/main.rs:52-64 | Running the filter again, without `--credits`, on the output of a successful run writes that output unchanged, provided the second run's tool probes succeed. The second run changes no file beyond what its probes do. |
| `Pandoc.InlineImages` | src/pandoc.rs:33-40 | Yields the handles of exactly the image inlines of one block from an index on, in increasing order. |
| `Pandoc.BlockImages` | src/pandoc.rs:28-44 | Yields the handles of exactly the images in the blocks from an index on, in increasing order. |
| `Pandoc.GetAllImages` | src/pandoc.rs:28-44 | Yields one handle per image and none for other inlines, ordered by block and then by inline. |
| `Pandoc.IncreasingIsDistinct` | src/pandoc.rs:28-44 | Handles in document order are pairwise different. |
| `Pandoc.ImageUrl` | src/pandoc.rs:64-67 | Defines `image_url_read_only`: the current url of the image target the handle names. `WithImageUrl` and `WriteIsDisjoint` state how it reads back writes. |
| `Pandoc.WithImageUrl` | src/pandoc.rs:59-62 | A write through a handle sets that image's url. It keeps the image's attributes, alt text and title, and every other inline element. |
| `Pandoc.WriteIsDisjoint` | src/pandoc.rs:54-56 | Writing through one handle never changes the url seen through another. |
| `Pandoc.GetAllImagesAfterWrite` | src/pandoc.rs:28-44 | Writing a url does not change the handles `get_all_images` yields. |
| `Pandoc.InlineImagesOfSameShape` | src/pandoc.rs:33-40 | Documents with images at the same positions have the same image handles within a block. |
| `Pandoc.BlockImagesOfSameShape` | src/pandoc.rs:28-44 | Documents with images at the same positions have the same image handles. |
| `Pandoc.RewriteAt` | src/main.rs:62-64 | Renaming a set of positions keeps the shape, renames images at those positions, and leaves every other inline element unchanged. |
| `Pandoc.RewriteNowhere` | src/pandoc.rs:28-44 | If no handle is written, the document is unchanged. |
| `Pandoc.RewriteOneMore` | src/main.rs:95-104 | Writing the renamed url through one more handle extends the set of renamed positions by that handle. |
| `Pandoc.PandocDocument.SetImageUrl` | src/pandoc.rs:59-62 | The in-place write through `image_url` gives the document `WithImageUrl` of the old one. |
| `Pandoc.PandocDocument.constructor` | src/main.rs:49 | The held document is the parsed input. |
| `Cache.OutputExtension` | src/cache.rs:38-41 | PDF gives `pdf` and SVG gives `svg`, in both directions. Both are plain extensions. |
| `Cache.OutputPath` | src/cache.rs:38-41 | The output path has the same directory and stem as the input, and the format's extension, which is never `drawio`. A path without a file name is returned as it is. |
| `Cache.ConvertEffect` | src/cache.rs:37-51 | The renderer is asked for exactly the output path in the same format. Its failure is returned with both paths as context and no path. Success returns that output path, which then exists. |
| `Cache.ConverterCache.Convert` | src/cache.rs:37-51 | `convert` on the mutable host gives exactly `ConvertEffect`. |
| `Drawio.FormatString` | src/drawio.rs:62-65 | `pdf` for PDF and `svg` for SVG, in both directions. |
| `Drawio.DrawioConverter.ConversionCommand` | src/drawio.rs:67-85 | The program is `xvfb-run` followed by the draw.io path when a wrapper is configured, and draw.io otherwise. The fixed conversion arguments follow in their exact order. |
| `Drawio.Classify` | src/drawio.rs:86-108 | A process that cannot start, and exit status 133 or no status, are errors even when the output exists. Any other status succeeds exactly when the output file exists. Otherwise the error is that the output was not created, and it carries the captured standard output. |
| `Drawio.ConvertToEffect` | src/drawio.rs:53-108 | A missing input fails before anything is removed or run. A stale output that cannot be removed fails before the renderer runs. Otherwise the renderer runs without the stale output and its outcome is classified. Success means that the output exists. |
| `Drawio.DrawioConverter.ConvertTo` | src/drawio.rs:47-109 | `convert_to` on the mutable host gives exactly `ConvertToEffect`. |
| `Drawio.ProbeDrawio` | src/drawio.rs:32-43 | Probing draw.io succeeds exactly when its probe starts, and then keeps both paths. Otherwise draw.io is reported unavailable. The files afterwards are those the probe left, or unchanged when it cannot start. |
| `Drawio.NewEffect` | src/drawio.rs:21-44 | `xvfb-run` is probed only when configured, and before draw.io. A wrapper that cannot start stops the probing. On success both paths are kept unchanged. |
| `Drawio.New` | src/drawio.rs:21-44 | `new` on the mutable host gives exactly `NewEffect`. |
| `System.Host.RemoveFile` | src/drawio.rs:56-60 | Removal succeeds exactly for an existing path that is not protected, and then removes only that path. |
| `System.Host.Output` | src/drawio.rs:86-88 | Running a command gives the oracle's outcome. The files become those the process left, and are unchanged when the process cannot start. |
| `Paths.DotIndex` | src/main.rs:57 | The split point of a file name is its last `.`, and only when that `.` is not the first character. There is no split point exactly when no `.` follows the first character. |
| `Paths.Extension` | src/main.rs:57 | Defines `Path::extension`: the text after the split point of the file name, and none without a file name or a split point. `WithExtensionSetsExtension`, `WithOwnExtension` and `HiddenDrawioIsNotSelected` state its laws. |
| `Paths.WithExtension` | src/cache.rs:38-41 | Defines `Path::with_extension`: the directory, then the stem, then `.` and the extension; for an empty extension nothing follows the stem. A path without a file name is returned as it is. `WithExtensionKeepsDirectory`, `WithExtensionSetsExtension` and `WithOwnExtension` state its laws. |
| `Paths.WithExtensionKeepsDirectory` | src/cache.rs:38-41 | `with_extension` keeps the directory of the path, for an extension without `/`. |
| `Paths.WithExtensionSetsExtension` | src/cache.rs:38-41 | On a path with a file name, setting a plain extension keeps the directory and stem, and the new extension is read back. |
| `Paths.WithOwnExtension` | src/cache.rs:38-41 | Setting a non-empty extension the path already has gives the same path. (`foo.` has the empty extension, and setting it gives `foo`.) |

## Left out

- Command-line parsing (`src/config.rs`, through `clap`) is not part of this model. Its resulting fields are the `Config` input of `RunFilter`.
- The credits text (src/main.rs:30-34) is not modelled. A credits run is the `Credits` output and touches no file.
- Standard input and output (src/main.rs:42-46, 67-73) are not modelled. Neither are JSON deserialization and serialization (src/pandoc.rs:20-25, 47-49), nor their failures. The document enters already parsed, and the written document is the `Document` value.
- The error message texts and `anyhow` context strings are not modelled. Errors are constructors that nest their causes.
- The non-UTF-8 output-path error (src/main.rs:97-103) and the lossy decoding of the renderer's standard output (src/drawio.rs:104-105) are not modelled, because model strings are always valid. The standard output is kept as raw bytes.
- Process spawning (src/drawio.rs:24-38, 86-88) is replaced by an oracle, which may change the files. Exit statuses are unbounded integers.
- Rust path normalisation is not modelled. This covers trailing `/`, `.` components and repeated separators: a path ending in `/` has no file name in the model. Paths are `/`-separated strings.
- Traversal depth: `pandoc_types`' block and inline traversal is taken as given. A block is the flattened inline sequence that the traversal visits, and images nested inside other inlines are not searched further.
- `build.rs` (license generation) is not part of this model.
- The conversion loop is sequential, as in the code at src/main.rs:62-64. Nothing runs concurrently. `ConvertOrderIndependent` shows that a successful result does not depend on the order of the images.
- `Filter.ConvertImagesEffect`: its own contract states only that the shape is kept. What it computes is stated by `ConvertImagesSplit`, `ConvertImagesRenames`, `ConvertDocumentConverts` and `FilterConverts`.
