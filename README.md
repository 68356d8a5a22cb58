# rusty-tesseract input layer in Dafny

This project models the input-preparation layer of rusty-tesseract, a Rust
wrapper around the Tesseract OCR command-line tool
(`src/tesseract/input.rs`). It has three parts.

- **The argument record `Args`.** It holds the executable and tessdata
  overrides, the language, the `-c` configuration variables, the dpi, the
  page-segmentation mode and the OCR-engine mode. It has fixed defaults, and
  it renders each configuration variable as one `key=value` string.
- **The image handle `Image`.** It wraps `InputData`, which is either a
  caller's path (`Path`) or a temporary PNG file owned by the handle
  (`TempFile`).
  - `from_path` accepts a path only when its extension, upper-cased, is one
    of `JPEG JPG PNG PBM PGM PPM TIFF BMP GIF WEBP`. Otherwise it fails with
    `ImageFormatError`. Nothing is opened or read.
  - `from_dynamic_image` writes an in-memory image to a temporary file named
    `rusty-tesseract…png`.
  - `get_image_path` and `Display` give the stored path back.
- **Rust's `Path::extension`**, on which the format check rests. The model
  follows Unix rules:
  - the file name is the last component;
  - empty pieces and `.` pieces are skipped, except that a leading `.` is
    the current-directory component; neither can be a file name, and
    neither can `..`;
  - the extension is the text after the last dot of the file name, unless
    that dot is the file name's first character.

Files:

- `prelude.dfy` (module `Prelude`): Rust's `Option`, `Result` and `i32`.
  `Option.OkOr` and `Result.MapErr` are Rust's library operations `ok_or`
  and `map_err`, and `Input.ToStr` is `OsStr::to_str`; they are defined as
  Rust defines them, and nothing is proved about them.
- `ascii.dfy` (module `Ascii`): upper-casing and case-insensitive equality.
- `paths.dfy` (module `Paths`): `Path::file_name` and `Path::extension`.
- `tess_errors.dfy` (module `TessErrors`): the error variants this layer
  produces.
- `input.dfy` (module `Input`): `Args`, `InputData`, `Image` and the
  properties proved about them.

Everything in this layer except `from_dynamic_image` is pure and becomes
datatypes, functions and lemmas. `from_dynamic_image` has two effects,
creating the temporary file and writing the PNG into it; their outcomes are
parameters of the model, so it too is a function. The hash map's iteration order is a parameter, `order`: a list of the
map's keys, each exactly once. Every result about the rendered variables
holds for every such order.

Two consequences of following Rust's code:
- A `.` piece inside a path is skipped, as `Path::components` does, so
  `a/.` has the file name `a`.
- Rendering variables is not injective. A key that contains `=` can render
  to the same string as a different entry (`RenderVariableAmbiguousWithEqualsInKey`).
  Each rendered string belongs to exactly one entry only when no key
  contains `=` (`ConfigVariableArgsMatchOneEntry`).

## Model

| member | source | states |
|---|---|---|
| `Paths.Segments` | src/tesseract/input.rs:59-61 | cutting a path at `/` gives at least one piece, and no piece contains `/` |
| `Paths.JoinSegments` | src/tesseract/input.rs:59-61 | joining the pieces of a path with `/` gives the path back |
| `Paths.SegmentsOfJoin` | src/tesseract/input.rs:59-61 | cutting the join of slash-free pieces gives those pieces back |
| `Paths.SegmentsOfJoined` | src/tesseract/input.rs:59-61 | the pieces of `a/b` are the pieces of `a` followed by the pieces of `b` |
| `Paths.FileName` | src/tesseract/input.rs:59-61 | a file name, when there is one, is non-empty, slash-free, and neither `.` nor `..` |
| `Paths.LastIndexOf` | src/tesseract/input.rs:59-61 | finds the last occurrence of a character: none exactly when it does not occur; otherwise that position holds it and no later position does |
| `Paths.ExtensionOfName` | src/tesseract/input.rs:60 | a name has no extension exactly when it is empty or has no dot after its first character; otherwise the extension is dot-free and the name is a non-empty stem, a dot and the extension |
| `Paths.Extension` | src/tesseract/input.rs:60 | a path without a file name has no extension; an extension contains neither `.` nor `/` |
| `Paths.JoinPath` | src/tesseract/input.rs:77-80 | joining a directory and a name (as `PathBuf::join` does on Unix: no extra `/` after an empty directory or one ending in `/`, an absolute name replaces the directory) ends in that name and keeps its file name |
| `Paths.ExtensionOfStemAndSuffix` | src/tesseract/input.rs:59-61 | a non-empty stem, a dot and dot-free text make a name whose extension is that text (e.g. `a.` has the empty extension) |
| `Paths.HiddenNameHasNoExtension` | src/tesseract/input.rs:59-61 | a name whose only dot is its first character (`.png`) has no extension |
| `Paths.FileNameOfPiece` | src/tesseract/input.rs:59-61 | a slash-free name other than empty, `.` and `..` is its own file name |
| `Paths.FileNameUnderDirectory` | src/tesseract/input.rs:59-61 | putting a directory in front of a path that has a file name does not change that file name |
| `Paths.TrailingSlashKeepsFileName` | src/tesseract/input.rs:59-61 | a trailing `/` does not change the file name |
| `Paths.ParentDirectoryHasNoFileName` | src/tesseract/input.rs:59-61 | a path ending in `..` has no file name, so no extension |
| `Ascii.UpperChar` | src/tesseract/input.rs:64 | upper-casing maps `a`..`z` to `A`..`Z`, leaves every other character alone, and never yields a lower-case letter |
| `Ascii.ToUppercase` | src/tesseract/input.rs:64 | the result has the input's length, contains no lower-case letter, and equals the input up to letter case |
| `Ascii.ToUppercaseIdentifiesCaseVariants` | src/tesseract/input.rs:64 | two strings have the same upper-case form exactly when they agree letter by letter up to case (stated through lower case) |
| `Ascii.ToUppercaseIdempotent` | src/tesseract/input.rs:64 | upper-casing twice is upper-casing once |
| `Input.SupportedFormatsAreUppercase` | src/tesseract/input.rs:65-67 | every allow-listed extension is already upper case |
| `Input.UppercaseInListIffSupportedSpelling` | src/tesseract/input.rs:64-67 | the upper-cased extension is in the allow-list exactly when the extension equals some allowed format up to letter case |
| `Input.Image.CheckImageFormat` | src/tesseract/input.rs:58-73 | succeeds exactly when the path has an extension that spells an allowed format up to case; every failure is `ImageFormatError` |
| `Input.Image.FromPath` | src/tesseract/input.rs:50-56 | succeeds exactly when the format check does; on success it holds `Path(path)` with the path unchanged and satisfies `Valid`; every failure is `ImageFormatError` |
| `Input.TempFilePath` | src/tesseract/input.rs:77-80 | when the random part has no `/`, the temporary file's path has the file name `rusty-tesseract<random>.png` and the extension `png`, in any directory |
| `Input.Image.FromDynamicImage` | src/tesseract/input.rs:75-90 | a creation failure gives `TempfileError` with its cause; an encoding failure gives `DynamicImageError` with its cause; otherwise the handle holds `TempFile` at the created path, and is `Valid` when the random part has no `/` |
| `Input.Image.GetImagePath` | src/tesseract/input.rs:92-98 | always succeeds, with the path stored in either variant |
| `Input.Image.Display` | src/tesseract/input.rs:107-111 | when the path can be had, the displayed text is exactly what `GetImagePath` returns |
| `Input.MissingExtensionRejected` | src/tesseract/input.rs:59-61 | a path without an extension is refused with `ImageFormatError` |
| `Input.VerdictDependsOnlyOnExtension` | src/tesseract/input.rs:58-73 | two paths with the same extension get the same verdict |
| `Input.VerdictIgnoresCase` | src/tesseract/input.rs:64-67 | two paths whose extensions differ only in letter case get the same verdict |
| `Input.ExtensionOfBareFile` | src/tesseract/input.rs:59-61 | a bare name `stem.e` (non-empty stem, `e` without dots or slashes) has extension `e` |
| `Input.FromPathVerdictOfFile` | src/tesseract/input.rs:50-73 | for `dir/stem.e`, with any directory and stem, the handle is made exactly when `e` spells an allowed format, and otherwise the result is `ImageFormatError` |
| `Input.FromPathVerdictOfBareFile` | src/tesseract/input.rs:50-73 | for a bare `stem.e`, the handle is made exactly when `e` spells an allowed format |
| `Input.FromPathWithoutDot` | src/tesseract/input.rs:59-61 | a file name without a dot, in any directory, is refused with `ImageFormatError` |
| `Input.FromPathRoundTrip` | src/tesseract/input.rs:92-98 | a handle made from a path returns that exact path, and displays it |
| `Input.StringPngExample` | src/tesseract/input.rs:119-123 | `img/string.png` is accepted, and `get_image_path` returns exactly `img/string.png` |
| `Input.PngIsSupported` | src/tesseract/input.rs:65-67 | `png` spells an allowed format |
| `Input.TxtIsNotSupported` | src/tesseract/input.rs:65-67 | `txt` does not spell an allowed format |
| `Input.StringTxtExample` | src/tesseract/input.rs:58-73 | `img/string.txt` is refused with `ImageFormatError` |
| `Input.NoExtensionExample` | src/tesseract/input.rs:59-61 | `img/noext` is refused with `ImageFormatError` |
| `Input.HiddenFileExample` | src/tesseract/input.rs:59-61 | `img/.png` has no extension and is refused |
| `Input.JpgSpellingsSupported` | src/tesseract/input.rs:64-67 | `jpg`, `JPG` and `Jpg` all spell an allowed format |
| `Input.LowerCaseJpgExample` | src/tesseract/input.rs:64-67 | `photo.jpg` is accepted |
| `Input.UpperCaseJpgExample` | src/tesseract/input.rs:64-67 | `photo.JPG` is accepted |
| `Input.MixedCaseJpgExample` | src/tesseract/input.rs:64-67 | `photo.Jpg` is accepted |
| `Input.TempFilePassesFormatCheck` | src/tesseract/input.rs:77-80 | the temporary file's path would pass the format check, and `from_path` on it makes a handle on that path, whatever the directory and slash-free random part |
| `Input.ValidHandleReopens` | src/tesseract/input.rs:50-56 | the path of a valid handle, of either kind, is accepted by `from_path`, which makes a handle on the same path |
| `Input.FromDynamicImageResolves` | src/tesseract/input.rs:75-98 | after creation and encoding succeed, the handle returns the temporary file's path, whose extension is `png` |
| `Input.Args.Default` | src/tesseract/input.rs:21-33 | no executable or tessdata override, language `eng`, no variables, dpi 150, psm 3, oem 3 |
| `Input.Args.GetConfigVariableArgs` | src/tesseract/input.rs:36-41 | one string per entry, in iteration order; the length equals the map size; every entry's `key=value` appears; as a bag, the result is independent of the order |
| `Input.IterationOrderLength` | src/tesseract/input.rs:37-40 | an iteration order lists exactly as many keys as the map has |
| `Input.RenderVariable` | src/tesseract/input.rs:39 | the rendering is the key, then `=`, then the value, with nothing else |
| `Input.RenderEntries` | src/tesseract/input.rs:37-40 | the i-th string renders the i-th key of the iteration with its value |
| `Input.RenderedBagRemove` | src/tesseract/input.rs:37-40 | the order-free bag of rendered entries can give up any entry first |
| `Input.RenderEntriesBag` | src/tesseract/input.rs:37-40 | the rendered strings of any iteration order form the same bag |
| `Input.RenderEntriesCoverMap` | src/tesseract/input.rs:37-40 | every entry's rendering appears among the rendered strings |
| `Input.FirstEqualsEndsKey` | src/tesseract/input.rs:39 | when the key has no `=`, the first `=` of `key=value` is right after the key |
| `Input.RenderVariableInjective` | src/tesseract/input.rs:39 | keys without `=` can be read back: equal renderings come from equal keys and values |
| `Input.RenderVariableAmbiguousWithEqualsInKey` | src/tesseract/input.rs:39 | `a=b` with value `c` and `a` with value `b=c` render the same |
| `Input.ConfigVariableArgsMatchOneEntry` | src/tesseract/input.rs:36-41 | when no key contains `=`, each rendered string matches exactly one entry: the one visited at that position |
| `Input.ConfigVariableArgsOrderIndependent` | src/tesseract/input.rs:36-41 | two iteration orders give results that are permutations of each other |
| `Input.SingleConfigVariable` | src/tesseract/input.rs:36-41 | a one-entry map renders as the single string `key=value` |
| `Input.WhitelistVariableArgs` | src/tesseract/input.rs:36-41 | `{tessedit_char_whitelist: 0123456789}` renders as `["tessedit_char_whitelist=0123456789"]` |
| `Input.DefaultRendersNoVariables` | src/tesseract/input.rs:21-41 | the default record renders no variables |

## Left out

- Ascii.ToUppercase, Input.Image.CheckImageFormat: upper-case ASCII letters only. Rust's `to_uppercase` also maps a few non-ASCII characters onto ASCII letters (dotless `ı` to `I`, long `ſ` to `S`, ligatures such as `ﬀ` to `FF`). So Rust accepts extensions such as `gıf` or `tiﬀ` that the model refuses. The model's accepted set is a subset of Rust's.
- Input.Image.FromPath: inherits the ASCII-only upper-casing described for `CheckImageFormat`.
- Input.ToStr: non-UTF-8 paths are not modelled. Paths are Dafny strings, so `to_str` never fails. The `to_str` branch of the format check and `ImageNotFoundError` in `get_image_path` cannot occur in the model, and neither can the panic in `Display`. `Display` keeps the guard as a precondition.
- Windows path syntax (backslash separators, drive and UNC prefixes) is not modelled; paths follow Unix rules.
- `Image::from_dynamic_image`: temp-file creation and PNG encoding belong to foreign crates. Their outcomes are parameters: the random part of the file name or the creation error, and the encoding result. The temporary directory is a parameter too: it stands for the absolute directory the `tempfile` crate uses, which makes a relative directory absolute against the working directory before joining.
- The pixel round trip of the `from_dynamic_image` test depends on the PNG codec and is not modelled.
- Input.Image.FromDynamicImage: validity is promised only when the random name part has no `/`. The `tempfile` crate draws that part from alphanumeric characters, but the model takes it as a parameter and does not fix its alphabet.
- Deleting the temporary file when the handle is dropped is resource management owned by the `tempfile` crate and is not modelled.
- `HashMap` iteration order: implementation-defined, so it is a parameter. No particular order is specified.
- `get_image_path` being repeatable: it is a function of the handle, so equal calls give equal results by construction; no separate lemma states it.
- `TessError` has more variants in the crate root, which is not part of this model; only the four this layer produces are declared.
- The generic `P: Into<PathBuf>` argument of `from_path` is taken to be the path string itself.
