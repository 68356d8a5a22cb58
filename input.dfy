/** The input-preparation layer of the OCR wrapper: the argument record with
    its defaults and its rendering of `key=value` configuration variables,
    and the image handle, built either from a path whose extension names a
    supported image format or from a temporary PNG file. */
module Input {
  import opened Prelude
  import opened Ascii
  import opened Paths
  import opened TessErrors

  // ---------------------------------------------------------------------
  // Configuration variables
  // ---------------------------------------------------------------------

  /** One configuration variable as handed to the OCR tool. */
  function RenderVariable(key: string, value: string): (r: string)
    ensures |r| == |key| + 1 + |value|
    ensures r[..|key|] == key && r[|key|] == '=' && r[|key| + 1..] == value
  {
    key + "=" + value
  }

  /** `order` lists every key of `m` exactly once. Rust's `HashMap` visits its
      entries in an order that depends on a per-process random seed, so the
      model takes that order as a parameter constrained by this predicate. */
  predicate IsIterationOrder(order: seq<string>, m: map<string, string>) {
    && (forall k :: k in order ==> k in m)
    && (forall k :: k in m ==> k in order)
    && (forall i, j :: 0 <= i < j < |order| ==> order[i] != order[j])
  }

  /** After its first key, an iteration order enumerates the rest of the map. */
  lemma IterationOrderTail(order: seq<string>, m: map<string, string>)
    requires IsIterationOrder(order, m) && order != []
    ensures order[0] in m
    ensures IsIterationOrder(order[1..], m - {order[0]})
  {
    forall k ensures k in order[1..] <==> k in m - {order[0]} {
      if k in order[1..] {
        var i :| 0 <= i < |order[1..]| && order[1..][i] == k;
        assert order[i + 1] == k;
      }
      if k in m - {order[0]} {
        assert k in order;
        var i :| 0 <= i < |order| && order[i] == k;
        assert order[1..][i - 1] == k;
      }
    }
  }

  /** An iteration order is exactly as long as the map is large. */
  lemma {:induction false} IterationOrderLength(order: seq<string>, m: map<string, string>)
    requires IsIterationOrder(order, m)
    ensures |order| == |m|
    decreases |order|
  {
    if order == [] {
      assert m.Keys == {};
    } else {
      IterationOrderTail(order, m);
      IterationOrderLength(order[1..], m - {order[0]});
      assert (m - {order[0]}).Keys == m.Keys - {order[0]};
    }
  }

  /** The rendered entries of `m`, visited in `order`. */
  function RenderEntries(m: map<string, string>, order: seq<string>): (r: seq<string>)
    requires IsIterationOrder(order, m)
    ensures |r| == |order|
    ensures forall i :: 0 <= i < |r| ==> order[i] in m && r[i] == RenderVariable(order[i], m[order[i]])
    decreases |order|
  {
    if order == [] then []
    else
      IterationOrderTail(order, m);
      [RenderVariable(order[0], m[order[0]])] + RenderEntries(m - {order[0]}, order[1..])
  }

  /** The rendered entries of `m` as a bag, independent of any order. */
  ghost function RenderedBag(m: map<string, string>): multiset<string>
    decreases |m|
  {
    if m == map[] then multiset{}
    else
      var k :| k in m;
      RenderedBag(m - {k}) + multiset{RenderVariable(k, m[k])}
  }

  /** Any entry may be taken out of the bag first. */
  lemma {:induction false} RenderedBagRemove(m: map<string, string>, k: string)
    requires k in m
    ensures RenderedBag(m) == RenderedBag(m - {k}) + multiset{RenderVariable(k, m[k])}
    decreases |m|
  {
    var k' :| k' in m && RenderedBag(m) == RenderedBag(m - {k'}) + multiset{RenderVariable(k', m[k'])};
    if k' != k {
      var both := m - {k} - {k'};
      assert (m - {k'}) - {k} == both;
      assert (m - {k}) - {k'} == both;
      assert (m - {k}).Keys == m.Keys - {k};
      assert (m - {k'}).Keys == m.Keys - {k'};
      RenderedBagRemove(m - {k'}, k);
      RenderedBagRemove(m - {k}, k');
    }
  }

  /** Whatever the order, the rendered entries form the same bag. */
  lemma {:induction false} RenderEntriesBag(m: map<string, string>, order: seq<string>)
    requires IsIterationOrder(order, m)
    ensures multiset(RenderEntries(m, order)) == RenderedBag(m)
    decreases |order|
  {
    if order == [] {
      assert m.Keys == {};
      assert m == map[];
    } else {
      var k := order[0];
      IterationOrderTail(order, m);
      RenderEntriesBag(m - {k}, order[1..]);
      RenderedBagRemove(m, k);
      assert RenderEntries(m, order) == [RenderVariable(k, m[k])] + RenderEntries(m - {k}, order[1..]);
    }
  }

  /** Every entry of `m` is rendered somewhere. */
  lemma RenderEntriesCoverMap(m: map<string, string>, order: seq<string>)
    requires IsIterationOrder(order, m)
    ensures forall k :: k in m ==> RenderVariable(k, m[k]) in RenderEntries(m, order)
  {
    var r := RenderEntries(m, order);
    forall k | k in m ensures RenderVariable(k, m[k]) in r {
      assert k in order;
      var i :| 0 <= i < |order| && order[i] == k;
      assert r[i] == RenderVariable(k, m[k]);
    }
  }

  /** In the rendering of a key without `=`, the first `=` follows the key. */
  lemma FirstEqualsEndsKey(k: string, v: string)
    requires '=' !in k
    ensures forall j :: 0 <= j < |k| ==> RenderVariable(k, v)[j] != '='
    ensures RenderVariable(k, v)[|k|] == '='
  {
    forall j | 0 <= j < |k| ensures RenderVariable(k, v)[j] != '=' {
      assert RenderVariable(k, v)[j] == k[j];
    }
  }

  /** Keys without `=` can be read back from their rendering: a rendered
      string comes from only one entry. */
  lemma RenderVariableInjective(k1: string, v1: string, k2: string, v2: string)
    requires '=' !in k1 && '=' !in k2
    requires RenderVariable(k1, v1) == RenderVariable(k2, v2)
    ensures k1 == k2 && v1 == v2
  {
    var s := RenderVariable(k1, v1);
    FirstEqualsEndsKey(k1, v1);
    FirstEqualsEndsKey(k2, v2);
    assert |k1| == |k2|;
    assert k1 == s[..|k1|];
    assert k2 == s[..|k2|];
    assert v1 == s[|k1| + 1..];
    assert v2 == s[|k2| + 1..];
  }

  /** A key that contains `=` makes the rendering ambiguous: two different
      entries give the same argument. */
  lemma RenderVariableAmbiguousWithEqualsInKey()
    ensures RenderVariable("a=b", "c") == RenderVariable("a", "b=c")
  {
  }

  // ---------------------------------------------------------------------
  // The argument record
  // ---------------------------------------------------------------------

  datatype Args = Args(
    executable: Option<string>,
    tessdataDir: Option<string>,
    lang: string,
    configVariables: map<string, string>,
    dpi: Option<i32>,
    psm: Option<i32>,
    oem: Option<i32>)
  {
    /** English, 150 dpi, fully automatic page segmentation, the default
        OCR engine, no overrides and no variables. */
    static function Default(): (a: Args)
      ensures a.executable == None && a.tessdataDir == None
      ensures a.lang == "eng" && a.configVariables == map[]
      ensures a.dpi == Some(150) && a.psm == Some(3) && a.oem == Some(3)
    {
      Args(None, None, "eng", map[], Some(150), Some(3), Some(3))
    }

    /** One `key=value` string per configuration variable, in the map's
        iteration order `order`. */
    function GetConfigVariableArgs(order: seq<string>): (r: seq<string>)
      requires IsIterationOrder(order, configVariables)
      ensures |r| == |order| == |configVariables|
      ensures forall i :: 0 <= i < |r| ==>
        order[i] in configVariables && r[i] == RenderVariable(order[i], configVariables[order[i]])
      ensures forall k :: k in configVariables ==> RenderVariable(k, configVariables[k]) in r
      ensures multiset(r) == RenderedBag(configVariables)
    {
      IterationOrderLength(order, configVariables);
      RenderEntriesBag(configVariables, order);
      RenderEntriesCoverMap(configVariables, order);
      RenderEntries(configVariables, order)
    }
  }

  /** When no key contains `=`, each rendered argument matches exactly one
      entry: the one the iteration visited at that position. */
  lemma ConfigVariableArgsMatchOneEntry(args: Args, order: seq<string>, i: nat, k: string)
    requires IsIterationOrder(order, args.configVariables)
    requires forall key :: key in args.configVariables ==> '=' !in key
    requires i < |args.configVariables| && k in args.configVariables
    requires args.GetConfigVariableArgs(order)[i] == RenderVariable(k, args.configVariables[k])
    ensures k == order[i]
  {
    var m := args.configVariables;
    var r := args.GetConfigVariableArgs(order);
    assert r[i] == RenderVariable(order[i], m[order[i]]);
    RenderVariableInjective(k, m[k], order[i], m[order[i]]);
  }

  /** The rendered arguments of two iteration orders are permutations of
      each other. */
  lemma ConfigVariableArgsOrderIndependent(args: Args, order1: seq<string>, order2: seq<string>)
    requires IsIterationOrder(order1, args.configVariables)
    requires IsIterationOrder(order2, args.configVariables)
    ensures multiset(args.GetConfigVariableArgs(order1)) == multiset(args.GetConfigVariableArgs(order2))
  {
  }

  /** A single variable renders as a single argument. */
  lemma SingleConfigVariable(args: Args, key: string, value: string, order: seq<string>)
    requires args.configVariables == map[key := value]
    requires IsIterationOrder(order, args.configVariables)
    ensures args.GetConfigVariableArgs(order) == [key + "=" + value]
  {
    IterationOrderLength(order, args.configVariables);
    assert order[0] in args.configVariables;
  }

  /** The character white-list example: one variable, one argument. */
  lemma WhitelistVariableArgs(order: seq<string>)
    requires IsIterationOrder(order, map["tessedit_char_whitelist" := "0123456789"])
    ensures Args.Default().(configVariables := map["tessedit_char_whitelist" := "0123456789"])
      .GetConfigVariableArgs(order) == ["tessedit_char_whitelist=0123456789"]
  {
    var args := Args.Default().(configVariables := map["tessedit_char_whitelist" := "0123456789"]);
    SingleConfigVariable(args, "tessedit_char_whitelist", "0123456789", order);
    assert "tessedit_char_whitelist" + "=" + "0123456789" == "tessedit_char_whitelist=0123456789";
  }

  /** The default record renders no variables at all. */
  lemma DefaultRendersNoVariables(order: seq<string>)
    requires IsIterationOrder(order, Args.Default().configVariables)
    ensures Args.Default().GetConfigVariableArgs(order) == []
  {
  }

  // ---------------------------------------------------------------------
  // Supported image formats
  // ---------------------------------------------------------------------

  /** The upper-cased extensions that the check accepts. */
  const SupportedFormats: set<string> :=
    {"JPEG", "JPG", "PNG", "PBM", "PGM", "PPM", "TIFF", "BMP", "GIF", "WEBP"}

  /** Reference reading of the allow-list: `ext` spells one of the supported
      formats, in any mix of letter case. */
  predicate IsSupportedSpelling(ext: string) {
    exists f :: f in SupportedFormats && SameIgnoringCase(ext, f)
  }

  lemma SupportedFormatsAreUppercase()
    ensures forall f :: f in SupportedFormats ==> ToUppercase(f) == f
  {
    assert ToUppercase("JPEG") == "JPEG";
    assert ToUppercase("JPG") == "JPG";
    assert ToUppercase("PNG") == "PNG";
    assert ToUppercase("PBM") == "PBM";
    assert ToUppercase("PGM") == "PGM";
    assert ToUppercase("PPM") == "PPM";
    assert ToUppercase("TIFF") == "TIFF";
    assert ToUppercase("BMP") == "BMP";
    assert ToUppercase("GIF") == "GIF";
    assert ToUppercase("WEBP") == "WEBP";
  }

  /** Comparing the upper-cased extension with the list accepts exactly the
      supported spellings. */
  lemma UppercaseInListIffSupportedSpelling(ext: string)
    ensures ToUppercase(ext) in SupportedFormats <==> IsSupportedSpelling(ext)
  {
    SupportedFormatsAreUppercase();
    if ToUppercase(ext) in SupportedFormats {
      ToUppercaseIdempotent(ext);
      ToUppercaseIdentifiesCaseVariants(ext, ToUppercase(ext));
    }
    if IsSupportedSpelling(ext) {
      var f :| f in SupportedFormats && SameIgnoringCase(ext, f);
      ToUppercaseIdentifiesCaseVariants(ext, f);
    }
  }

  /** Rust's `OsStr::to_str`. Every path of this model is a Dafny string,
      hence valid UTF-8, so the conversion always succeeds. */
  function ToStr(s: string): (r: Option<string>)
    ensures r == Some(s)
  {
    Some(s)
  }

  // ---------------------------------------------------------------------
  // The image handle
  // ---------------------------------------------------------------------

  /** Where the image lives: a caller's path, or a temporary file owned by
      the handle (its path is all the model keeps of it). */
  datatype InputData = Path(path: string) | TempFile(path: string)

  /** Name pieces given to the temporary-file facility. */
  const TempPrefix: string := "rusty-tesseract"
  const TempSuffix: string := ".png"

  /** The path of a new temporary file: directory `dir` joined with the
      name made of the prefix, the facility's random part and the suffix.
      `dir` is the absolute directory the facility uses (it makes a relative
      directory absolute against the working directory before joining).
      When the random part has no slash, that name is the file name of the
      path, and its extension is `png`. */
  function TempFilePath(dir: string, random: string): (r: string)
    ensures '/' !in random ==> FileName(r) == Some(TempPrefix + random + TempSuffix)
    ensures '/' !in random ==> Extension(r) == Some("png")
  {
    var name := TempPrefix + random + TempSuffix;
    if '/' in random then JoinPath(dir, name)
    else
      var stem := TempPrefix + random;
      assert '/' !in stem by {
        forall i | 0 <= i < |stem| ensures stem[i] != '/' {
          if i >= |TempPrefix| { assert stem[i] == random[i - |TempPrefix|]; }
        }
      }
      assert name == stem + "." + "png";
      ExtensionOfBareFile(stem, "png");
      FileNameOfPiece(name);
      JoinPath(dir, name)
  }

  datatype Image = Image(data: InputData) {

    /** Accepts `path` when it has an extension whose upper-case form is one
        of the supported formats; nothing is opened or read. */
    static function CheckImageFormat(path: string): (r: TessResult<()>)
      ensures r.Ok? <==> Extension(path).Some? && IsSupportedSpelling(Extension(path).value)
      ensures r.Err? ==> r.error == ImageFormatError
    {
      var ext :- Extension(path).OkOr(ImageFormatError);
      match ToStr(ext)
      case None => Err(ImageFormatError)
      case Some(s) =>
        var binding := ToUppercase(s);
        UppercaseInListIffSupportedSpelling(s);
        if binding in SupportedFormats then Ok(()) else Err(ImageFormatError)
    }

    /** A handle on an existing file, made only if the format check passes;
        the path is kept unchanged. */
    static function FromPath(path: string): (r: TessResult<Image>)
      ensures r.Ok? <==> Extension(path).Some? && IsSupportedSpelling(Extension(path).value)
      ensures r.Ok? ==> r.value == Image(Path(path)) && r.value.Valid()
      ensures r.Err? ==> r.error == ImageFormatError
    {
      var _ :- CheckImageFormat(path);
      Ok(Image(Path(path)))
    }

    /** A handle on a temporary PNG file holding an in-memory image. The
        two foreign steps are parameters: `created` is the random part of
        the new file's name in `tempDir`, the absolute directory the
        facility uses, or the text of the creation error;
        `saved` is the outcome of encoding the image into that file. */
    static function FromDynamicImage(tempDir: string, created: Result<string, string>, saved: Result<(), string>)
      : (r: TessResult<Image>)
      ensures created.Err? ==> r == Err(TempfileError(created.error))
      ensures created.Ok? && saved.Err? ==> r == Err(DynamicImageError(saved.error))
      ensures created.Ok? && saved.Ok? ==> r == Ok(Image(TempFile(TempFilePath(tempDir, created.value))))
      ensures created.Ok? && saved.Ok? && '/' !in created.value ==> r.Ok? && r.value.Valid()
    {
      var random :- created.MapErr(e => TempfileError(e));
      var path := TempFilePath(tempDir, random);
      var _ :- saved.MapErr(e => DynamicImageError(e));
      PngIsSupported();
      Ok(Image(TempFile(path)))
    }

    /** The path of the image, as a string. */
    function GetImagePath(): (r: TessResult<string>)
      ensures r == Ok(data.path)
    {
      (match data
       case Path(x) => ToStr(x)
       case TempFile(x) => ToStr(x)).OkOr(ImageNotFoundError)
    }

    /** The text shown for an image: its path. Rust unwraps the path here,
        so it requires that the path can be had. */
    function Display(): (s: string)
      requires GetImagePath().Ok?
      ensures GetImagePath() == Ok(s)
    {
      GetImagePath().value
    }

    /** The path of the handle passes the format check: true of every
        handle from `FromPath`, and of every handle from `FromDynamicImage`
        whose random name part has no slash. */
    predicate Valid() {
      CheckImageFormat(data.path).Ok?
    }
  }

  // ---------------------------------------------------------------------
  // Properties of the image handle
  // ---------------------------------------------------------------------

  /** A path without an extension is refused before anything else is looked at. */
  lemma MissingExtensionRejected(path: string)
    requires Extension(path) == None
    ensures Image.FromPath(path) == Err(ImageFormatError)
  {
  }

  /** The verdict depends on the extension alone: directory, stem and the
      file system play no part. */
  lemma VerdictDependsOnlyOnExtension(p: string, q: string)
    requires Extension(p) == Extension(q)
    ensures Image.FromPath(p).Ok? <==> Image.FromPath(q).Ok?
  {
  }

  /** Letter case in the extension does not matter. */
  lemma VerdictIgnoresCase(p: string, q: string)
    requires Extension(p).Some? && Extension(q).Some?
    requires SameIgnoringCase(Extension(p).value, Extension(q).value)
    ensures Image.FromPath(p).Ok? <==> Image.FromPath(q).Ok?
  {
    var e1, e2 := Extension(p).value, Extension(q).value;
    ToUppercaseIdentifiesCaseVariants(e1, e2);
    UppercaseInListIffSupportedSpelling(e1);
    UppercaseInListIffSupportedSpelling(e2);
  }

  /** A bare file name `stem.e` has the extension `e`. */
  lemma ExtensionOfBareFile(stem: string, e: string)
    requires stem != [] && '/' !in stem && '/' !in e && '.' !in e
    requires stem + "." + e != ".."
    ensures Extension(stem + "." + e) == Some(e)
  {
    var name := stem + "." + e;
    assert '/' !in name by {
      forall i | 0 <= i < |name| ensures name[i] != '/' {
        if i < |stem| { assert name[i] == stem[i]; }
        else if i > |stem| { assert name[i] == e[i - |stem| - 1]; }
      }
    }
    FileNameOfPiece(name);
    ExtensionOfStemAndSuffix(stem, e);
  }

  /** For a file `stem.e` in any directory, the handle is made exactly when
      `e` spells a supported format, and the error otherwise is the format
      error. */
  lemma FromPathVerdictOfFile(dir: string, stem: string, e: string)
    requires stem != [] && '/' !in stem && '/' !in e && '.' !in e
    requires stem + "." + e != ".."
    ensures Extension(dir + "/" + (stem + "." + e)) == Some(e)
    ensures Image.FromPath(dir + "/" + (stem + "." + e)).Ok? <==> IsSupportedSpelling(e)
    ensures !IsSupportedSpelling(e) ==> Image.FromPath(dir + "/" + (stem + "." + e)) == Err(ImageFormatError)
  {
    ExtensionOfBareFile(stem, e);
    FileNameUnderDirectory(dir, stem + "." + e);
  }

  /** A handle made from a path gives that very path back, and shows it. */
  lemma FromPathRoundTrip(path: string)
    requires Image.FromPath(path).Ok?
    ensures Image.FromPath(path).value.GetImagePath() == Ok(path)
    ensures Image.FromPath(path).value.Display() == path
  {
  }

  lemma PngIsSupported()
    ensures IsSupportedSpelling("png")
  {
    assert ToUppercase("png") == "PNG";
    UppercaseInListIffSupportedSpelling("png");
  }

  /** "img/string.png" is accepted and read back unchanged. */
  lemma StringPngExample()
    ensures Image.FromPath("img/string.png") == Ok(Image(Path("img/string.png")))
    ensures Image.FromPath("img/string.png").value.GetImagePath() == Ok("img/string.png")
  {
    assert "img/string.png" == "img" + "/" + ("string" + "." + "png");
    PngIsSupported();
    FromPathVerdictOfFile("img", "string", "png");
  }

  /** A file name without a dot has no extension and is refused, in any
      directory. */
  lemma FromPathWithoutDot(dir: string, name: string)
    requires name != [] && '/' !in name && '.' !in name
    ensures Image.FromPath(dir + "/" + name) == Err(ImageFormatError)
  {
    FileNameOfPiece(name);
    FileNameUnderDirectory(dir, name);
  }

  lemma TxtIsNotSupported()
    ensures !IsSupportedSpelling("txt")
  {
    assert ToUppercase("txt") == "TXT";
    UppercaseInListIffSupportedSpelling("txt");
  }

  /** "img/string.txt" is refused. */
  lemma StringTxtExample()
    ensures Image.FromPath("img/string.txt") == Err(ImageFormatError)
  {
    assert "img/string.txt" == "img" + "/" + ("string" + "." + "txt");
    TxtIsNotSupported();
    FromPathVerdictOfFile("img", "string", "txt");
  }

  /** "img/noext" has no extension and is refused. */
  lemma NoExtensionExample()
    ensures Image.FromPath("img/noext") == Err(ImageFormatError)
  {
    assert "img/noext" == "img" + "/" + "noext";
    FromPathWithoutDot("img", "noext");
  }

  /** A hidden file such as ".png" has no extension and is refused. */
  lemma HiddenFileExample()
    ensures Image.FromPath("img/.png") == Err(ImageFormatError)
  {
    assert "img/.png" == "img" + "/" + ".png";
    FileNameOfPiece(".png");
    FileNameUnderDirectory("img", ".png");
    HiddenNameHasNoExtension(".png");
  }

  lemma JpgSpellingsSupported()
    ensures IsSupportedSpelling("jpg") && IsSupportedSpelling("JPG") && IsSupportedSpelling("Jpg")
  {
    assert ToUppercase("jpg") == "JPG";
    assert ToUppercase("JPG") == "JPG";
    assert ToUppercase("Jpg") == "JPG";
    UppercaseInListIffSupportedSpelling("jpg");
    UppercaseInListIffSupportedSpelling("JPG");
    UppercaseInListIffSupportedSpelling("Jpg");
  }

  /** For a bare file name `stem.e`, the handle is made exactly when `e`
      spells a supported format. */
  lemma FromPathVerdictOfBareFile(stem: string, e: string)
    requires stem != [] && '/' !in stem && '/' !in e && '.' !in e
    requires stem + "." + e != ".."
    ensures Image.FromPath(stem + "." + e).Ok? <==> IsSupportedSpelling(e)
  {
    ExtensionOfBareFile(stem, e);
  }

  /** "photo.jpg" is accepted. */
  lemma LowerCaseJpgExample()
    ensures Image.FromPath("photo.jpg").Ok?
  {
    JpgSpellingsSupported();
    assert "photo.jpg" == "photo" + "." + "jpg";
    FromPathVerdictOfBareFile("photo", "jpg");
  }

  /** "photo.JPG" is accepted. */
  lemma UpperCaseJpgExample()
    ensures Image.FromPath("photo.JPG").Ok?
  {
    JpgSpellingsSupported();
    assert "photo.JPG" == "photo" + "." + "JPG";
    FromPathVerdictOfBareFile("photo", "JPG");
  }

  /** "photo.Jpg" is accepted. */
  lemma MixedCaseJpgExample()
    ensures Image.FromPath("photo.Jpg").Ok?
  {
    JpgSpellingsSupported();
    assert "photo.Jpg" == "photo" + "." + "Jpg";
    FromPathVerdictOfBareFile("photo", "Jpg");
  }

  /** The temporary file of an in-memory image would itself pass the format
      check, whatever directory and random name part the facility picks. */
  lemma TempFilePassesFormatCheck(dir: string, random: string)
    requires '/' !in random
    ensures Image.CheckImageFormat(TempFilePath(dir, random)).Ok?
    ensures Image.FromPath(TempFilePath(dir, random)) == Ok(Image(Path(TempFilePath(dir, random))))
  {
    PngIsSupported();
  }

  /** The path of a valid handle, given back to `FromPath`, makes a handle
      on the same path: whatever kind of handle it came from. */
  lemma ValidHandleReopens(img: Image)
    requires img.Valid()
    ensures img.GetImagePath().Ok?
    ensures Image.FromPath(img.GetImagePath().value) == Ok(Image(Path(img.data.path)))
  {
  }

  /** A handle on a freshly written temporary file gives back that file's
      path, which carries the `png` extension. */
  lemma FromDynamicImageResolves(dir: string, random: string)
    requires '/' !in random
    ensures Image.FromDynamicImage(dir, Ok(random), Ok(())).Ok?
    ensures Image.FromDynamicImage(dir, Ok(random), Ok(())).value.GetImagePath() == Ok(TempFilePath(dir, random))
    ensures Extension(TempFilePath(dir, random)) == Some("png")
  {
    TempFilePassesFormatCheck(dir, random);
  }
}
