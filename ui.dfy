/** The state and event handlers of the `Converter` component in
    src/components/Converter.tsx. Each `useState` hook is a field; each
    handler is a method that runs to completion between two renders. */
module ConverterUi {
  import opened Wrappers
  import opened Text
  import opened Converter

  const InvalidImageMessage := "Please upload a valid image file."
  const FallbackErrorMessage := "An error occurred during conversion."
  const FallbackName := "image"

  /** The drop zone's check: a media type starting "image/", or a name ending in
      ".heic" in any letter case. */
  predicate AcceptsDrop(f: File) {
    StartsWith(f.mediaType, "image/") || EndsWith(Lower(f.name), ".heic")
  }

  /** Every file the converter would route through `heic2any` passes the
      drop zone's check. */
  lemma HeicFilesAccepted(f: File)
    requires IsHeic(f)
    ensures AcceptsDrop(f)
  {
    if f.mediaType == "image/heic" || f.mediaType == "image/heif" {
      assert f.mediaType[..6] == "image/";
    }
  }

  /** A ".heif" name, in any letter case, with no media type is not taken
      by the drop zone. */
  lemma UntypedHeifRejected(file: File)
    requires file.mediaType == "" && EndsWith(Lower(file.name), ".heif")
    ensures !AcceptsDrop(file)
  {
    UntypedHeifNotRouted(file);
  }

  /** `err.message || 'An error occurred during conversion.'`. */
  function ErrorText(f: Failure): (text: string)
    ensures text != []
    ensures Message(f) != [] ==> text == Message(f)
    ensures Message(f) == [] ==> text == FallbackErrorMessage
  {
    var m := Message(f);
    if m == "" then FallbackErrorMessage else m
  }

  /** `file?.name || 'image'`. */
  function OriginalName(file: Option<File>): (name: string)
    ensures name != []
    ensures file.Some? && file.value.name != [] ==> name == file.value.name
    ensures file.None? || file.value.name == [] ==> name == FallbackName
  {
    if file.Some? && file.value.name != "" then file.value.name else FallbackName
  }

  /** The download name: the original name with its last extension, if any,
      replaced by the format. A leading dot does not start an extension. */
  function DownloadName(file: Option<File>, format: string): string {
    var original := OriginalName(file);
    var dot := LastIndexOf(original, '.');
    // `substring(0, dot)` is empty for dot <= 0, and `||` then keeps the name
    var stem := if dot > 0 then original[..dot] else original;
    stem + "." + format
  }

  /** A name `stem.ext` with a non-empty stem and a dot-free extension is
      downloaded as `stem.format`. */
  lemma DownloadNameReplacesExtension(file: Option<File>, format: string, stem: string, ext: string)
    requires stem != [] && Excludes(ext, '.')
    requires OriginalName(file) == stem + "." + ext
    ensures DownloadName(file, format) == stem + "." + format
  {
    var original := OriginalName(file);
    var dot := LastIndexOf(original, '.');
    assert original[|stem|] == '.';
    forall k | |stem| < k < |original| ensures original[k] != '.' {
      assert original[k] == ext[k - |stem| - 1];
    }
    assert dot == |stem|;
    assert original[..dot] == stem;
  }

  /** A name with no dot past its first char keeps all of it and gains the
      format as its extension. */
  lemma DownloadNameAppendsExtension(file: Option<File>, format: string)
    requires Excludes(OriginalName(file)[1..], '.')
    ensures DownloadName(file, format) == OriginalName(file) + "." + format
  {
    var original := OriginalName(file);
    forall k | 1 <= k < |original| ensures original[k] != '.' {
      assert original[k] == original[1..][k - 1];
    }
  }

  /** "a.b.png" converted to JPEG is saved as "a.b.jpeg". */
  lemma DownloadNameOfDottedName()
    ensures DownloadName(Some(File("a.b.png", "image/png", [])), "jpeg") == "a.b.jpeg"
  {
    var file := Some(File("a.b.png", "image/png", []));
    assert OriginalName(file) == "a.b.png";
    assert "a.b.png" == "a.b" + "." + "png";
    assert Excludes("png", '.');
    DownloadNameReplacesExtension(file, "jpeg", "a.b", "png");
  }

  /** "noext" keeps its whole name. */
  lemma DownloadNameWithoutExtension()
    ensures DownloadName(Some(File("noext", "", [])), "png") == "noext.png"
  {
    var file := Some(File("noext", "", []));
    assert OriginalName(file) == "noext";
    assert "noext"[1..] == "oext";
    DownloadNameAppendsExtension(file, "png");
  }

  /** A dot file such as ".hidden" keeps its whole name. */
  lemma DownloadNameOfDotFile()
    ensures DownloadName(Some(File(".hidden", "", [])), "webp") == ".hidden.webp"
  {
    var file := Some(File(".hidden", "", []));
    assert OriginalName(file) == ".hidden";
    assert ".hidden"[1..] == "hidden";
    DownloadNameAppendsExtension(file, "webp");
  }

  /** Without a file, or with a nameless one, the result is saved as "image". */
  lemma DownloadNameFallback(file: Option<File>, format: string)
    requires file.None? || file.value.name == []
    ensures DownloadName(file, format) == "image." + format
  {
    assert FallbackName[1..] == "mage";
    DownloadNameAppendsExtension(file, format);
  }

  /** A media type the encoder can give a converted blob. */
  predicate IsOutputMediaType(mediaType: string) {
    exists format | format in OutputFormats :: MimeTypeFor(format) == Some(mediaType)
  }

  class ConverterView {
    var file: Option<File>
    var format: string
    var isConverting: bool
    var convertedUrl: Option<ObjectUrl>
    var error: Option<string>
    var isDragging: bool

    /** What holds between two handlers: a selectable format, no conversion
        in flight, a result only for a chosen file and of an output type, and
        never an empty error text. */
    ghost predicate Valid()
      reads this
    {
      && format in OutputFormats
      && !isConverting
      && (convertedUrl.Some? ==> file.Some? && IsOutputMediaType(convertedUrl.value.blob.mediaType))
      && (error.Some? ==> error.value != [])
    }

    /** The initial state of the hooks. */
    constructor ()
      ensures Valid()
      ensures file.None? && format == "png" && convertedUrl.None? && error.None?
      ensures !isConverting && !isDragging
    {
      file := None;
      format := "png";
      isConverting := false;
      convertedUrl := None;
      error := None;
      isDragging := false;
    }

    method OnDragOver()
      modifies this`isDragging
      ensures isDragging
    {
      isDragging := true;
    }

    method OnDragLeave()
      modifies this`isDragging
      ensures !isDragging
    {
      isDragging := false;
    }

    /** A drop takes the first file when it passes the drop zone's check,
        reports an invalid one and ignores an empty drop. */
    method OnDrop(files: seq<File>)
      requires Valid()
      modifies this`isDragging, this`file, this`error, this`convertedUrl
      ensures Valid() && !isDragging
      ensures files == [] ==> file == old(file) && error == old(error) && convertedUrl == old(convertedUrl)
      ensures files != [] && !AcceptsDrop(files[0]) ==>
                file == old(file) && error == Some(InvalidImageMessage) && convertedUrl == old(convertedUrl)
      ensures files != [] && AcceptsDrop(files[0]) ==>
                file == Some(files[0]) && error.None? && convertedUrl.None?
    {
      isDragging := false;
      if |files| > 0 {
        var dropped := files[0];
        if !AcceptsDrop(dropped) {
          error := Some(InvalidImageMessage);
          return;
        }
        file := Some(dropped);
        error := None;
        convertedUrl := None;
      }
    }

    /** The file input takes its first file without any check. */
    method OnFileSelect(files: seq<File>)
      requires Valid()
      modifies this`file, this`error, this`convertedUrl
      ensures Valid()
      ensures files == [] ==> file == old(file) && error == old(error) && convertedUrl == old(convertedUrl)
      ensures files != [] ==> file == Some(files[0]) && error.None? && convertedUrl.None?
    {
      if |files| > 0 {
        file := Some(files[0]);
        error := None;
        convertedUrl := None;
      }
    }

    /** The format select offers exactly the output formats. */
    method SelectFormat(f: string)
      requires Valid() && f in OutputFormats
      modifies this`format
      ensures Valid() && format == f
    {
      format := f;
    }

    /** `handleConvert`: converts the chosen file to the selected format at
        the default quality; a success shows the result, a failure shows
        the error text and keeps whatever result was shown. */
    method HandleConvert(runtime: ConverterRuntime, host: Host)
      requires Valid() && runtime.Valid()
      modifies this`isConverting, this`error, this`convertedUrl, runtime
      ensures Valid() && runtime.Valid()
      ensures old(file).None? ==>
                && error == old(error) && convertedUrl == old(convertedUrl)
                && runtime.trace == old(runtime.trace) && runtime.wasmInit == old(runtime.wasmInit)
      ensures old(file).Some? ==>
                var run := Conversion(old(runtime.wasmInit), host, old(file).value, format,
                                      DefaultQuality, old(runtime.nextHandle));
                && runtime.trace == old(runtime.trace) + run.events
                && runtime.wasmInit == Some(Loaded(old(runtime.wasmInit), host))
                && (run.result.Success? ==> convertedUrl == Some(run.result.value) && error.None?)
                && (run.result.Failure? ==>
                      convertedUrl == old(convertedUrl) && error == Some(ErrorText(run.result.error)))
    {
      if file.None? {
        return;
      }
      isConverting := true;
      error := None;
      var r := runtime.ConvertImage(host, file.value, format, DefaultQuality);
      if r.Success? {
        assert IsOutputMediaType(r.value.blob.mediaType) by {
          SuccessfulMediaType(old(runtime.wasmInit), host, file.value, format, DefaultQuality, old(runtime.nextHandle));
          assert MimeTypeFor(format) == Some(r.value.blob.mediaType);
        }
        convertedUrl := Some(r.value);
      } else {
        error := Some(ErrorText(r.error));
      }
      isConverting := false;
    }

    /** `handleDownload`: the name the result is saved under, or nothing
        when there is no result. */
    method HandleDownload() returns (name: Option<string>)
      ensures convertedUrl.None? ==> name.None?
      ensures convertedUrl.Some? ==> name == Some(DownloadName(file, format))
    {
      if convertedUrl.None? {
        return None;
      }
      name := Some(DownloadName(file, format));
    }

    /** `reset` clears the file, the result and the error. */
    method Reset()
      requires Valid()
      modifies this`file, this`convertedUrl, this`error
      ensures Valid() && file.None? && convertedUrl.None? && error.None?
      ensures format == old(format)
    {
      file := None;
      convertedUrl := None;
      error := None;
    }
  }
}
