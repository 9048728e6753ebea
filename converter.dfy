/** The client-side conversion pipeline of src/lib/converter.ts.

    The codec runtime (Photon, compiled to WebAssembly), the secondary HEIC
    decoder and the browser's Blob machinery are not modelled: a `Host` value
    says what each of their calls returns, and may say that a call throws.
    `ConverterRuntime` holds the module's own state (the cached `wasmInit`
    promise) together with the codec's live image handles and a trace of every
    call the pipeline makes into the host. */
module Converter {
  import opened Wrappers
  import opened Text

  type Bytes = seq<bv8>

  /** Identity of a `PhotonImage` living in the codec runtime's memory. */
  type Handle = nat

  /** A `File` chosen by the user: its bytes, declared media type and name. */
  datatype File = File(name: string, mediaType: string, bytes: Bytes)

  /** A `Blob`: bytes and a media type. */
  datatype Blob = Blob(bytes: Bytes, mediaType: string)

  /** A decoded image held by the codec runtime. */
  datatype Raster = Raster(width: nat, height: nat, pixels: Bytes)

  /** How the promise returned by the codec's `init()` settles. */
  datatype InitOutcome = InitOk | InitRejected(message: string)

  /** `heic2any` resolves to one blob or to a list of blobs. */
  datatype HeicOutput = OneBlob(blob: Blob) | BlobList(blobs: seq<Blob>)

  /** What each host call returns; `None` stands for a call that throws or rejects. */
  datatype Host = Host(
    init: InitOutcome,
    heic2any: Blob -> Option<HeicOutput>,
    newFromByteslice: Bytes -> Option<Raster>,
    getBytes: Raster -> Option<Bytes>,
    getBytesJpeg: (Raster, int) -> Option<Bytes>,
    getBytesWebp: Raster -> Option<Bytes>)

  /** The three encoder entry points of a `PhotonImage`. */
  datatype EncodeCall = GetBytes | GetBytesJpeg(quality: int) | GetBytesWebp

  /** One call from the pipeline into the host, in the order it is made. */
  datatype Event =
    | Init
    | HeicDecode
    | Decode(input: Bytes, image: Option<Handle>)
    | Encode(call: EncodeCall, handle: Handle)
    | Free(handle: Handle)
    | CreateObjectUrl(mediaType: string)

  /** Why a conversion failed; `Message` gives the text of the thrown `Error`. */
  datatype Failure =
    | InitFailed(message: string)
    | HeicFailed
    | MissingHeicOutput
    | DecodeFailed
    | ConvertFailed

  /** The object URL `convertImage` resolves to, standing for the blob it names. */
  datatype ObjectUrl = ObjectUrl(blob: Blob)

  /** What one stage, or one whole invocation, produces: a result and its host calls. */
  datatype Step<T> = Step(result: Result<T, Failure>, events: seq<Event>)

  /** `quality` when the caller passes none. */
  const DefaultQuality := 90

  /** The `OutputFormat` union. */
  const OutputFormats: set<string> := {"png", "jpeg", "webp"}

  function Message(f: Failure): string {
    match f
    case InitFailed(m) => m
    case HeicFailed => "Failed to process HEIC image."
    // reading `arrayBuffer` of `undefined` throws a TypeError (V8's wording)
    case MissingHeicOutput => "Cannot read properties of undefined (reading 'arrayBuffer')"
    case DecodeFailed => "Failed to decode image data. The format might not be supported."
    case ConvertFailed => "Failed to convert image."
  }

  /** The file goes through `heic2any` first: by name suffix, in any letter
      case, or by either of the two HEIC media types. */
  predicate IsHeic(file: File) {
    || EndsWith(Lower(file.name), ".heic")
    || file.mediaType == "image/heic"
    || file.mediaType == "image/heif"
  }

  /** The HEIC test is by ".heic" suffix in any letter case or by media
      type: a name ending in ".HEIC", ".Heic" and so on is routed through
      `heic2any` whatever its media type. */
  lemma HeicDetection(file: File, stem: string, extension: string)
    requires file.name == stem + extension && Lower(extension) == ".heic"
    ensures IsHeic(file)
  {
    LowerAppend(stem, extension);
    var lowered := Lower(file.name);
    assert lowered[|lowered| - 5..] == Lower(extension);
  }

  /** A ".heif" name, in any letter case, with no media type is not routed
      through `heic2any`: only the media type would say it is HEIF. */
  lemma UntypedHeifNotRouted(file: File)
    requires file.mediaType == "" && EndsWith(Lower(file.name), ".heif")
    ensures !IsHeic(file)
  {
    var lowered := Lower(file.name);
    assert lowered[|lowered| - 5..][4] == lowered[|lowered| - 1];
    assert lowered[|lowered| - 5..] != ".heic" by {
      assert lowered[|lowered| - 5..][4] != ".heic"[4];
    }
  }

  /** The encoder call the `switch (format)` makes, if any. */
  function EncodeCallFor(format: string, quality: int): (call: Option<EncodeCall>)
    ensures call.Some? <==> format in OutputFormats
  {
    if format == "png" then Some(GetBytes)
    else if format == "jpeg" then Some(GetBytesJpeg(quality))
    else if format == "webp" then Some(GetBytesWebp)
    else None
  }

  /** The media type the `switch (format)` gives the output. */
  function MimeTypeFor(format: string): (mediaType: Option<string>)
    ensures mediaType.Some? <==> format in OutputFormats
    ensures mediaType.Some? ==> mediaType.value == "image/" + format
  {
    if format == "png" then Some("image/png")
    else if format == "jpeg" then Some("image/jpeg")
    else if format == "webp" then Some("image/webp")
    else None
  }

  function RunEncoder(host: Host, call: EncodeCall, raster: Raster): Option<Bytes> {
    match call
    case GetBytes => host.getBytes(raster)
    case GetBytesJpeg(q) => host.getBytesJpeg(raster, q)
    case GetBytesWebp => host.getBytesWebp(raster)
  }

  /** The settled init promise after `ensureWasmLoaded`: the cached one, or a new one. */
  function Loaded(cached: Option<InitOutcome>, host: Host): InitOutcome {
    if cached.None? then host.init else cached.value
  }

  /** Step 2: the blob whose bytes are decoded. */
  function Normalize(host: Host, file: File): Step<Blob> {
    var original := Blob(file.bytes, file.mediaType);
    if !IsHeic(file) then Step(Success(original), [])
    else
      match host.heic2any(original)
      case None => Step(Failure(HeicFailed), [HeicDecode])
      case Some(OneBlob(b)) => Step(Success(b), [HeicDecode])
      case Some(BlobList(bs)) =>
        if bs == [] then Step(Failure(MissingHeicOutput), [HeicDecode])
        else Step(Success(bs[0]), [HeicDecode])
  }

  /** Steps 5 and 6 once the image is decoded into handle `h`: encode, then
      free whether or not the encoder threw. */
  function EncodeAndFree(host: Host, raster: Raster, format: string, quality: int, h: Handle): Step<Blob> {
    match EncodeCallFor(format, quality)
    case None => Step(Failure(ConvertFailed), [Free(h)])
    case Some(call) =>
      var events := [Encode(call, h), Free(h)];
      match RunEncoder(host, call, raster)
      case None => Step(Failure(ConvertFailed), events)
      case Some(out) => Step(Success(Blob(out, MimeTypeFor(format).value)), events)
  }

  /** Steps 3 to 7 once the input blob is known: decode into handle `h`,
      encode and free, then wrap the bytes in a blob URL. */
  function DecodeAndEncode(host: Host, bytes: Bytes, format: string, quality: int, h: Handle): Step<ObjectUrl> {
    match host.newFromByteslice(bytes)
    case None => Step(Failure(DecodeFailed), [Decode(bytes, None)])
    case Some(raster) =>
      var enc := EncodeAndFree(host, raster, format, quality, h);
      var events := [Decode(bytes, Some(h))] + enc.events;
      match enc.result
      case Failure(f) => Step(Failure(f), events)
      case Success(out) => Step(Success(ObjectUrl(out)), events + [CreateObjectUrl(out.mediaType)])
  }

  /** Steps 2 to 7, once `init()` has succeeded, when the next decoded image
      gets handle `h`. */
  function AfterInit(host: Host, file: File, format: string, quality: int, h: Handle): Step<ObjectUrl> {
    var norm := Normalize(host, file);
    match norm.result
    case Failure(f) => Step(Failure(f), norm.events)
    case Success(input) =>
      var rest := DecodeAndEncode(host, input.bytes, format, quality, h);
      Step(rest.result, norm.events + rest.events)
  }

  /** Step 1's host call: `init()` runs only when no promise is cached. */
  function InitEvents(cached: Option<InitOutcome>): seq<Event> {
    if cached.None? then [Init] else []
  }

  /** One call of `convertImage(file, format, quality)` when the module's
      cached init promise is `cached` and the next decoded image gets handle `h`. */
  function Conversion(cached: Option<InitOutcome>, host: Host, file: File, format: string,
                      quality: int, h: Handle): Step<ObjectUrl>
  {
    match Loaded(cached, host)
    case InitRejected(m) => Step(Failure(InitFailed(m)), InitEvents(cached))
    case InitOk =>
      var rest := AfterInit(host, file, format, quality, h);
      Step(rest.result, InitEvents(cached) + rest.events)
  }

  class ConverterRuntime {
    /** The module-level `wasmInit`: `None` until the first conversion, then
        the settled init promise, never reassigned. */
    var wasmInit: Option<InitOutcome>
    /** The `PhotonImage`s alive in the codec runtime's memory. */
    var heap: map<Handle, Raster>
    var nextHandle: Handle
    /** Every call made into the host so far. */
    var trace: seq<Event>

    /** Between conversions no image is alive, and `init()` has been called
        exactly once, first, if and only if the promise is cached. */
    ghost predicate Valid()
      reads this
    {
      && heap == map[]
      && (wasmInit.None? <==> trace == [])
      && InitOnlyFirst(trace)
    }

    constructor ()
      ensures Valid()
      ensures wasmInit == None && trace == [] && nextHandle == 0
    {
      wasmInit := None;
      heap := map[];
      nextHandle := 0;
      trace := [];
    }

    /** `ensureWasmLoaded`: calls `init()` only when no promise is cached. */
    method EnsureWasmLoaded(host: Host) returns (ready: InitOutcome)
      modifies this
      ensures old(wasmInit).Some? ==> wasmInit == old(wasmInit) && trace == old(trace)
      ensures old(wasmInit).None? ==> wasmInit == Some(host.init) && trace == old(trace) + [Init]
      ensures wasmInit == Some(ready) && ready == Loaded(old(wasmInit), host)
      ensures heap == old(heap) && nextHandle == old(nextHandle)
    {
      if wasmInit.None? {
        trace := trace + [Init];
        wasmInit := Some(host.init);
      }
      ready := wasmInit.value;
    }

    /** `PhotonImage.new_from_byteslice`: a new live image, or a throw. */
    method NewFromByteslice(host: Host, bytes: Bytes) returns (image: Option<Handle>)
      modifies this`heap, this`nextHandle, this`trace
      ensures image == if host.newFromByteslice(bytes).Some? then Some(old(nextHandle)) else None
      ensures image.Some? ==> heap == old(heap)[old(nextHandle) := host.newFromByteslice(bytes).value]
                              && nextHandle == old(nextHandle) + 1
      ensures image.None? ==> heap == old(heap) && nextHandle == old(nextHandle)
      ensures trace == old(trace) + [Decode(bytes, image)]
    {
      var decoded := host.newFromByteslice(bytes);
      if decoded.Some? {
        image := Some(nextHandle);
        heap := heap[nextHandle := decoded.value];
        nextHandle := nextHandle + 1;
      } else {
        image := None;
      }
      trace := trace + [Decode(bytes, image)];
    }

    /** `image.get_bytes*()` on a live image. */
    method EncodeImage(host: Host, image: Handle, call: EncodeCall) returns (out: Option<Bytes>)
      requires image in heap
      modifies this`trace
      ensures out == RunEncoder(host, call, heap[image])
      ensures trace == old(trace) + [Event.Encode(call, image)]
    {
      out := RunEncoder(host, call, heap[image]);
      trace := trace + [Event.Encode(call, image)];
    }

    /** `image.free()`: the image leaves the runtime's memory. */
    method FreeImage(image: Handle)
      requires image in heap
      modifies this`heap, this`trace
      ensures heap == old(heap) - {image}
      ensures trace == old(trace) + [Free(image)]
    {
      heap := heap - {image};
      trace := trace + [Free(image)];
    }

    /** Step 2 of `convertImage`: HEIC inputs go through `heic2any`, whose
        first blob replaces the file; other inputs pass through untouched. */
    method NormalizeInput(host: Host, file: File) returns (input: Result<Blob, Failure>)
      modifies this`trace
      ensures input == Normalize(host, file).result
      ensures trace == old(trace) + Normalize(host, file).events
    {
      var inputBlob := Blob(file.bytes, file.mediaType);
      if IsHeic(file) {
        trace := trace + [HeicDecode];
        var result := host.heic2any(inputBlob);
        if result.None? {
          return Failure(HeicFailed);
        }
        match result.value {
          case OneBlob(b) =>
            inputBlob := b;
          case BlobList(bs) =>
            if bs == [] {
              return Failure(MissingHeicOutput);
            }
            inputBlob := bs[0];
        }
      }
      input := Success(inputBlob);
    }

    /** Steps 5 and 6 of `convertImage`: the `switch (format)` inside a
        try/finally that frees the image on every path. */
    method EncodeAndFreeImage(host: Host, image: Handle, format: string, quality: int)
      returns (out: Result<Blob, Failure>)
      requires image in heap
      modifies this`heap, this`trace
      ensures var e := EncodeAndFree(host, old(heap)[image], format, quality, image);
              out == e.result && trace == old(trace) + e.events
      ensures heap == old(heap) - {image}
    {
      var outputBytes: Option<Bytes> := None;
      var mimeType := "";
      if format == "png" {
        outputBytes := EncodeImage(host, image, GetBytes);
        mimeType := "image/png";
      } else if format == "jpeg" {
        outputBytes := EncodeImage(host, image, GetBytesJpeg(quality));
        mimeType := "image/jpeg";
      } else if format == "webp" {
        outputBytes := EncodeImage(host, image, GetBytesWebp);
        mimeType := "image/webp";
      }
      // the default branch throws before any codec call, leaving no output
      FreeImage(image);
      if outputBytes.None? {
        return Failure(ConvertFailed);
      }
      out := Success(Blob(outputBytes.value, mimeType));
    }

    /** Steps 3 to 7 of `convertImage`: decode, encode, free, then the blob URL. */
    method DecodeAndEncodeImage(host: Host, bytes: Bytes, format: string, quality: int)
      returns (r: Result<ObjectUrl, Failure>)
      requires nextHandle !in heap
      modifies this`heap, this`nextHandle, this`trace
      ensures var run := DecodeAndEncode(host, bytes, format, quality, old(nextHandle));
              r == run.result && trace == old(trace) + run.events
      ensures heap == old(heap)
      ensures nextHandle == old(nextHandle) || nextHandle == old(nextHandle) + 1
    {
      // 3-4. decode the bytes into a live image
      var image := NewFromByteslice(host, bytes);
      if image.None? {
        return Failure(DecodeFailed);
      }
      // 5-6. encode, then free
      var output := EncodeAndFreeImage(host, image.value, format, quality);
      if output.Failure? {
        return Failure(output.error);
      }
      // 7. wrap the bytes in a blob and hand out its URL
      trace := trace + [CreateObjectUrl(output.value.mediaType)];
      r := Success(ObjectUrl(output.value));
    }

    /** Steps 2 to 7 of `convertImage`, once `init()` has succeeded. */
    method ConvertLoaded(host: Host, file: File, format: string, quality: int)
      returns (r: Result<ObjectUrl, Failure>)
      requires nextHandle !in heap
      modifies this`heap, this`nextHandle, this`trace
      ensures var run := AfterInit(host, file, format, quality, old(nextHandle));
              r == run.result && trace == old(trace) + run.events
      ensures heap == old(heap)
      ensures nextHandle == old(nextHandle) || nextHandle == old(nextHandle) + 1
    {
      // 2. HEIC normalisation
      var inputBlob := NormalizeInput(host, file);
      if inputBlob.Failure? {
        r := Failure(inputBlob.error);
      } else {
        // 3-7. decode, encode, free, blob URL
        r := DecodeAndEncodeImage(host, inputBlob.value.bytes, format, quality);
      }
    }

    /** `convertImage(file, format, quality)`. */
    method ConvertImage(host: Host, file: File, format: string, quality: int)
      returns (r: Result<ObjectUrl, Failure>)
      requires Valid()
      modifies this
      ensures Valid()
      ensures var run := Conversion(old(wasmInit), host, file, format, quality, old(nextHandle));
              r == run.result && trace == old(trace) + run.events
      ensures wasmInit == Some(Loaded(old(wasmInit), host))
      ensures heap == old(heap)
      ensures nextHandle == old(nextHandle) || nextHandle == old(nextHandle) + 1
    {
      // 1. the codec runtime is initialised before anything else
      var ready := EnsureWasmLoaded(host);
      if ready.InitRejected? {
        r := Failure(InitFailed(ready.message));
      } else {
        ghost var initEvents := trace[|old(trace)|..];
        assert trace == old(trace) + initEvents;
        r := ConvertLoaded(host, file, format, quality);
        ghost var rest := AfterInit(host, file, format, quality, old(nextHandle)).events;
        assert old(trace) + initEvents + rest == old(trace) + (initEvents + rest);
      }
      InitStaysFirst(old(trace), old(wasmInit), host, file, format, quality, old(nextHandle));
    }
  }

  /** `init()` is the first call ever made, and is never made again. */
  ghost predicate InitOnlyFirst(trace: seq<Event>) {
    trace != [] ==> trace[0] == Init && Init !in trace[1..]
  }

  /** A conversion calls `init()` only when no promise is cached, and then first. */
  lemma InitStaysFirst(trace: seq<Event>, cached: Option<InitOutcome>, host: Host, file: File,
                       format: string, quality: int, h: Handle)
    requires InitOnlyFirst(trace) && (cached.None? <==> trace == [])
    ensures var t := trace + Conversion(cached, host, file, format, quality, h).events;
            t != [] && InitOnlyFirst(t)
  {
    var ev := Conversion(cached, host, file, format, quality, h).events;
    ConversionInitFacts(cached, host, file, format, quality, h);
    if cached.None? {
      assert trace + ev == ev;
    } else {
      assert (trace + ev)[0] == trace[0];
      assert (trace + ev)[1..] == trace[1..] + ev;
    }
  }

  // ---------------------------------------------------------------------
  // Reading a trace

  /** Position of each kind of host call in the pipeline. */
  function Rank(e: Event): nat {
    match e
    case Init => 0
    case HeicDecode => 1
    case Decode(_, _) => 2
    case Encode(_, _) => 3
    case Free(_) => 4
    case CreateObjectUrl(_) => 5
  }

  /** The calls follow the pipeline's steps, each kind at most once. */
  ghost predicate InPipelineOrder(events: seq<Event>) {
    forall i, j :: 0 <= i < j < |events| ==> Rank(events[i]) < Rank(events[j])
  }

  ghost predicate RanksWithin(events: seq<Event>, lo: nat, hi: nat) {
    forall e :: e in events ==> lo <= Rank(e) <= hi
  }

  /** How many times `free()` was called. */
  function FreeCount(events: seq<Event>): nat {
    if events == [] then 0
    else (if events[0].Free? then 1 else 0) + FreeCount(events[1..])
  }

  /** The bytes handed to `new_from_byteslice`, call by call. */
  function DecodeInputs(events: seq<Event>): seq<Bytes> {
    if events == [] then []
    else (if events[0].Decode? then [events[0].input] else []) + DecodeInputs(events[1..])
  }

  /** `new_from_byteslice` returned the image `h`. */
  ghost predicate Decoded(events: seq<Event>, h: Handle) {
    exists i :: 0 <= i < |events| && events[i].Decode? && events[i].image == Some(h)
  }

  lemma {:induction false} FreeCountAppend(a: seq<Event>, b: seq<Event>)
    ensures FreeCount(a + b) == FreeCount(a) + FreeCount(b)
  {
    if a != [] {
      assert (a + b)[0] == a[0];
      assert (a + b)[1..] == a[1..] + b;
      FreeCountAppend(a[1..], b);
    } else {
      assert a + b == b;
    }
  }

  lemma {:induction false} DecodeInputsAppend(a: seq<Event>, b: seq<Event>)
    ensures DecodeInputs(a + b) == DecodeInputs(a) + DecodeInputs(b)
  {
    if a != [] {
      assert (a + b)[0] == a[0];
      assert (a + b)[1..] == a[1..] + b;
      DecodeInputsAppend(a[1..], b);
    } else {
      assert a + b == b;
    }
  }

  /** Two ordered runs of calls, the first wholly before the second, make one. */
  lemma OrderedAppend(a: seq<Event>, b: seq<Event>, k: nat)
    requires InPipelineOrder(a) && InPipelineOrder(b)
    requires RanksWithin(a, 0, k) && RanksWithin(b, k + 1, 5)
    ensures InPipelineOrder(a + b)
  {
    forall i, j | 0 <= i < j < |a + b| ensures Rank((a + b)[i]) < Rank((a + b)[j]) {
      if j < |a| {
      } else if i >= |a| {
        assert (a + b)[i] == b[i - |a|] && (a + b)[j] == b[j - |a|];
      } else {
        assert (a + b)[i] == a[i] && (a + b)[j] == b[j - |a|];
      }
    }
  }

  lemma InitEventsFacts(cached: Option<InitOutcome>)
    ensures var pre := InitEvents(cached);
            && InPipelineOrder(pre) && RanksWithin(pre, 0, 0)
            && (Init in pre <==> cached.None?)
            && HeicDecode !in pre
  {
  }

  /** The image `h` is freed exactly once if it was decoded and never
      otherwise, and no other image is decoded or freed. */
  ghost predicate HandleDiscipline(events: seq<Event>, h: Handle) {
    && FreeCount(events) == (if Decoded(events, h) then 1 else 0)
    && (forall e :: e in events && e.Free? ==> e == Free(h))
    && (forall e :: e in events && e.Decode? && e.image.Some? ==> e.image == Some(h))
  }

  /** Calls made before decoding free nothing and decode nothing. */
  lemma {:induction false} NoStageCalls(pre: seq<Event>)
    requires RanksWithin(pre, 0, 1)
    ensures FreeCount(pre) == 0 && DecodeInputs(pre) == []
  {
    if pre != [] {
      assert pre[0] in pre;
      forall e | e in pre[1..] ensures 0 <= Rank(e) <= 1 {
        assert e in pre;
      }
      NoStageCalls(pre[1..]);
    }
  }

  /** A prefix without decoder calls does not change which image was decoded. */
  lemma DecodedAfter(a: seq<Event>, b: seq<Event>, h: Handle)
    requires RanksWithin(a, 0, 1)
    ensures Decoded(a + b, h) <==> Decoded(b, h)
  {
    if Decoded(b, h) {
      var i :| 0 <= i < |b| && b[i].Decode? && b[i].image == Some(h);
      assert (a + b)[|a| + i] == b[i];
    }
    forall i | 0 <= i < |a| ensures !(a + b)[i].Decode? {
      assert (a + b)[i] == a[i] && a[i] in a;
    }
    if Decoded(a + b, h) {
      var i :| 0 <= i < |a + b| && (a + b)[i].Decode? && (a + b)[i].image == Some(h);
      assert (a + b)[i] == b[i - |a|];
    }
  }

  /** Prefixing calls made before decoding keeps the handle discipline and
      the decoder's inputs. */
  lemma DisciplineAfter(pre: seq<Event>, rest: seq<Event>, h: Handle)
    requires RanksWithin(pre, 0, 1) && HandleDiscipline(rest, h)
    ensures HandleDiscipline(pre + rest, h)
    ensures DecodeInputs(pre + rest) == DecodeInputs(rest)
    ensures Decoded(pre + rest, h) <==> Decoded(rest, h)
  {
    NoStageCalls(pre);
    FreeCountAppend(pre, rest);
    DecodeInputsAppend(pre, rest);
    DecodedAfter(pre, rest, h);
    forall e | e in pre ensures !e.Free? && !e.Decode? {
      assert Rank(e) <= 1;
    }
  }

  /** The encode-and-free stage calls the encoder the format names, if any,
      on `h`, then frees `h`; it succeeds only with "image/" + format. */
  lemma EncodeAndFreeShape(host: Host, raster: Raster, format: string, quality: int, h: Handle)
    ensures var step := EncodeAndFree(host, raster, format, quality, h);
            var call := EncodeCallFor(format, quality);
            && step.events == (if call.Some? then [Encode(call.value, h)] else []) + [Free(h)]
            && (step.result.Success? ==>
                  call.Some? && format in OutputFormats && step.result.value.mediaType == "image/" + format)
  {
    var call := EncodeCallFor(format, quality);
    if call.None? {
      assert ([] + [Free(h)]) == [Free(h)];
    }
  }

  /** What a decode stage's calls `ev` on `bytes` promise, when the decoder
      did or did not return the image `h`. */
  ghost predicate StageFacts(ev: seq<Event>, bytes: Bytes, h: Handle, decoded: bool) {
    && InPipelineOrder(ev) && RanksWithin(ev, 2, 5)
    && HandleDiscipline(ev, h)
    && DecodeInputs(ev) == [bytes]
    && (Decoded(ev, h) <==> decoded)
  }

  lemma SingleCall(e: Event)
    ensures FreeCount([e]) == (if e.Free? then 1 else 0)
    ensures DecodeInputs([e]) == (if e.Decode? then [e.input] else [])
  {
    assert [e][1..] == [];
  }

  lemma DecoderThrewStage(bytes: Bytes, h: Handle)
    ensures StageFacts([Decode(bytes, None)], bytes, h, false)
  {
    SingleCall(Decode(bytes, None));
  }

  lemma FormatRejectedStage(bytes: Bytes, h: Handle)
    ensures StageFacts([Decode(bytes, Some(h)), Free(h)], bytes, h, true)
  {
    var ev := [Decode(bytes, Some(h)), Free(h)];
    SingleCall(Free(h));
    assert ev[1..] == [Free(h)];
    assert ev[0].Decode?;
  }

  lemma EncoderThrewStage(bytes: Bytes, h: Handle, call: EncodeCall)
    ensures StageFacts([Decode(bytes, Some(h)), Encode(call, h), Free(h)], bytes, h, true)
  {
    var ev := [Decode(bytes, Some(h)), Encode(call, h), Free(h)];
    SingleCall(Free(h));
    assert ev[1..] == [Encode(call, h), Free(h)];
    assert ev[1..][1..] == [Free(h)];
    assert ev[0].Decode?;
  }

  lemma EncodedStage(bytes: Bytes, h: Handle, call: EncodeCall, mediaType: string)
    ensures StageFacts([Decode(bytes, Some(h)), Encode(call, h), Free(h), CreateObjectUrl(mediaType)], bytes, h, true)
  {
    var ev := [Decode(bytes, Some(h)), Encode(call, h), Free(h), CreateObjectUrl(mediaType)];
    SingleCall(CreateObjectUrl(mediaType));
    assert ev[1..] == [Encode(call, h), Free(h), CreateObjectUrl(mediaType)];
    assert ev[1..][1..] == [Free(h), CreateObjectUrl(mediaType)];
    assert FreeCount([Free(h), CreateObjectUrl(mediaType)]) == 1
        && DecodeInputs([Free(h), CreateObjectUrl(mediaType)]) == [] by {
      assert [Free(h), CreateObjectUrl(mediaType)][1..] == [CreateObjectUrl(mediaType)];
    }
    assert ev[0].Decode?;
  }

  /** The decode stage: one decoder call, in pipeline order, and a free
      exactly when it returned an image. */
  lemma DecodeAndEncodeFacts(host: Host, bytes: Bytes, format: string, quality: int, h: Handle)
    ensures StageFacts(DecodeAndEncode(host, bytes, format, quality, h).events, bytes, h,
                       host.newFromByteslice(bytes).Some?)
  {
    var run := DecodeAndEncode(host, bytes, format, quality, h);
    match host.newFromByteslice(bytes)
    case None =>
      DecoderThrewStage(bytes, h);
    case Some(raster) =>
      EncodeAndFreeShape(host, raster, format, quality, h);
      var enc := EncodeAndFree(host, raster, format, quality, h);
      match EncodeCallFor(format, quality)
      case None =>
        FormatRejectedStage(bytes, h);
        assert run.events == [Decode(bytes, Some(h)), Free(h)];
      case Some(call) =>
        if enc.result.Failure? {
          EncoderThrewStage(bytes, h, call);
          assert run.events == [Decode(bytes, Some(h)), Encode(call, h), Free(h)];
        } else {
          EncodedStage(bytes, h, call, enc.result.value.mediaType);
          assert run.events == [Decode(bytes, Some(h)), Encode(call, h), Free(h),
                                CreateObjectUrl(enc.result.value.mediaType)];
        }
  }

  /** The decode stage calls at most the encoder the format names, on `h`,
      and when it succeeds its calls are exactly decode, encode, free, blob. */
  lemma DecodeAndEncodeCalls(host: Host, bytes: Bytes, format: string, quality: int, h: Handle)
    ensures var run := DecodeAndEncode(host, bytes, format, quality, h);
            && (forall e :: e in run.events && e.Encode? ==>
                  e.handle == h && Some(e.call) == EncodeCallFor(format, quality))
            && (run.result.Success? ==>
                  && EncodeCallFor(format, quality).Some?
                  && run.result.value.blob.mediaType == "image/" + format
                  && run.events == [Decode(bytes, Some(h)), Encode(EncodeCallFor(format, quality).value, h),
                                    Free(h), CreateObjectUrl("image/" + format)])
  {
    match host.newFromByteslice(bytes)
    case None =>
    case Some(raster) =>
      EncodeAndFreeShape(host, raster, format, quality, h);
  }

  /** Steps 2 to 7 call `heic2any` at most once, first, and otherwise keep
      to the decode stage's calls. */
  lemma AfterInitFacts(host: Host, file: File, format: string, quality: int, h: Handle)
    ensures var norm := Normalize(host, file);
            var ev := AfterInit(host, file, format, quality, h).events;
            && HandleDiscipline(ev, h)
            && (HeicDecode in ev <==> IsHeic(file))
            && (norm.result.Success? ==>
                  DecodeInputs(ev) == [norm.result.value.bytes]
                  && (Decoded(ev, h) <==> host.newFromByteslice(norm.result.value.bytes).Some?))
            && (norm.result.Failure? ==> ev == norm.events && DecodeInputs(ev) == [] && !Decoded(ev, h))
  {
    var norm := Normalize(host, file);
    var ev := AfterInit(host, file, format, quality, h).events;
    assert norm.events == if IsHeic(file) then [HeicDecode] else [];
    assert RanksWithin(norm.events, 0, 1);
    var rest: seq<Event> := [];
    if norm.result.Success? {
      var bytes := norm.result.value.bytes;
      rest := DecodeAndEncode(host, bytes, format, quality, h).events;
      DecodeAndEncodeFacts(host, bytes, format, quality, h);
      assert HeicDecode !in rest;
    } else {
      assert norm.events + [] == norm.events;
    }
    assert ev == norm.events + rest;
    DisciplineAfter(norm.events, rest, h);
  }

  /** Steps 2 to 7 call each host function at most once, in pipeline order. */
  lemma AfterInitOrdered(host: Host, file: File, format: string, quality: int, h: Handle)
    ensures var ev := AfterInit(host, file, format, quality, h).events;
            InPipelineOrder(ev) && RanksWithin(ev, 1, 5)
  {
    var norm := Normalize(host, file);
    assert norm.events == if IsHeic(file) then [HeicDecode] else [];
    if norm.result.Success? {
      var bytes := norm.result.value.bytes;
      DecodeAndEncodeFacts(host, bytes, format, quality, h);
      OrderedAppend(norm.events, DecodeAndEncode(host, bytes, format, quality, h).events, 1);
    }
  }

  /** What a conversion does after `init()`: nothing once init has failed. */
  function Tail(cached: Option<InitOutcome>, host: Host, file: File,
                format: string, quality: int, h: Handle): Step<ObjectUrl>
  {
    match Loaded(cached, host)
    case InitRejected(m) => Step(Failure(InitFailed(m)), [])
    case InitOk => AfterInit(host, file, format, quality, h)
  }

  /** A conversion is its init call, if any, followed by its tail. */
  lemma ConversionSplits(cached: Option<InitOutcome>, host: Host, file: File,
                         format: string, quality: int, h: Handle)
    ensures var tail := Tail(cached, host, file, format, quality, h);
            Conversion(cached, host, file, format, quality, h)
              == Step(tail.result, InitEvents(cached) + tail.events)
  {
    if Loaded(cached, host) != InitOk {
      assert InitEvents(cached) + [] == InitEvents(cached);
    }
  }

  lemma TailFacts(cached: Option<InitOutcome>, host: Host, file: File,
                  format: string, quality: int, h: Handle)
    ensures var ev := Tail(cached, host, file, format, quality, h).events;
            && InPipelineOrder(ev) && RanksWithin(ev, 1, 5)
            && HandleDiscipline(ev, h)
            && (Loaded(cached, host) != InitOk ==> ev == [])
  {
    AfterInitOrdered(host, file, format, quality, h);
    AfterInitFacts(host, file, format, quality, h);
  }

  /** A conversion calls `init()` first when no promise is cached, and
      never otherwise. */
  lemma ConversionInitFacts(cached: Option<InitOutcome>, host: Host, file: File,
                            format: string, quality: int, h: Handle)
    ensures var ev := Conversion(cached, host, file, format, quality, h).events;
            && (cached.None? ==> ev != [] && ev[0] == Init && Init !in ev[1..])
            && (cached.Some? ==> Init !in ev)
  {
    var tail := Tail(cached, host, file, format, quality, h).events;
    ConversionSplits(cached, host, file, format, quality, h);
    TailFacts(cached, host, file, format, quality, h);
    assert Init !in tail;
    if cached.None? {
      assert (InitEvents(cached) + tail)[1..] == tail;
    }
  }

  // ---------------------------------------------------------------------
  // What one call of `convertImage` does

  /** Init, HEIC decode, decode, encode, free and blob creation happen in
      that order, each at most once. */
  lemma ConversionInPipelineOrder(cached: Option<InitOutcome>, host: Host, file: File,
                                  format: string, quality: int, h: Handle)
    ensures InPipelineOrder(Conversion(cached, host, file, format, quality, h).events)
  {
    ConversionSplits(cached, host, file, format, quality, h);
    InitEventsFacts(cached);
    TailFacts(cached, host, file, format, quality, h);
    OrderedAppend(InitEvents(cached), Tail(cached, host, file, format, quality, h).events, 0);
  }

  /** The decoded image is freed exactly once, and no other image is ever
      decoded or freed; when nothing was decoded nothing is freed. */
  lemma HandleFreedExactlyOnce(cached: Option<InitOutcome>, host: Host, file: File,
                               format: string, quality: int, h: Handle)
    ensures var ev := Conversion(cached, host, file, format, quality, h).events;
            && FreeCount(ev) == (if Decoded(ev, h) then 1 else 0)
            && (forall e :: e in ev && e.Free? ==> e == Free(h))
            && (forall e :: e in ev && e.Decode? && e.image.Some? ==> e.image == Some(h))
  {
    var pre := InitEvents(cached);
    var tail := Tail(cached, host, file, format, quality, h).events;
    ConversionSplits(cached, host, file, format, quality, h);
    InitEventsFacts(cached);
    TailFacts(cached, host, file, format, quality, h);
    DisciplineAfter(pre, tail, h);
  }

  /** Init is called exactly when no promise was cached; a cached rejection
      fails every later conversion with the same message and no host call. */
  lemma InitCalledOnlyWhenUncached(cached: Option<InitOutcome>, host: Host, file: File,
                                   format: string, quality: int, h: Handle)
    ensures var run := Conversion(cached, host, file, format, quality, h);
            && (Init in run.events <==> cached.None?)
            && (cached.Some? && cached.value.InitRejected? ==>
                  run == Step(Failure(InitFailed(cached.value.message)), []))
  {
    ConversionInitFacts(cached, host, file, format, quality, h);
    if cached.None? {
      var ev := Conversion(cached, host, file, format, quality, h).events;
      assert ev[0] in ev;
    }
  }

  /** Non-HEIC files reach the decoder byte for byte; HEIC files reach it as
      the first blob `heic2any` produced, or not at all. */
  lemma DecoderInput(cached: Option<InitOutcome>, host: Host, file: File,
                     format: string, quality: int, h: Handle)
    requires Loaded(cached, host) == InitOk
    ensures var run := Conversion(cached, host, file, format, quality, h);
            && (HeicDecode in run.events <==> IsHeic(file))
            && (!IsHeic(file) ==> DecodeInputs(run.events) == [file.bytes])
            && (IsHeic(file) ==>
                  DecodeInputs(run.events) ==
                    match host.heic2any(Blob(file.bytes, file.mediaType))
                    case None => []
                    case Some(OneBlob(b)) => [b.bytes]
                    case Some(BlobList(bs)) => if bs == [] then [] else [bs[0].bytes])
  {
    var pre := InitEvents(cached);
    var tail := AfterInit(host, file, format, quality, h).events;
    InitEventsFacts(cached);
    AfterInitFacts(host, file, format, quality, h);
    DisciplineAfter(pre, tail, h);
  }

  /** A failing `heic2any` surfaces as "Failed to process HEIC image." and the
      decoder is never reached. */
  lemma HeicFailureSkipsDecode(cached: Option<InitOutcome>, host: Host, file: File,
                               format: string, quality: int, h: Handle)
    requires Loaded(cached, host) == InitOk && IsHeic(file)
    requires host.heic2any(Blob(file.bytes, file.mediaType)).None?
    ensures var run := Conversion(cached, host, file, format, quality, h);
            && run.result == Failure(HeicFailed)
            && Message(run.result.error) == "Failed to process HEIC image."
            && DecodeInputs(run.events) == []
  {
    InitEventsFacts(cached);
    DecodeInputsAppend(InitEvents(cached), [HeicDecode]);
  }

  /** A decoder failure surfaces with its own message, and nothing is freed. */
  lemma DecodeFailureFreesNothing(cached: Option<InitOutcome>, host: Host, file: File,
                                  format: string, quality: int, h: Handle)
    requires Loaded(cached, host) == InitOk
    requires Normalize(host, file).result.Success?
    requires host.newFromByteslice(Normalize(host, file).result.value.bytes).None?
    ensures var run := Conversion(cached, host, file, format, quality, h);
            && run.result == Failure(DecodeFailed)
            && Message(run.result.error) == "Failed to decode image data. The format might not be supported."
            && FreeCount(run.events) == 0
            && !Decoded(run.events, h)
  {
    var run := Conversion(cached, host, file, format, quality, h);
    var after := AfterInit(host, file, format, quality, h).events;
    assert run.events == InitEvents(cached) + after;
    assert !Decoded(after, h) by {
      AfterInitFacts(host, file, format, quality, h);
    }
    assert !Decoded(run.events, h) by {
      InitEventsFacts(cached);
      DecodedAfter(InitEvents(cached), after, h);
    }
    assert FreeCount(run.events) == 0 by {
      HandleFreedExactlyOnce(cached, host, file, format, quality, h);
    }
  }

  /** Once an image is decoded, any failure, the format switch's own
      included, surfaces as "Failed to convert image.". */
  lemma EncodeFailuresRewritten(cached: Option<InitOutcome>, host: Host, file: File,
                                format: string, quality: int, h: Handle)
    requires Loaded(cached, host) == InitOk
    requires Normalize(host, file).result.Success?
    requires host.newFromByteslice(Normalize(host, file).result.value.bytes).Some?
    requires Conversion(cached, host, file, format, quality, h).result.Failure?
    ensures Conversion(cached, host, file, format, quality, h).result == Failure(ConvertFailed)
    ensures Message(Conversion(cached, host, file, format, quality, h).result.error) == "Failed to convert image."
  {
  }

  /** A format outside png, jpeg and webp never reaches an encoder and never succeeds. */
  lemma UnsupportedFormatFails(cached: Option<InitOutcome>, host: Host, file: File,
                               format: string, quality: int, h: Handle)
    requires format !in OutputFormats
    ensures var run := Conversion(cached, host, file, format, quality, h);
            && run.result.Failure?
            && (forall e :: e in run.events ==> !e.Encode?)
  {
    EncoderFollowsFormat(cached, host, file, format, quality, h);
  }

  /** The encoder called is the one the format names, on the decoded image;
      only the JPEG encoder receives the quality, verbatim. */
  lemma EncoderFollowsFormat(cached: Option<InitOutcome>, host: Host, file: File,
                             format: string, quality: int, h: Handle)
    ensures forall e :: e in Conversion(cached, host, file, format, quality, h).events && e.Encode? ==>
              && e.handle == h
              && (format == "png" ==> e.call == GetBytes)
              && (format == "jpeg" ==> e.call == GetBytesJpeg(quality))
              && (format == "webp" ==> e.call == GetBytesWebp)
              && format in OutputFormats
  {
    if Loaded(cached, host) == InitOk && Normalize(host, file).result.Success? {
      var norm := Normalize(host, file);
      DecodeAndEncodeCalls(host, norm.result.value.bytes, format, quality, h);
      assert norm.events == [] || norm.events == [HeicDecode];
    }
  }

  /** PNG and WebP output does not depend on the quality at all. */
  lemma QualityIgnoredUnlessJpeg(cached: Option<InitOutcome>, host: Host, file: File,
                                 format: string, q1: int, q2: int, h: Handle)
    requires format != "jpeg"
    ensures Conversion(cached, host, file, format, q1, h) == Conversion(cached, host, file, format, q2, h)
  {
  }

  /** A successful conversion produced "image/" + format, from exactly one
      decoded image that was freed just before the blob was made. */
  lemma SuccessfulOutput(cached: Option<InitOutcome>, host: Host, file: File,
                         format: string, quality: int, h: Handle)
    requires Conversion(cached, host, file, format, quality, h).result.Success?
    ensures var run := Conversion(cached, host, file, format, quality, h);
            && format in OutputFormats
            && run.result.value.blob.mediaType == "image/" + format
            && Decoded(run.events, h)
            && FreeCount(run.events) == 1
            && |run.events| >= 2
            && run.events[|run.events| - 1] == CreateObjectUrl("image/" + format)
            && run.events[|run.events| - 2] == Free(h)
  {
    SuccessfulMediaType(cached, host, file, format, quality, h);
    SuccessfulCalls(cached, host, file, format, quality, h);
  }

  lemma SuccessfulMediaType(cached: Option<InitOutcome>, host: Host, file: File,
                            format: string, quality: int, h: Handle)
    requires Conversion(cached, host, file, format, quality, h).result.Success?
    ensures format in OutputFormats
    ensures Conversion(cached, host, file, format, quality, h).result.value.blob.mediaType == "image/" + format
  {
    var norm := Normalize(host, file);
    assert Loaded(cached, host) == InitOk && norm.result.Success?;
    DecodeAndEncodeCalls(host, norm.result.value.bytes, format, quality, h);
  }

  /** The calls of a successful conversion end with decode, encode, free and blob. */
  lemma SuccessfulCalls(cached: Option<InitOutcome>, host: Host, file: File,
                        format: string, quality: int, h: Handle)
    requires Conversion(cached, host, file, format, quality, h).result.Success?
    ensures var run := Conversion(cached, host, file, format, quality, h);
            && Decoded(run.events, h)
            && FreeCount(run.events) == 1
            && |run.events| >= 2
            && run.events[|run.events| - 1] == CreateObjectUrl(run.result.value.blob.mediaType)
            && run.events[|run.events| - 2] == Free(h)
  {
    var run := Conversion(cached, host, file, format, quality, h);
    var norm := Normalize(host, file);
    assert Loaded(cached, host) == InitOk && norm.result.Success?;
    var bytes := norm.result.value.bytes;
    var stage := DecodeAndEncode(host, bytes, format, quality, h);
    assert run.result == stage.result && run.events == (InitEvents(cached) + norm.events) + stage.events by {
      assert run.events == InitEvents(cached) + (norm.events + stage.events);
      assert InitEvents(cached) + norm.events + stage.events == InitEvents(cached) + (norm.events + stage.events);
    }
    DecodeAndEncodeCalls(host, bytes, format, quality, h);
    EndsWithStage(InitEvents(cached) + norm.events, bytes, h,
                  EncodeCallFor(format, quality).value, "image/" + format);
    assert FreeCount(run.events) == 1 by {
      HandleFreedExactlyOnce(cached, host, file, format, quality, h);
    }
  }

  /** Calls ending in a successful decode stage: the image was decoded, freed,
      and the blob made last. */
  lemma EndsWithStage(pre: seq<Event>, bytes: Bytes, h: Handle, call: EncodeCall, mediaType: string)
    ensures var ev := pre + [Decode(bytes, Some(h)), Encode(call, h), Free(h), CreateObjectUrl(mediaType)];
            && Decoded(ev, h)
            && ev[|ev| - 1] == CreateObjectUrl(mediaType)
            && ev[|ev| - 2] == Free(h)
  {
    var ev := pre + [Decode(bytes, Some(h)), Encode(call, h), Free(h), CreateObjectUrl(mediaType)];
    assert ev[|pre|] == Decode(bytes, Some(h));
  }
}
