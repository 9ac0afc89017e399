/** The `/ocr` endpoint `ocr_image` (app.py, lines 69-118) together with the
    413 handler (lines 121-123): a fixed order of checks, then save, downscale,
    recognise, and removal of the saved file in `finally`.

    The upload directory is a map from path to stored picture. The EasyOCR
    reader is an optional function from the stored picture to what
    `readtext` returns or raises; `secure_filename` is a function parameter
    whose definition is not part of this model. */
module Pipeline {
  import opened Results
  import opened Strings
  import opened Upload
  import opened Normalize
  import opened Aggregate
  import opened Classify

  /** `UPLOAD_FOLDER`. */
  const UploadFolderName: string := "uploads"

  /** `MAX_CONTENT_LENGTH`, in bytes. */
  const MaxContentLength: nat := 5 * 1024 * 1024

  /** The fixed `fields` object of a successful response. */
  const Fields: map<string, string> := map["example_field" := "Sample extracted info"]

  /** `os.path.join(dir, name)` on POSIX: an absolute `name` replaces the
      directory; otherwise a `/` is inserted unless `dir` is empty or already
      ends with one. */
  function JoinPath(dir: string, name: string): (r: string)
    ensures |name| > 0 && name[0] == '/' ==> r == name
    ensures (|name| == 0 || name[0] != '/') ==> r == dir + name || r == dir + "/" + name
    ensures (|name| == 0 || name[0] != '/') && dir != [] && dir[|dir| - 1] != '/' ==> r == dir + "/" + name
    ensures (|name| == 0 || name[0] != '/') && (dir == [] || dir[|dir| - 1] == '/') ==> r == dir + name
  {
    if |name| > 0 && name[0] == '/' then name
    else if dir == [] || dir[|dir| - 1] == '/' then dir + name
    else dir + "/" + name
  }

  /** What `readtext` does with the stored file: return its detections, or
      raise an exception with the given `str(e)`. */
  datatype EngineOutcome = Detections(dets: seq<Detection>) | Raised(message: string)

  /** The recognition engine, the `reader` global. */
  type Engine = Picture -> EngineOutcome

  /** The `image` part of a multipart form: the client's file name and the
      uploaded picture. */
  datatype FilePart = FilePart(filename: string, content: Picture)

  /** A request to `/ocr`: the declared body size and the `image` part, if
      the form has one. */
  datatype Request = Request(bodySize: nat, image: Option<FilePart>)

  /** A JSON response: the 200 body of a recognised document, or
      `{"error": message}` with a status code. */
  datatype Response =
    | Recognized(documentType: string, text: string, fields: map<string, string>)
    | Error(status: nat, message: string)

  function Status(r: Response): nat {
    match r
    case Recognized(_, _, _) => 200
    case Error(status, _) => status
  }

  /** `request_entity_too_large`: the reply when the body exceeds the limit. */
  const TooLarge: Response := Error(413, "File too large. Max 5 MB")

  /** The checks of lines 71-82, in their order, with the body-size limit
      enforced where the form is first parsed (`request.files`, line 74):
      the first that fails gives the error response, `None` means the
      request passes them all. */
  function Precheck(engineReady: bool, req: Request): Option<Response> {
    if !engineReady then Some(Error(500, "OCR model not initialized"))
    else if req.bodySize > MaxContentLength then Some(TooLarge)
    else if req.image.None? then Some(Error(400, "No image uploaded"))
    else if req.image.value.filename == "" then Some(Error(400, "Empty filename"))
    else if !AllowedFile(req.image.value.filename) then Some(Error(400, "Only PNG and JPG images are allowed"))
    else None
  }

  /** Lines 91-112 after the engine call: an exception from the engine or
      from the aggregation is answered with 500 and its message; otherwise
      the text is classified. */
  function Recognize(outcome: EngineOutcome): Response {
    match outcome
    case Raised(message) => Error(500, message)
    case Detections(dets) =>
      match AggregateText(dets)
      case Failure(message) => Error(500, message)
      case Success(text) => Recognized(Label(Classify.Classify(text)), text, Fields)
  }

  /** The path the upload of an accepted request is saved under (lines 84-85). */
  function SavedPath(sanitize: string -> string, part: FilePart): string {
    JoinPath(UploadFolderName, sanitize(part.filename))
  }

  /** The response to a request and the upload directory afterwards. */
  datatype Exchange = Exchange(response: Response, files: map<string, Picture>)

  /** One call of `ocr_image` on the directory contents `files`: a rejected
      request changes nothing; an accepted one is saved, downscaled, read
      by the engine, answered, and its file removed. */
  function Handle(engine: Option<Engine>, sanitize: string -> string, req: Request,
                  files: map<string, Picture>): Exchange
  {
    match Precheck(engine.Some?, req)
    case Some(rejection) => Exchange(rejection, files)
    case None =>
      var part := req.image.value;
      var path := SavedPath(sanitize, part);
      Exchange(Recognize(engine.value(Downscaled(part.content, MaxDim))), files - {path})
  }

  /** A request passes the checks exactly when the engine is loaded, the
      body is within the limit, there is an `image` part, and its name is
      allowed. A non-empty name is implied by the last condition. */
  lemma AcceptIff(engineReady: bool, req: Request)
    ensures Precheck(engineReady, req).None? <==>
      engineReady && req.bodySize <= MaxContentLength && req.image.Some?
      && AllowedFile(req.image.value.filename)
  {
  }

  /** Every rejection is an error response with status 500, 413 or 400, and
      500 is given exactly when the engine is missing, whatever the request. */
  lemma RejectionStatus(engineReady: bool, req: Request)
    requires Precheck(engineReady, req).Some?
    ensures Precheck(engineReady, req).value.Error?
    ensures Status(Precheck(engineReady, req).value) in {400, 413, 500}
    ensures Status(Precheck(engineReady, req).value) == 500 <==> !engineReady
    ensures Status(Precheck(engineReady, req).value) == 413 <==>
      engineReady && req.bodySize > MaxContentLength
  {
  }

  /** An empty name gets its own message, not the extension message, even
      though `allowed_file` would also reject it. */
  lemma EmptyFilenameReason(bodySize: nat, content: Picture)
    requires bodySize <= MaxContentLength
    ensures !AllowedFile("")
    ensures Precheck(true, Request(bodySize, Some(FilePart("", content)))) == Some(Error(400, "Empty filename"))
  {
  }

  /** The engine check comes first: with no engine, every request is
      answered 500, even one that is too large or has no image, and the
      directory is untouched. */
  lemma EngineMissingFirst(sanitize: string -> string, req: Request, files: map<string, Picture>)
    ensures Handle(None, sanitize, req, files) == Exchange(Error(500, "OCR model not initialized"), files)
  {
  }

  /** A request rejected by a check writes nothing: the directory is
      exactly as it was and the response is the check's error. */
  lemma RejectedWritesNothing(engine: Option<Engine>, sanitize: string -> string, req: Request,
                              files: map<string, Picture>)
    requires Status(Handle(engine, sanitize, req, files).response) in {400, 413}
             || engine.None?
    ensures Handle(engine, sanitize, req, files).files == files
    ensures Precheck(engine.Some?, req).Some?
  {
    AcceptIff(engine.Some?, req);
    if Precheck(engine.Some?, req).None? {
      RecognizeStatus(engine.value(Downscaled(req.image.value.content, MaxDim)));
    }
  }

  /** After an accepted request, success or failure, the saved path is no
      longer in the directory, and every other path is as it was. In
      particular, a directory that did not hold that path ends as it began. */
  lemma AcceptedCleansUp(engine: Option<Engine>, sanitize: string -> string, req: Request,
                         files: map<string, Picture>)
    requires Precheck(engine.Some?, req).None?
    ensures SavedPath(sanitize, req.image.value) !in Handle(engine, sanitize, req, files).files
    ensures forall p :: p != SavedPath(sanitize, req.image.value) ==>
      (p in files <==> p in Handle(engine, sanitize, req, files).files)
      && (p in files ==> Handle(engine, sanitize, req, files).files[p] == files[p])
    ensures SavedPath(sanitize, req.image.value) !in files ==> Handle(engine, sanitize, req, files).files == files
  {
  }

  /** What recognition answers: 200 exactly when the engine returned and
      every kept item is a string; then the text is the aggregated text,
      classified, with the fixed fields; every other answer is a 500. */
  lemma RecognizeStatus(outcome: EngineOutcome)
    ensures Recognize(outcome).Recognized? <==>
      outcome.Detections? && AggregateText(outcome.dets).Success?
    ensures Recognize(outcome).Recognized? ==>
      var text := AggregateText(outcome.dets).value;
      Recognize(outcome) == Recognized(Label(Classify.Classify(text)), text, Fields)
    ensures Recognize(outcome).Error? ==> Recognize(outcome).status == 500
    ensures outcome.Raised? ==> Recognize(outcome) == Error(500, outcome.message)
  {
  }

  /** The three labels a response can carry, and every status code one can. */
  lemma ResponseShape(engine: Option<Engine>, sanitize: string -> string, req: Request,
                      files: map<string, Picture>)
    ensures Status(Handle(engine, sanitize, req, files).response) in {200, 400, 413, 500}
    ensures Handle(engine, sanitize, req, files).response.Recognized? ==>
      Handle(engine, sanitize, req, files).response.documentType
        in {"Birth Certificate", "Identification Card", "Unknown"}
  {
    if Precheck(engine.Some?, req).None? {
      RecognizeStatus(engine.value(Downscaled(req.image.value.content, MaxDim)));
    }
  }

  /** What the engine reads for an accepted request. When the downscale
      step fails, the process fails open: the engine reads the upload as
      saved, whatever its size. Otherwise it reads a JPEG no larger than the
      upload on either side and within `MaxDim` on both. */
  lemma EngineInput(engine: Engine, sanitize: string -> string, req: Request,
                    files: map<string, Picture>)
    requires Precheck(true, req).None?
    ensures var c := req.image.value.content;
      DownscaleFails(c, MaxDim) ==>
        Handle(Some(engine), sanitize, req, files).response == Recognize(engine(c))
    ensures var c := req.image.value.content;
      !DownscaleFails(c, MaxDim) ==>
        var q := Downscaled(c, MaxDim);
        && Handle(Some(engine), sanitize, req, files).response == Recognize(engine(q))
        && q.Image? && q.encoding == Jpeg85
        && q.width <= MaxDim && q.height <= MaxDim && q.width <= c.width && q.height <= c.height
  {
    DownscaleResult(req.image.value.content, MaxDim);
  }

  /** An accepted 1 by 2000 upload reaches the engine as uploaded: the
      downscale step fails on it, so the engine reads a picture with a side
      longer than `MaxDim`. */
  lemma SliverReachesEngine(engine: Engine, sanitize: string -> string, name: string,
                            pixels: Raster, bodySize: nat, files: map<string, Picture>)
    requires AllowedFile(name) && bodySize <= MaxContentLength
    ensures Handle(Some(engine), sanitize, Request(bodySize, Some(FilePart(name, Image(1, 2000, AsUploaded, pixels)))), files).response
            == Recognize(engine(Image(1, 2000, AsUploaded, pixels)))
  {
    SliverStaysAsUploaded(pixels);
  }

  /** The upload directory, updated in place by saving, re-encoding and
      removing files. */
  class UploadFolder {
    var files: map<string, Picture>

    constructor(initial: map<string, Picture>)
      ensures files == initial
    {
      files := initial;
    }

    /** `image_file.save(path)`: the file at `path` now holds `picture`. */
    method Save(path: string, picture: Picture)
      modifies this
      ensures files == old(files)[path := picture]
    {
      files := files[path := picture];
    }

    /** `downscale_image(path, maxDim)` (lines 42-53), step by step: every
        failure returns early with the file untouched, as the handler at
        lines 52-53 swallows it. */
    method DownscaleImage(path: string, maxDim: nat)
      modifies this
      ensures path in old(files) ==> files == old(files)[path := Downscaled(old(files)[path], maxDim)]
      ensures path !in old(files) ==> files == old(files)
    {
      if path !in files {
        return;
      }
      var img := files[path];
      if img.Undecodable? {
        return;
      }
      var w, h := img.width, img.height;
      if TooManyPixels(w, h) {
        return;
      }
      var m := Max(w, h);
      if m == 0 {
        return;
      }
      if maxDim < m {
        var nw, nh := Scaled(w, maxDim, m), Scaled(h, maxDim, m);
        if nw == 0 || nh == 0 {
          return;
        }
        img := Image(nw, nh, img.encoding, Resampled(img.pixels, nw, nh));
      }
      files := files[path := Image(img.width, img.height, Jpeg85, img.pixels)];
    }

    /** The `finally` block (lines 113-118): remove the file if it exists. */
    method RemoveIfExists(path: string)
      modifies this
      ensures files == old(files) - {path}
    {
      if path in files {
        files := files - {path};
      }
    }
  }

  /** The application state `ocr_image` works on: the reader loaded at
      start-up (absent when loading failed, lines 26-32), the file-name
      sanitiser and the upload directory. */
  class OcrService {
    const reader: Option<Engine>
    const sanitize: string -> string
    const folder: UploadFolder

    constructor(reader: Option<Engine>, sanitize: string -> string, folder: UploadFolder)
      ensures this.reader == reader && this.sanitize == sanitize && this.folder == folder
    {
      this.reader := reader;
      this.sanitize := sanitize;
      this.folder := folder;
    }

    /** `ocr_image` (lines 69-118) on one request. */
    method OcrImage(req: Request) returns (resp: Response)
      modifies folder
      ensures resp == Handle(reader, sanitize, req, old(folder.files)).response
      ensures folder.files == Handle(reader, sanitize, req, old(folder.files)).files
    {
      if reader.None? {
        return Error(500, "OCR model not initialized");
      }
      if req.bodySize > MaxContentLength {
        return TooLarge;
      }
      if req.image.None? {
        return Error(400, "No image uploaded");
      }
      var part := req.image.value;
      if part.filename == "" {
        return Error(400, "Empty filename");
      }
      if !AllowedFile(part.filename) {
        return Error(400, "Only PNG and JPG images are allowed");
      }
      var safeName := sanitize(part.filename);
      var path := JoinPath(UploadFolderName, safeName);
      folder.Save(path, part.content);
      folder.DownscaleImage(path, MaxDim);
      var outcome := reader.value(folder.files[path]);
      resp := Recognize(outcome);
      folder.RemoveIfExists(path);
    }
  }
}
