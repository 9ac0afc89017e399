# OCR document service, modelled in Dafny

`app.py` is a small Flask service with one real endpoint, `POST /ocr`. It
takes an uploaded image and checks that an OCR engine is loaded, that the
request is within 5 MB, that it has an `image` part, that the part has a
name, and that the name ends in `.png`, `.jpg` or `.jpeg` in any letter
case. It then saves the image under `uploads/` and tries to shrink it so
that its longer side is at most 1600 pixels, re-encoding it as JPEG. That
step fails open: a file the imaging library cannot open, a decompression
bomb, or an image so elongated that its short side would scale to 0 stays
as uploaded. The EasyOCR engine reads whatever is stored. The service joins the recognised texts with single
spaces, strips the result, and classifies it by ordered keyword lists as
"Birth Certificate", "Identification Card" or "Unknown". It removes the
saved file whether recognition succeeded or failed.

The model has seven modules, one file each:

- `results.dfy`, module `Results`: `Option` and `Result`.
- `strings.dfy`, module `Strings`: the Python string built-ins the code
  uses, each as a function with lemmas that say what it computes.
  - `str.lower` (ASCII);
  - the `in` substring test, with an index-based definition and an
    existential reference meaning;
  - `str.strip` over CPython's whitespace set;
  - `sep.join`;
  - `str(n)`;
  - the `%.80s` cut of CPython's message formatter, by UTF-8 bytes.
- `upload.dfy`, module `Upload`: `allowed_file` and its allow-list.
- `normalize.dfy`, module `Normalize`: the size arithmetic of
  `downscale_image`, and what the step leaves in the stored file.
- `aggregate.dfy`, module `Aggregate`: the list comprehension, join and
  strip of lines 93-94. This includes the `TypeError` the join raises on a
  non-string item.
- `classify.dfy`, module `Classify`: the if/elif/else over keyword groups
  of lines 97-103. It is also stated as a generic first-match rule list.
- `pipeline.dfy`, module `Pipeline`: the `/ocr` handler, built from these
  pieces.
  - `Precheck` covers the ordered checks.
  - `Recognize` covers the answer after the engine call.
  - `Handle` is the specification of one request: the response and the
    upload directory afterwards.
  - The class `UploadFolder` is the upload directory as a map from path
    to picture. It has `Save`, `DownscaleImage` and `RemoveIfExists`,
    which update it in place.
  - The class `OcrService` holds the loaded reader, the filename
    sanitiser and the folder. Its method `OcrImage` performs the handler
    step by step. It is proved to produce exactly `Handle`'s response and
    directory.

Four outside pieces are parameters or plain data:

- The OCR engine is an optional function from the stored picture to
  detections or a raised message. `None` stands for a failed model load.
- `secure_filename` is a function parameter.
- A picture is its width, its height, whether it has been re-encoded, and
  its pixels, known by where they came from: decoded from the uploaded
  bytes or resampled to a new size. Or it is bytes the imaging library
  cannot open.
- A request is its declared body size and its optional `image` part.

The body-size limit is checked where the code first touches
`request.files` (line 74). That comes after the engine check, because
the form is parsed lazily. The code keeps detections by arity (`len(det)
> 1`), not by whether they carry text: a kept item that is not a string
makes `" ".join` raise, and that gives a 500 response carrying CPython's
message.

## Model

| member | source | states |
|---|---|---|
| `Strings.Lower` | app.py:97 | definition of `str.lower` on ASCII letters; properties: `LowerIdempotent`, `LowerAppend` |
| `Strings.LowerIdempotent` | app.py:97 | after lower-casing no upper-case letter is left, and lower-casing twice is lower-casing once |
| `Strings.LowerAppend` | app.py:97 | lower-casing distributes over concatenation |
| `Strings.Contains` | app.py:98-100 | definition of the `in` substring test by scanning; properties: `ContainsIff` |
| `Strings.ContainsIff` | app.py:98-100 | the substring test `k in text` holds exactly when `k` is the slice of `text` at some index |
| `Strings.ContainsTransitive` | app.py:98-100 | a text containing `q` contains every substring of `q` |
| `Strings.ContainsAcrossSpace` | app.py:98-100 | a space-free keyword occurs in `a + " " + b` exactly when it occurs in `a` or in `b` |
| `Strings.Strip` | app.py:94 | `strip()` returns a slice of its input; what it cuts off on both sides is all whitespace; its own ends are not whitespace |
| `Strings.StripIdempotent` | app.py:94 | stripping twice is stripping once |
| `Strings.StripEmptyIff` | app.py:94 | a string strips to `""` exactly when it is all whitespace |
| `Strings.Join` | app.py:94 | definition of `sep.join`; properties: `JoinAppend`, `JoinLength` |
| `Strings.JoinAppend` | app.py:94 | joining two non-empty lists puts exactly one separator between their joins |
| `Strings.JoinLength` | app.py:94 | the join's length is the parts' lengths plus one separator per gap |
| `Strings.Fitting` | app.py:94 | the number of leading characters whose UTF-8 encoding fits in `n` bytes: they fit, and one more would not |
| `Strings.CutToBytes` | app.py:94 | `"%.80s"` keeps a string whose encoding fits. Otherwise it keeps the longest prefix that fits, and adds U+FFFD exactly when the cut falls inside a character |
| `Strings.CutAscii` | app.py:94 | an ASCII string is cut to its first `n` characters |
| `Strings.CutWholeCharacters` | app.py:94 | 41 copies of `é` (82 bytes) are cut to 40, with no replacement character |
| `Strings.CutReplacesSplitCharacter` | app.py:94 | `a` and 40 copies of `é` (81 bytes) are cut to `a`, 39 copies and U+FFFD |
| `Strings.Decimal` | app.py:112 | `str(n)` is a non-empty run of decimal digits with no leading zero |
| `Strings.DecimalRoundTrip` | app.py:112 | reading back `str(n)` gives `n` |
| `Upload.AllowedFile` | app.py:38-39 | definition of `allowed_file`; properties: `AllowedFileIff`, `NoDotRejected`, `AllowedFileIgnoresCase` |
| `Upload.Extension` | app.py:39 | `rsplit('.', 1)[1]` is a dot-free suffix of the name that a dot precedes, or the whole name when there is no dot |
| `Upload.ExtensionAfterLastDot` | app.py:39 | whatever precedes the last dot, the extension is exactly what follows it |
| `Upload.AllowedFileIff` | app.py:38-39 | a name is allowed exactly when it is `stem + "." + ext` with dot-free `ext` whose lower case is png, jpg or jpeg |
| `Upload.NoDotRejected` | app.py:39 | a name without a dot, the empty name included, is rejected |
| `Upload.AcceptedUpperCaseAfterInnerDot` | app.py:38-39 | `x.tar.PNG` is accepted: only the last segment counts, in any case |
| `Upload.AcceptedBareExtension` | app.py:38-39 | `.jpg` is accepted |
| `Upload.RejectedNoDot` | app.py:38-39 | `png` is rejected |
| `Upload.RejectedTrailingDot` | app.py:38-39 | `photo.` is rejected |
| `Upload.RejectedInnerExtension` | app.py:38-39 | `photo.png.exe` is rejected |
| `Upload.ExtensionOfLower` | app.py:39 | taking the extension commutes with lower-casing |
| `Upload.AllowedFileIgnoresCase` | app.py:38-39 | lower-casing a name first never changes the verdict |
| `Normalize.PlanFor` | app.py:47-50 | definition of the size decision of `downscale_image`; properties: `SmallKeepsSize`, `LargeIsBounded` |
| `Normalize.Scaled` | app.py:50 | definition of `int(side * scale)` in exact arithmetic; properties: `ScaledSide` |
| `Normalize.TooManyPixels` | app.py:45 | definition of `Image.open`'s decompression-bomb refusal: more than twice 89,478,485 pixels, a side of 0 counted as 1; properties: `SmallIsNoBomb`, `BombStaysAsUploaded` |
| `Normalize.DownscaleFails` | app.py:44-53 | definition of the inputs on which `downscale_image` raises and swallows the error: undecodable, a decompression bomb, 0 by 0, or a scaled side of 0; properties: `DownscaleResult`, `SliverStaysAsUploaded`, `BombStaysAsUploaded`, `EmptyImageStaysAsUploaded` |
| `Normalize.Downscaled` | app.py:44-53 | definition of the stored file after `downscale_image`; properties: `DownscaleResult`, `DownscaleNeverGrows` |
| `Normalize.ScaledSide` | app.py:50 | a scaled side is at most `max_dim` and at most its old length, is its exact scaled length rounded down, and is exactly `max_dim` for the longer side |
| `Normalize.SmallKeepsSize` | app.py:45-51 | an image with at least one pixel whose longer side is at most `max_dim` keeps its size; it is re-encoded as JPEG unless it is a decompression bomb, which stays as uploaded |
| `Normalize.EmptyImageStaysAsUploaded` | app.py:48-53 | a 0 by 0 image fails on the division by `max(w, h)`, and the swallowed error leaves it as uploaded |
| `Normalize.SmallIsNoBomb` | app.py:45-48 | with the default `max_dim`, an image that needs no resizing is never a decompression bomb |
| `Normalize.LargeIsBounded` | app.py:47-50 | a larger image gets both sides at most `max_dim` and neither side larger. The longer side becomes exactly `max_dim`. Each side is its exact scaled length rounded down, and the sides keep their order |
| `Normalize.DownscaleNeverGrows` | app.py:48 | whatever happens, the step never makes a side of an image larger |
| `Normalize.DownscaleResult` | app.py:44-53 | on the failing inputs (undecodable, decompression bomb, 0 by 0, a scaled side of 0) the file stays as it was. On every other input it becomes a JPEG within `max_dim` on both sides and no larger on either side: the same size and pixels when it already fitted, otherwise exactly the floored scaled size, resampled, with the longer side exactly `max_dim` |
| `Normalize.SliverStaysAsUploaded` | app.py:48-53 | a 1 by 2000 upload fails the step, because its short side scales to 0, and stays as uploaded with a side over 1600 |
| `Normalize.BombStaysAsUploaded` | app.py:45 | a 13400 by 13400 upload is refused as a decompression bomb and stays as uploaded |
| `Aggregate.Kept` | app.py:93 | definition of `[det[1] for det in result if len(det) > 1]`; properties: `KeptAppend`, `KeptShape`, `KeptWellFormed` |
| `Aggregate.AggregateText` | app.py:93-94 | definition of the stripped join, or the join's `TypeError`; properties: `AggregateOutcome`, `AggregateNothing`, `JoinedAppend` |
| `Aggregate.JoinTypeError` | app.py:94 | the message of the `TypeError` that `str.join` raises on a non-string item, which line 112 returns. The type name is cut after 80 bytes of UTF-8, which for an ASCII name is its first 80 characters |
| `Aggregate.NonAsciiTypeName` | app.py:94 | a type name of 41 two-byte characters shows only 40 of them in the message |
| `Aggregate.KeptAppend` | app.py:93 | filtering detections commutes with concatenation, which keeps the engine's order |
| `Aggregate.KeptShape` | app.py:93 | at most one item per detection is kept. Detections of length at most 1 are all dropped. Every kept item is some long-enough detection's `det[1]` |
| `Aggregate.KeptWellFormed` | app.py:93 | when every detection has a second item, exactly those items are kept, one per detection, in order |
| `Aggregate.FirstNonString` | app.py:94 | finds the first non-string item, if there is one, and all items before it are strings |
| `Aggregate.AggregateOutcome` | app.py:93-94 | aggregation fails exactly when a kept item is not a string, with the join's `TypeError` message naming the first one. Otherwise it gives the strip of the join, which has no whitespace at either end |
| `Aggregate.AggregateNothing` | app.py:93-94 | no detections, or only malformed ones, give `""` |
| `Aggregate.JoinedAppend` | app.py:94 | before stripping, the kept texts of two runs are separated by exactly one inserted space |
| `Aggregate.AggregateExample` | app.py:93-94 | a malformed detection is dropped, one space is inserted, and inner whitespace survives the strip |
| `Classify.AnyIn` | app.py:98-100 | definition of `any(k in lower_text for k in keywords)`; properties: `ClassifyOrder`, `ClassifyIsFirstMatch` |
| `Classify.Classify` | app.py:97-103 | definition of the if/elif/else; properties: `ClassifyOrder`, `ClassifyIsFirstMatch` |
| `Classify.FirstMatch` | app.py:98-103 | an ordered rule list yields the label of the first rule with a matching keyword, or Unknown when none matches |
| `Classify.ClassifyIsFirstMatch` | app.py:97-103 | the classifier is the first-match evaluation of its two keyword groups over the lower-cased text |
| `Classify.ClassifyOrder` | app.py:97-103 | Birth Certificate exactly when some group-A keyword occurs. Identification Card exactly when no group-A keyword and some group-B keyword occur. Unknown exactly when no keyword occurs |
| `Classify.ClassifyIgnoresCase` | app.py:97 | classification does not depend on letter case |
| `Classify.ClassifyEmpty` | app.py:102-103 | the empty text is Unknown |
| `Classify.NationalIdIsSubsumed` | app.py:100 | every text containing `national id` contains `id`, so that keyword never decides alone |
| `Classify.SubstringSemantics` | app.py:100-101 | `VIDEO` is an Identification Card, since `id` is matched as a substring |
| `Classify.ExampleBirthCertificate` | app.py:98-99 | a text naming the Philippine Statistics Authority is a Birth Certificate |
| `Classify.ExampleIdentificationCard` | app.py:100-101 | `Republic of the Philippines Driver's License` is an Identification Card |
| `Classify.ExampleUnknown` | app.py:102-103 | `random unrelated text` is Unknown |
| `Pipeline.TooLarge` | app.py:121-123 | definition of the 413 handler's reply, "File too large. Max 5 MB"; properties: `RejectionStatus` |
| `Pipeline.Precheck` | app.py:71-82 | definition of the ordered checks; properties: `AcceptIff`, `RejectionStatus`, `EmptyFilenameReason` |
| `Pipeline.Recognize` | app.py:91-112 | definition of the answer after the engine call; properties: `RecognizeStatus` |
| `Pipeline.SavedPath` | app.py:84-85 | definition of the path an accepted upload is saved under |
| `Pipeline.Handle` | app.py:69-118 | definition of one request's response and the directory afterwards; properties: the Pipeline lemmas, and `OcrService.OcrImage` computes it |
| `Pipeline.JoinPath` | app.py:85 | `os.path.join` returns an absolute name unchanged. Otherwise it returns the directory, a `/` exactly when the directory is non-empty and does not end in one, then the name |
| `Pipeline.AcceptIff` | app.py:71-82 | a request passes the checks exactly when the engine is loaded, the body is within 5 MB, there is an `image` part, and its name is allowed |
| `Pipeline.RejectionStatus` | app.py:71-82 | every rejection is an error with status 400, 413 or 500. 500 is given exactly when the engine is missing, and 413 exactly when the engine is loaded and the body is too large |
| `Pipeline.EmptyFilenameReason` | app.py:78-79 | an empty name is answered "Empty filename", not with the extension message |
| `Pipeline.EngineMissingFirst` | app.py:71-72 | with no engine, every request gets 500 "OCR model not initialized" and the directory is untouched |
| `Pipeline.RejectedWritesNothing` | app.py:71-86 | a request answered 400 or 413, or one handled with no engine, was rejected by a check and wrote nothing |
| `Pipeline.AcceptedCleansUp` | app.py:113-118 | after an accepted request, whether it succeeded or failed, the saved path is absent and every other path is unchanged. A directory that lacked the path ends as it began |
| `Pipeline.RecognizeStatus` | app.py:91-112 | the answer is 200 exactly when the engine returned and aggregation succeeded, and then it carries the classified text and the fixed fields. Every other answer is a 500, and an engine exception's message is passed through |
| `Pipeline.ResponseShape` | app.py:69-123 | every response has status 200, 400, 413 or 500, and a 200 carries one of the three labels |
| `Pipeline.EngineInput` | app.py:86-91 | when the downscale step fails the engine reads the upload as saved; otherwise it reads a JPEG within 1600 on both sides and no larger than the upload |
| `Pipeline.SliverReachesEngine` | app.py:86-91 | an accepted 1 by 2000 upload reaches the engine as uploaded |
| `Pipeline.UploadFolder.Save` | app.py:86 | the file at the path now holds the upload, and nothing else changes |
| `Pipeline.UploadFolder.DownscaleImage` | app.py:42-53 | the file at the path becomes its downscaled version, and a missing path leaves the directory unchanged |
| `Pipeline.UploadFolder.RemoveIfExists` | app.py:114-118 | the path is gone afterwards, and nothing else changes |
| `Pipeline.OcrService.OcrImage` | app.py:69-118 | the step-by-step handler gives exactly `Handle`'s response and leaves exactly `Handle`'s directory |

## Left out

- Flask setup, CORS, the home page, `send_from_directory` and the entry point (app.py:12-13, 59-65, 129-131). These are framework glue.
- Loading the EasyOCR model and `readtext` inference. The engine is an optional function from the stored picture to detections or a raised message.
- RGB conversion, Lanczos resampling and JPEG encoding are not computed. Pixels are known only by their origin: the uploaded bytes, or a resampling to a given size.
- Whether the imaging library can decode or save an image with exactly one side of 0 is not modelled; such an image is treated like any other. A 0 by 0 image fails on the division.
- Normalize.LargeIsBounded: sizes use exact rational arithmetic, floored. Float rounding in `max_dim / max(w, h)` and `w * scale` can make `int()` land one below the exact value, so the float program's longer side may be 1599 where the model says 1600.
- Normalize.Downscaled, Normalize.DownscaleResult, Normalize.DownscaleFails, Pipeline.UploadFolder.DownscaleImage, Pipeline.EngineInput: the float program also fails open when a side's exact scaled length is a whole number but `int(side * scale)` rounds it down to 0. An example is 49 by 78400, where `int(49 * (1600 / 78400))` is `int(0.9999999999999999)`, so `resize` gets `(0, 1599)` and raises; 98 by 156800 is another. The upload then stays as saved. The model computes the exact floor, 1, and resizes such an image to 1 by 1600. Which products round below a whole number depends on IEEE double rounding, which the model does not compute.
- Strings.Lower: only ASCII letters are mapped, while Python's `str.lower` maps all of Unicode, so the lowered strings differ on non-ASCII letters. The verdicts do not. In Python's case tables, only U+0130 (to `i` and U+0307) and U+212A (to `k`) lower-case to something holding an ASCII letter. No extension or keyword contains `k` or U+0307, and none ends in `i`. The returned text itself is never lowered.
- `secure_filename` (app.py:84): its definition is not part of this model. It is a parameter of the service.
- Aggregate.JoinTypeError: the cut follows CPython 3.10, where a character split by the 80-byte cut becomes U+FFFD. Later CPython releases may treat the split character differently.
- `print` logging (app.py:27-31, 53, 111).
- Pipeline.UploadFolder.Save: saving always succeeds. A write failure, such as a full disk or a path naming a directory, would raise outside the `try` and is not modelled.
- Pipeline.UploadFolder.RemoveIfExists: a failing `os.remove`, which line 117 swallows, is not modelled. The file is always removed.
- Pipeline.Precheck: the 5 MB limit is compared with the declared body size. A streamed body without a length, which Werkzeug cuts off while reading, is not modelled.
- Detections that are not sequences, for which `len(det)` would raise inside the `try`, are not modelled. A detection is always a sequence of items.
- Concurrent requests share the reader and the upload directory. Concurrency is not modelled; one request runs at a time.
