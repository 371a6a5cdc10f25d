# Image upload service — Dafny model

This project models the request-handling core of a small image service
(`app.py`): the extension allow-list `allowed_images`, the upload handler
`upload_image`, the metadata handler `image` and the file handler
`get_image_file`. The storage directory becomes an immutable store,
`map<string, seq<bv8>>`, from stored name to file bytes. The filename
sanitiser (`secure_filename`, from a library) becomes a function parameter
`sanitize: string -> string` about which nothing is assumed. Each handler is
a pure function; upload returns its response paired with the new store.

- `extension.dfy` — module `Extension`: Python's `str.split` on one
  character, its round trips with `join`, the "text after the last dot"
  reading of the last part, ASCII lower-casing, and the allow-list.
- `handlers.dfy` — module `Handlers`: the store, form, error and response
  types, HTTP status codes and error messages, and the three handlers.
- `service.dfy` — module `Service`: routing of a request to its handler and
  runs of request sequences, with the store-level invariants.

Design points taken from the code:

- `rsplit('.')` with no limit splits on every dot, exactly like `split('.')`.
  Its last element is the text after the last dot. That is why
  `x.tar.gif` is accepted and `a.png.exe` is refused.
- The dot-presence test is needed. Without it, the bare name `png` would pass.
- The empty-filename test is literal equality with `""`. A blank name such as
  `" "` reaches the allow-list and is refused there as an unsupported format.
- The existence test in all three handlers is `os.path.exists` on the storage
  folder joined with the name. The names `""` and `.` join to the folder itself
  and `..` to its parent, and both always exist (`PathExists`). So a sanitised
  name among these is refused as a duplicate, and the store never gets an entry
  under one of them. The metadata handler answers 200 for them. The file
  handler passes the test, but `send_from_directory` then raises werkzeug's
  `NotFound`, and the catch-all handler for `Exception` turns that into a 500
  reply carrying the exception's text.

## Model

| member | source | states |
|---|---|---|
| Extension.Split | app.py:29 | Python's split on one separator returns at least one part, no part contains the separator, and there is exactly one part (the whole string) iff the separator is absent |
| Extension.JoinSplit | app.py:29 | joining the parts of a split with the separator gives back the original string |
| Extension.SplitJoin | app.py:29 | splitting a join of separator-free parts gives back the parts |
| Extension.LastPartIsSuffix | app.py:29 | the last element of `rsplit('.')` is the dot-free suffix after the last dot; it is the whole name iff the name has no dot |
| Extension.LastPartAfterFinalSeparator | app.py:29 | whatever follows a final dot, when it contains no dot, is the last element of the split |
| Extension.Lower | app.py:29 | lower-casing keeps the length, leaves no upper-case ASCII letter, raises each upper-case ASCII letter by 32 code points and keeps every other character |
| Extension.LastPartReading | app.py:26-29 | the dot test plus the lower-cased last part of the split agrees with the positional reading: some dot followed by a dot-free tail whose lower-cased form is allowed |
| Extension.AllowedImage | app.py:25-29 | `allowed_images(f)` holds iff some dot in `f` is followed by a dot-free tail whose lower-cased form is png, jpg, jpeg or gif |
| Extension.LowerMatchesIgnoringCase | app.py:29 | lower-casing a string yields a lower-case word iff the string spells that word letter by letter up to the case of ASCII letters |
| Extension.AllowedIgnoringCase | app.py:28-29 | for every name ending in a dot and a dot-free extension, the name is accepted iff the extension spells png, jpg, jpeg or gif in any mix of upper and lower case |
| Extension.AcceptedIsNonEmpty | app.py:26-29 | an accepted filename has at least four characters, so the empty filename is refused by the allow-list as well |
| Extension.DotTestMatters | app.py:26-29 | `png` with no dot has an allowed last part but is refused by the dot-presence test |
| Extension.AcceptsUpperCase | app.py:28-29 | `a.PNG` is accepted because the extension is lower-cased before comparison |
| Extension.AcceptsLastPartOnly | app.py:28-29 | `x.tar.gif` is accepted: only the last part is compared |
| Extension.RejectsInnerExtension | app.py:28-29 | `a.png.exe` is refused: an allowed extension before the last dot does not count |
| Extension.RejectsEmptyExtension | app.py:28-29 | `photo.` is refused: its last part is empty |
| Handlers.Status | app.py:38-90 | 201 exactly for a created upload; below 400 exactly for the non-error responses; 400 for each upload refusal; 404 exactly for the two lookup misses; 500 exactly for a fault caught by the catch-all handler |
| Handlers.Message | app.py:38-88 | every handler error has a non-empty message |
| Handlers.MessagesDistinct | app.py:38-88 | the four upload refusals and the two lookup misses carry pairwise different messages |
| Handlers.Upload | app.py:36-62 | error precedence (missing field, then empty filename, then format, then duplicate), each as an iff; status 201 or 400; the store is unchanged on every error; on success the sanitised name was absent, is returned, and now maps to the uploaded bytes with all other entries kept |
| Handlers.Image | app.py:69-78 | 404 "does not exist" iff the name is neither stored nor a directory name; otherwise status 200 echoing the name verbatim |
| Handlers.Serve | app.py:85-99 | 404 "not found" iff the name is neither stored nor a directory name; status 200 with exactly the stored bytes for a stored name; for a directory name, the 500 reply of the catch-all handler |
| Handlers.UploadThenFetch | app.py:50-62 | after a successful upload, fetching the returned name yields the uploaded bytes and the metadata lookup finds it |
| Handlers.NoOverwrite | app.py:50-54 | when the sanitised name is already stored, upload answers DuplicateName and the stored bytes under that name are untouched |
| Handlers.SecondUploadRefused | app.py:50-57 | a second upload whose name sanitises to that of an earlier successful upload is refused whatever its bytes; the first bytes are still served |
| Handlers.BlankIsNotEmpty | app.py:42-48 | a filename of one space passes the empty-filename check and is refused as an unsupported format |
| Handlers.UploadSucceedsIff | app.py:45-57 | an upload with an allowed filename succeeds iff its sanitised name is not `""`, `.` or `..` and is not stored yet |
| Handlers.UploadKeepsDirectoryNamesOut | app.py:50-57 | an upload never creates an entry under `""`, `.` or `..` |
| Service.Step | app.py:35-90 | read requests return the store unchanged; no request removes a name |
| Service.Run | app.py:35-90 | a run yields exactly one response per request |
| Service.RunExtends | app.py:50-57 | over any run of requests, every stored name stays stored with the same bytes, so files are never deleted or rewritten |
| Service.RunCountsCreations | app.py:53-62 | over any run, the number of stored names grows by exactly the number of 201 responses |
| Service.ReadsLeaveStore | app.py:69-90 | a run containing only metadata and file requests leaves the store as it was |
| Service.RunKeepsDirectoryNamesOut | app.py:50-57 | no run stores a file under `""`, `.` or `..` |
| Service.ExistenceIsPermanent | app.py:50-78 | once the existence probe of app.py:53 and app.py:71 is true for a name, it stays true after any run of requests, and the metadata handler keeps answering 200 for that name |
| Service.ServeAfterUpload | app.py:57-90 | after a successful upload, any later run still serves the uploaded bytes under the returned name, and the metadata lookup still finds it |
| Service.NewNamesWereCreated | app.py:53-62 | every name a run adds to the store was returned by some 201 response of that run |

## Left out

- Flask routing, multipart parsing into `request.files`, `jsonify` bodies and
  CORS are framework plumbing. The form is a map from field name to its part,
  so a repeated `image` field is not modelled.
- `url_for(..., _external=True)` depends on the request's host. Responses
  carry the filename but not the retrieval URL.
- `secure_filename` is a library function whose source is not part of this
  model. It is the parameter `sanitize`, and no path-traversal safety is
  claimed for it.
- The flat map treats every name as a single key. `os.path.join` and
  `os.path.exists` semantics beyond the directory names `""`, `.` and `..` are
  not modelled: separators and absolute paths are out of scope. Flask's path
  converter never routes an empty segment to the read handlers, so `""` only
  arises in the upload handler.
- `send_from_directory` MIME-type inference and its conditional and range
  replies (304 and 206) are filesystem and HTTP-caching behaviour. `Serve`
  answers a stored name with status 200 and the whole stored content.
- The default rate limit of 5 requests per minute per client address applies
  to every route, not only to uploads. It depends on time and on the network.
  Its 429 exception would also reach the catch-all handler, which answers it
  with 500.
- The catch-all handler for `Exception` (status 500) also prints the error to
  standard output; that logging is not modelled. It also catches I/O faults,
  such as a failed `file.save`. The model's store writes cannot fail; the only
  fault modelled is the one the file handler raises for a directory name.
- The exact text of werkzeug's `NotFound` exception belongs to that library.
  The model uses its usual rendering as `NotFoundDescription`.
- The existence check and the save are two separate steps, so concurrent
  uploads can race between them. The model runs requests sequentially.
- Port selection from the environment, the startup `makedirs` and the stray
  `5000` expression have no behaviour to model.
- Extension.Lower: lower-cases only ASCII letters, while Python's
  `str.lower` lowers all of Unicode. The allow-list verdict is the same
  either way. The only non-ASCII characters that lower to ASCII letters are
  the Kelvin sign (to `k`) and the dotted capital I (to `i` plus a
  combining dot). Neither can yield an allowed extension.
- The `Store` type admits the keys `""`, `.` and `..`, which no real folder can
  hold as files. Only stores satisfying `NoDirectoryKeys` match a real storage
  folder; the run lemmas also hold for the others, and
  `Service.RunKeepsDirectoryNamesOut` shows that runs preserve the property.
