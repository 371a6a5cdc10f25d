/** The three request handlers of the image service, as pure functions over
    an abstract image store. The storage directory is a map from stored name
    to file bytes; the filename sanitiser is a parameter about which nothing
    is assumed. Upload returns its response together with the new store; the
    two read handlers only look the name up.
 */
module Handlers {
  import opened Extension

  type Byte = bv8

  /** The storage directory: stored name to file content. */
  type Store = map<string, seq<Byte>>

  /** One file part of a multipart form: the client-declared filename and
      the bytes that saving the part writes. */
  datatype FilePart = FilePart(filename: string, data: seq<Byte>)

  /** The file parts of an upload request, by form field name. */
  type Form = map<string, FilePart>

  /** The form field the upload handler reads. */
  const ImageField: string := "image"

  datatype Error =
    | MissingField       // no "image" part in the form
    | EmptyFilename      // the "image" part has the filename ""
    | UnsupportedFormat  // the filename fails the extension allow-list
    | DuplicateName      // the sanitised name already exists in the store
    | ImageDoesNotExist  // metadata lookup of an absent name
    | ImageNotFound      // file lookup of an absent name
    | Fault(description: string)  // the catch-all handler's reply to an exception

  datatype Response =
    | Created(filename: string)   // upload stored the file under this name
    | Found(filename: string)     // metadata lookup hit
    | Content(data: seq<Byte>)    // file lookup hit: the stored bytes
    | Failure(error: Error)

  /** The HTTP status code of each response. */
  function Status(r: Response): (code: int)
    ensures code == 201 <==> r.Created?
    ensures code < 400 <==> !r.Failure?
    ensures r.Failure? && IsUploadError(r.error) ==> code == 400
    ensures code == 404 <==> r == Failure(ImageDoesNotExist) || r == Failure(ImageNotFound)
    ensures code == 500 <==> r.Failure? && r.error.Fault?
  {
    match r
    case Created(_) => 201
    case Found(_) => 200
    case Content(_) => 200
    case Failure(e) =>
      if e.Fault? then 500
      else if e == ImageDoesNotExist || e == ImageNotFound then 404
      else 400
  }

  /** The `error` field of the JSON body of each failure. */
  function Message(e: Error): (m: string)
    ensures !e.Fault? ==> |m| > 0
  {
    match e
    case MissingField => "Image input is required in the form"
    case EmptyFilename => "No image selected"
    case UnsupportedFormat => "Invalid image format. Allowed formats: png, jpg, jpeg, gif"
    case DuplicateName => "Image with the same name already exists"
    case ImageDoesNotExist => "Image does not exist"
    case ImageNotFound => "Image not found"
    case Fault(description) => description
  }

  /** Each handler error carries its own message, so a client can tell the
      four upload refusals and the two lookup misses apart by text alone. */
  lemma MessagesDistinct(e1: Error, e2: Error)
    requires !e1.Fault? && !e2.Fault? && e1 != e2
    ensures Message(e1) != Message(e2)
  {
  }

  /** The description werkzeug's `NotFound` exception renders as text, which
      the catch-all handler returns as the error message. */
  const NotFoundDescription: string :=
    "404 Not Found: The requested URL was not found on the server. "
    + "If you entered the URL manually please check your spelling and try again."

  predicate IsUploadError(e: Error)
  {
    e == MissingField || e == EmptyFilename || e == UnsupportedFormat || e == DuplicateName
  }

  /** Names that join to an existing directory rather than a file: "" and
      "." give the storage folder itself, ".." its parent. */
  predicate IsDirectoryName(name: string)
  {
    name == "" || name == "." || name == ".."
  }

  /** The store never holds a file under a directory name. */
  ghost predicate NoDirectoryKeys(store: Store)
  {
    forall name :: name in store ==> !IsDirectoryName(name)
  }

  /** The existence test on the storage folder joined with `name`: true for
      every stored file and for the directory names. */
  predicate PathExists(store: Store, name: string)
  {
    IsDirectoryName(name) || name in store
  }

  /** The upload handler: four short-circuiting checks, then one insert. */
  function Upload(store: Store, form: Form, sanitize: string -> string): (out: (Response, Store))
    // every outcome is a creation (201) or an upload error (400)
    ensures out.0.Created? || (out.0.Failure? && IsUploadError(out.0.error))
    ensures Status(out.0) == (if out.0.Created? then 201 else 400)
    // error precedence: each check decides only when all earlier ones pass
    ensures out.0 == Failure(MissingField) <==> ImageField !in form
    ensures out.0 == Failure(EmptyFilename) <==>
      ImageField in form && form[ImageField].filename == ""
    ensures out.0 == Failure(UnsupportedFormat) <==>
      ImageField in form && form[ImageField].filename != ""
      && !AllowedImage(form[ImageField].filename)
    ensures out.0 == Failure(DuplicateName) <==>
      ImageField in form && AllowedImage(form[ImageField].filename)
      && PathExists(store, sanitize(form[ImageField].filename))
    // no write happens on any error
    ensures out.0.Failure? ==> out.1 == store
    // on success: the sanitised name, previously absent, now holds the
    // uploaded bytes and nothing else changed
    ensures out.0.Created? ==>
      && ImageField in form
      && out.0.filename == sanitize(form[ImageField].filename)
      && !IsDirectoryName(out.0.filename) && out.0.filename !in store
      && out.1.Keys == store.Keys + {out.0.filename}
      && out.1[out.0.filename] == form[ImageField].data
      && (forall k :: k in store ==> out.1[k] == store[k])
  {
    if ImageField !in form then (Failure(MissingField), store)
    else
      var part := form[ImageField];
      if part.filename == "" then (Failure(EmptyFilename), store)
      else if !AllowedImage(part.filename) then (Failure(UnsupportedFormat), store)
      else
        var name := sanitize(part.filename);
        if PathExists(store, name) then (Failure(DuplicateName), store)
        else (Created(name), store[name := part.data])
  }

  /** The metadata handler: echoes the name when its path exists (a stored
      file or a directory name), 404 otherwise. */
  function Image(store: Store, name: string): (r: Response)
    ensures r == Found(name) <==> name in store || IsDirectoryName(name)
    ensures r == Failure(ImageDoesNotExist) <==> name !in store && !IsDirectoryName(name)
    ensures Status(r) == (if name in store || IsDirectoryName(name) then 200 else 404)
  {
    if !PathExists(store, name) then Failure(ImageDoesNotExist) else Found(name)
  }

  /** The file handler: the stored bytes when the name is stored, 404 when
      its path does not exist. A directory name passes the existence test,
      but sending it raises werkzeug's `NotFound`, which the catch-all
      handler turns into a 500 reply. */
  function Serve(store: Store, name: string): (r: Response)
    ensures name in store ==> r == Content(store[name])
    ensures r == Failure(ImageNotFound) <==> name !in store && !IsDirectoryName(name)
    ensures name !in store && IsDirectoryName(name) ==> r == Failure(Fault(NotFoundDescription))
    ensures Status(r) == (if name in store then 200
                          else if IsDirectoryName(name) then 500 else 404)
  {
    if !PathExists(store, name) then Failure(ImageNotFound)
    else if name in store then Content(store[name])
    else Failure(Fault(NotFoundDescription))
  }

  /** A successful upload followed by a fetch of the returned name yields the
      uploaded bytes, and the metadata lookup finds it. */
  lemma UploadThenFetch(store: Store, form: Form, sanitize: string -> string)
    requires Upload(store, form, sanitize).0.Created?
    ensures var (r, s) := Upload(store, form, sanitize);
      && Serve(s, r.filename) == Content(form[ImageField].data)
      && Image(s, r.filename) == Found(r.filename)
  {
  }

  /** An upload whose sanitised name is already stored is refused and the
      bytes already stored under that name are kept. */
  lemma NoOverwrite(store: Store, form: Form, sanitize: string -> string)
    requires ImageField in form && AllowedImage(form[ImageField].filename)
    requires sanitize(form[ImageField].filename) in store
    ensures var (r, s) := Upload(store, form, sanitize);
      var name := sanitize(form[ImageField].filename);
      && r == Failure(DuplicateName)
      && name in s && s[name] == store[name]
  {
  }

  /** Uploading a second file whose name sanitises to the same name as an
      earlier successful upload is refused, whatever its bytes, and the first
      file's bytes stay in place. */
  lemma SecondUploadRefused(store: Store, first: Form, second: Form, sanitize: string -> string)
    requires Upload(store, first, sanitize).0.Created?
    requires ImageField in second && AllowedImage(second[ImageField].filename)
    requires sanitize(second[ImageField].filename) == sanitize(first[ImageField].filename)
    ensures var s1 := Upload(store, first, sanitize).1;
      var (r2, s2) := Upload(s1, second, sanitize);
      && r2 == Failure(DuplicateName)
      && s2 == s1
      && Serve(s2, sanitize(first[ImageField].filename)) == Content(first[ImageField].data)
  {
  }

  /** The empty-filename check is literal equality with "": a blank filename
      passes it and is refused by the allow-list instead. */
  lemma BlankIsNotEmpty(store: Store, data: seq<Byte>, sanitize: string -> string)
    ensures Upload(store, map[ImageField := FilePart(" ", data)], sanitize).0
      == Failure(UnsupportedFormat)
  {
    assert Dot !in " ";
  }

  /** An upload with an allowed filename succeeds exactly when its sanitised
      name is new and not a directory name. */
  lemma UploadSucceedsIff(store: Store, part: FilePart, sanitize: string -> string)
    requires AllowedImage(part.filename)
    ensures Upload(store, map[ImageField := part], sanitize).0.Created?
      <==> !IsDirectoryName(sanitize(part.filename)) && sanitize(part.filename) !in store
  {
    AcceptedIsNonEmpty(part.filename);
  }

  /** No upload ever stores a file under a directory name. */
  lemma UploadKeepsDirectoryNamesOut(store: Store, form: Form, sanitize: string -> string)
    requires NoDirectoryKeys(store)
    ensures NoDirectoryKeys(Upload(store, form, sanitize).1)
  {
  }
}
