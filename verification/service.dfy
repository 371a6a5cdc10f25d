/** The service as a state machine: each request is routed to one handler,
    and a sequence of requests is run against the store in order. Only
    uploads change the store, and they only ever add names.
 */
module Service {
  import opened Handlers

  datatype Request =
    | UploadRequest(form: Form)    // POST /upload
    | ImageRequest(name: string)   // GET /image/<name>
    | FileRequest(name: string)    // GET /capturedimage/<name>

  /** Route one request to its handler. */
  function Step(store: Store, req: Request, sanitize: string -> string): (out: (Response, Store))
    ensures !req.UploadRequest? ==> out.1 == store
    ensures out.1.Keys >= store.Keys
  {
    match req
    case UploadRequest(form) => Upload(store, form, sanitize)
    case ImageRequest(name) => (Image(store, name), store)
    case FileRequest(name) => (Serve(store, name), store)
  }

  /** Run requests in order, collecting one response per request. */
  function Run(store: Store, reqs: seq<Request>, sanitize: string -> string): (out: (seq<Response>, Store))
    ensures |out.0| == |reqs|
    decreases |reqs|
  {
    if |reqs| == 0 then ([], store)
    else
      var (r, s1) := Step(store, reqs[0], sanitize);
      var (rs, s2) := Run(s1, reqs[1..], sanitize);
      ([r] + rs, s2)
  }

  /** Every stored name keeps its bytes in the later store. */
  ghost predicate Extends(before: Store, after: Store)
  {
    forall k :: k in before ==> k in after && after[k] == before[k]
  }

  function CountCreated(rs: seq<Response>): nat
  {
    if |rs| == 0 then 0
    else (if rs[0].Created? then 1 else 0) + CountCreated(rs[1..])
  }

  /** No request removes a name or rewrites stored bytes. */
  lemma {:induction false} RunExtends(store: Store, reqs: seq<Request>, sanitize: string -> string)
    ensures Extends(store, Run(store, reqs, sanitize).1)
    decreases |reqs|
  {
    if |reqs| > 0 {
      var s1 := Step(store, reqs[0], sanitize).1;
      RunExtends(s1, reqs[1..], sanitize);
    }
  }

  /** The store grows by exactly one name per successful upload. */
  lemma {:induction false} RunCountsCreations(store: Store, reqs: seq<Request>, sanitize: string -> string)
    ensures var (rs, s) := Run(store, reqs, sanitize);
      |s.Keys| == |store.Keys| + CountCreated(rs)
    decreases |reqs|
  {
    if |reqs| > 0 {
      var (r, s1) := Step(store, reqs[0], sanitize);
      RunCountsCreations(s1, reqs[1..], sanitize);
      var rs := Run(s1, reqs[1..], sanitize).0;
      assert Run(store, reqs, sanitize).0 == [r] + rs;
      assert ([r] + rs)[1..] == rs;
      if r.Created? {
        assert s1.Keys == store.Keys + {r.filename};
      }
    }
  }

  /** A run of read requests leaves the store as it was. */
  lemma {:induction false} ReadsLeaveStore(store: Store, reqs: seq<Request>, sanitize: string -> string)
    requires forall i :: 0 <= i < |reqs| ==> !reqs[i].UploadRequest?
    ensures Run(store, reqs, sanitize).1 == store
    decreases |reqs|
  {
    if |reqs| > 0 {
      ReadsLeaveStore(store, reqs[1..], sanitize);
    }
  }

  /** Once the store holds no file under a directory name, no run puts one
      there. */
  lemma {:induction false} RunKeepsDirectoryNamesOut(store: Store, reqs: seq<Request>, sanitize: string -> string)
    requires NoDirectoryKeys(store)
    ensures NoDirectoryKeys(Run(store, reqs, sanitize).1)
    decreases |reqs|
  {
    if |reqs| > 0 {
      var s1 := Step(store, reqs[0], sanitize).1;
      if reqs[0].UploadRequest? {
        UploadKeepsDirectoryNamesOut(store, reqs[0].form, sanitize);
      }
      RunKeepsDirectoryNamesOut(s1, reqs[1..], sanitize);
    }
  }

  /** After a successful upload, any later run of requests still serves the
      uploaded bytes under the returned name. */
  lemma ServeAfterUpload(store: Store, form: Form, later: seq<Request>, sanitize: string -> string)
    requires Upload(store, form, sanitize).0.Created?
    ensures var (r, s1) := Upload(store, form, sanitize);
      var s := Run(s1, later, sanitize).1;
      && Serve(s, r.filename) == Content(form[ImageField].data)
      && Image(s, r.filename) == Found(r.filename)
  {
    var (r, s1) := Upload(store, form, sanitize);
    RunExtends(s1, later, sanitize);
  }

  /** Every name that a run adds to the store was announced by a successful
      upload response in that run. */
  lemma {:induction false} NewNamesWereCreated(store: Store, reqs: seq<Request>, sanitize: string -> string, name: string)
    requires name !in store
    requires name in Run(store, reqs, sanitize).1
    ensures exists i :: 0 <= i < |reqs| && Run(store, reqs, sanitize).0[i] == Created(name)
    decreases |reqs|
  {
    if |reqs| == 0 {
      assert false;
    } else {
      var (r, s1) := Step(store, reqs[0], sanitize);
      var rs := Run(s1, reqs[1..], sanitize).0;
      assert Run(store, reqs, sanitize).0 == [r] + rs;
      if name in s1 {
        assert r.Created? && r.filename == name;
        assert Run(store, reqs, sanitize).0[0] == Created(name);
      } else {
        NewNamesWereCreated(s1, reqs[1..], sanitize, name);
        var i :| 0 <= i < |reqs| - 1 && rs[i] == Created(name);
        assert Run(store, reqs, sanitize).0[i + 1] == Created(name);
      }
    }
  }

  /** A name whose path exists keeps existing after any run: there is no
      transition from present to absent, so once the metadata handler answers
      200 for a name it answers 200 ever after. */
  lemma {:induction false} ExistenceIsPermanent(store: Store, reqs: seq<Request>, sanitize: string -> string, name: string)
    requires PathExists(store, name)
    ensures PathExists(Run(store, reqs, sanitize).1, name)
    ensures Image(Run(store, reqs, sanitize).1, name) == Found(name)
  {
    RunExtends(store, reqs, sanitize);
  }
}
