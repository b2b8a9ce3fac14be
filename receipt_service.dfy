/**
 * The receipt handlers: listing and uploading receipts (`/receipts`) and downloading one
 * (`/receipts/{name}`). The upload directory, the multipart form, the JSON encoder and
 * the content sniffer are outcomes supplied in the environments.
 */
module ReceiptService {
  import opened Wrappers
  import opened GoStrings
  import opened GoStrconv
  import opened Http

  /** The separator the download handler splits its path on: the base path and a slash. */
  const DownloadSeparator: string := "receipts/"
  const DispositionPrefix: string := "attachment; filename="

  /** A modification time; the model never interprets it. */
  datatype Timestamp = Timestamp(unixNanos: int)

  /** One file of the upload directory, as the listing reports it. */
  datatype Receipt = Receipt(receiptName: string, uploadDate: Timestamp)

  /** The `receipt` file of a multipart upload; a form without that field is a `Malformed` body. */
  datatype Upload = Upload(filename: string)

  /** The filesystem operations a handler invokes, by file name within the upload directory. */
  datatype ReceiptCall =
    | ListReceipts               // GetReceipts()
    | CreateFile(name: string)   // os.OpenFile(..., O_WRONLY|O_CREATE, 0666)
    | CopyUpload(name: string)   // io.Copy of the uploaded part into the file
    | OpenFile(name: string)     // os.Open
    | ReadHead(name: string)     // reading the first 512 bytes to sniff the content type
    | StatFile(name: string)     // file.Stat
    | CopyToClient(name: string) // io.Copy of the file into the response

  /**
   * What the listing and the encoder answer, and whether the destination of an upload can
   * be opened for writing.
   */
  datatype ReceiptsEnv = ReceiptsEnv(
    receipts: Option<seq<Receipt>>,
    marshalReceipts: seq<Receipt> -> Option<string>,
    creates: string -> bool)

  predicate IsListedMethod(m: string)
  {
    m == MethodGet || m == MethodPost || m == MethodOptions
  }

  /** The GET branch succeeds: the directory was listed and the listing encoded. */
  predicate ListingEncodes(env: ReceiptsEnv)
  {
    env.receipts.Some? && env.marshalReceipts(env.receipts.value).Some?
  }

  /** `handleReceipts`: list the receipts (GET) or store an uploaded one (POST). */
  function ReceiptsHandler(req: Request<Upload>, env: ReceiptsEnv): (r: Handled<ReceiptCall>)
    ensures r.response.header == map[]
    ensures r.response.status == Some(StatusInternalServerError) <==> req.verb == MethodGet && !ListingEncodes(env)
    ensures r.response.status == Some(StatusBadRequest) <==>
              req.verb == MethodPost && (!req.body.Decoded? || !env.creates(req.body.value.filename))
    // the copy's outcome plays no part: once the file is open the answer is 201
    ensures r.response.status == Some(StatusCreated) <==>
              req.verb == MethodPost && req.body.Decoded? && env.creates(req.body.value.filename)
    ensures r.response.status == Some(StatusCreated) ==>
              r.calls == [CreateFile(req.body.value.filename), CopyUpload(req.body.value.filename)]
    ensures r.response.status == Some(StatusMethodNotAllowed) <==> !IsListedMethod(req.verb)
    ensures r.response.status == None <==> (req.verb == MethodGet && ListingEncodes(env)) || req.verb == MethodOptions
    ensures r.response.payload != NoPayload <==> req.verb == MethodGet && ListingEncodes(env)
    ensures r.response.payload != NoPayload ==>
              r.response.payload == Bytes(env.marshalReceipts(env.receipts.value).value)
    ensures req.verb == MethodGet ==> r.calls == [ListReceipts]
    // a file is created, first thing, for every POST carrying a receipt file, and only then
    ensures req.verb == MethodPost && req.body.Decoded? ==>
              |r.calls| >= 1 && r.calls[0] == CreateFile(req.body.value.filename)
    ensures forall c :: c in r.calls && (c.CreateFile? || c.CopyUpload?) ==>
              req.verb == MethodPost && req.body == Decoded(Upload(c.name))
  {
    if req.verb == MethodGet then
      match env.receipts
      case None => Handled(StatusOnly(StatusInternalServerError), [ListReceipts])
      case Some(list) =>
        match env.marshalReceipts(list)
        case None => Handled(StatusOnly(StatusInternalServerError), [ListReceipts])
        case Some(json) => Handled(Response(None, map[], Bytes(json)), [ListReceipts])
    else if req.verb == MethodPost then
      match req.body
      case Unreadable => Handled(StatusOnly(StatusBadRequest), [])
      case Malformed => Handled(StatusOnly(StatusBadRequest), [])
      case Decoded(upload) =>
        var name := upload.filename;
        if !env.creates(name) then Handled(StatusOnly(StatusBadRequest), [CreateFile(name)])
        else Handled(StatusOnly(StatusCreated), [CreateFile(name), CopyUpload(name)])
    else if req.verb == MethodOptions then
      Handled(Untouched(), [])
    else
      Handled(StatusOnly(StatusMethodNotAllowed), [])
  }

  // ---------------------------------------------------------------- download

  /** "receipts/" never repeats its first character, so its occurrences cannot overlap. */
  lemma DownloadSeparatorFirstCharUnique()
    ensures FirstCharUnique(DownloadSeparator)
  {
    forall k | 0 < k < |DownloadSeparator|
      ensures DownloadSeparator[k] != DownloadSeparator[0]
    {
    }
  }

  /**
   * What the path split yields: more than one segment after the first (400), no second
   * segment at all (indexing it panics), or the one file name.
   */
  datatype FileNameResult = TooManySegments | MissingSegment | FileName(name: string)

  /** The file name of a download path, as `handleDownload` cuts it out. */
  function ExtractFileName(path: string): (r: FileNameResult)
    ensures r.TooManySegments? <==> OccursTwice(path, DownloadSeparator)
    ensures r.MissingSegment? <==> !Contains(path, DownloadSeparator)
    ensures r.FileName? ==>
              LastIndex(path, DownloadSeparator).Some? &&
              r.name == path[LastIndex(path, DownloadSeparator).value + |DownloadSeparator|..] &&
              forall j :: OccursAt(path, DownloadSeparator, j) ==> j == LastIndex(path, DownloadSeparator).value
  {
    DownloadSeparatorFirstCharUnique();
    SplitCases(path, DownloadSeparator);
    LastPieceAfterLastIndex(path, DownloadSeparator);
    var segments := Split(path, DownloadSeparator);
    if |segments[1..]| > 1 then TooManySegments
    else if |segments| < 2 then MissingSegment
    else FileName(segments[1])
  }

  /**
   * What the filesystem answers for a name in the upload directory: whether it opens, the
   * content type sniffed from its first 512 bytes, and its size (`None` when `Stat` fails).
   */
  datatype DownloadEnv = DownloadEnv(opens: string -> bool, contentType: string -> string, size: string -> Option<int>)

  /** A download either panics (the path has no second segment) or leaves a response. */
  datatype DownloadOutcome = Panicked | Completed(handled: Handled<ReceiptCall>)

  /** The three header entries of a successful download. */
  function DownloadHeader(name: string, contentType: string, size: int): (h: map<string, string>)
    ensures h.Keys == {"Content-Disposition", "Content-Type", "Content-Length"}
    // an attachment named by exactly the file name
    ensures var d := h["Content-Disposition"];
              |d| == |DispositionPrefix| + |name| && d[..|DispositionPrefix|] == DispositionPrefix &&
              d[|DispositionPrefix|..] == name
    ensures h["Content-Type"] == contentType
    // the length reads back, as a decimal integer, as the size
    ensures IsInt64(size) ==> Atoi(h["Content-Length"]) == Some(size)
  {
    AtoiFormatInt(size);
    map["Content-Disposition" := DispositionPrefix + name,
        "Content-Type" := contentType,
        "Content-Length" := FormatInt(size)]
  }

  /** `handleDownload`; it never looks at the method or the body. */
  function DownloadHandler(req: Request<()>, env: DownloadEnv): (r: DownloadOutcome)
    ensures r.Panicked? <==> !Contains(req.path, DownloadSeparator)
    ensures r.Completed? && r.handled.response.status == Some(StatusBadRequest) <==>
              OccursTwice(req.path, DownloadSeparator)
    ensures r.Completed? && r.handled.response.status == Some(StatusNotFound) <==>
              ExtractFileName(req.path).FileName? && !env.opens(ExtractFileName(req.path).name)
    ensures r.Completed? && r.handled.response.status == Some(StatusInternalServerError) <==>
              ExtractFileName(req.path).FileName? && env.opens(ExtractFileName(req.path).name) &&
              env.size(ExtractFileName(req.path).name).None?
    ensures r.Completed? && r.handled.response.status == None <==>
              ExtractFileName(req.path).FileName? && env.opens(ExtractFileName(req.path).name) &&
              env.size(ExtractFileName(req.path).name).Some?
    ensures r.Completed? && r.handled.response.status == None ==>
              var name := ExtractFileName(req.path).name;
              r.handled.response.header == DownloadHeader(name, env.contentType(name), env.size(name).value) &&
              r.handled.response.payload == FileStream(name)
    ensures r.Completed? && r.handled.response.status != None ==>
              r.handled.response.header == map[] && r.handled.response.payload == NoPayload
    // every file operation is on the one file the path names
    ensures r.Completed? ==> forall c :: c in r.handled.calls ==>
              (c.OpenFile? || c.ReadHead? || c.StatFile? || c.CopyToClient?) &&
              ExtractFileName(req.path).FileName? && c.name == ExtractFileName(req.path).name
    ensures r.Completed? && |r.handled.calls| > 0 ==>
              ExtractFileName(req.path).FileName? && r.handled.calls[0] == OpenFile(ExtractFileName(req.path).name)
  {
    match ExtractFileName(req.path)
    case TooManySegments => Completed(Handled(StatusOnly(StatusBadRequest), []))
    case MissingSegment => Panicked
    case FileName(name) =>
      if !env.opens(name) then Completed(Handled(StatusOnly(StatusNotFound), [OpenFile(name)]))
      else
        var inspected := [OpenFile(name), ReadHead(name), StatFile(name)];
        match env.size(name)
        case None => Completed(Handled(StatusOnly(StatusInternalServerError), inspected))
        case Some(size) =>
          Completed(Handled(Response(None, DownloadHeader(name, env.contentType(name), size), FileStream(name)),
                            inspected + [CopyToClient(name)]))
  }

  // ---------------------------------------------------------------- properties

  /** The download path for `name` yields `name` back, when neither part holds "receipts/". */
  lemma DownloadPathRoundTrip(base: string, name: string)
    requires !Contains(base, DownloadSeparator) && !Contains(name, DownloadSeparator)
    ensures ExtractFileName(base + DownloadSeparator + name) == FileName(name)
  {
    var path := base + DownloadSeparator + name;
    DownloadSeparatorFirstCharUnique();
    OnlyOccurrence(base, DownloadSeparator, name);
    LastIndexOfSuffix(base, DownloadSeparator, name);
    assert path[|base| + |DownloadSeparator|..] == name;
  }

  /** Every method and body takes the same download path. */
  lemma DownloadIgnoresMethod(req: Request<()>, req': Request<()>, env: DownloadEnv)
    requires req.path == req'.path
    ensures DownloadHandler(req, env) == DownloadHandler(req', env)
  {
  }
}
