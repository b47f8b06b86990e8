/** The upload endpoint of IaC/puc_app/app.py (`upload_csv`, bound to
    `POST /upload`): a multipart request either is refused with status 400,
    or its `file` part is stored under `uploads/` with a sanitised name and
    the endpoint answers 200.  The sanitiser (werkzeug's `secure_filename`)
    is a parameter. */
module Upload {
  import opened Strings
  import opened Storage
  import opened Keys

  /** One uploaded file of a multipart form: the client's file name and its contents. */
  datatype FilePart = FilePart(filename: string, stream: Bytes)

  /** The part of a request the endpoint looks at: its files, by form field. */
  datatype Request = Request(files: map<string, FilePart>)

  /** The answer: an HTTP status, a body, and the store calls made on the way. */
  datatype Response = Response(status: int, body: string, ops: seq<Op>)

  /** The form field that carries the file. */
  const FileField: string := "file"

  const NoFile: string := "Nenhum arquivo enviado"
  const EmptyName: string := "Nome de arquivo vazio"

  const Opening: string := "Arquivo <strong>"
  const Closing: string := "</strong> enviado com sucesso para o S3!"

  /** The confirmation page for a stored file: the name, in bold, between
      two fixed texts. */
  function Confirmation(name: string): (page: string)
    ensures |page| == |Opening| + |name| + |Closing|
    ensures StartsWith(page, Opening) && EndsWith(page, Closing)
    ensures page[|Opening|..|Opening| + |name|] == name
  {
    Opening + name + Closing
  }

  /** Where a file with (sanitised) name `name` is stored. */
  function UploadKey(name: string): (key: string)
    ensures StartsWith(key, Origem) && key[|Origem|..] == name
  {
    Origem + name
  }

  /** `upload_csv`: refuse a request without a `file` part, then one whose
      file has an empty name; otherwise store the contents under
      `uploads/<secure(filename)>` and confirm with that name. */
  function UploadCsv(req: Request, secure: string -> string): (r: Response)
    ensures r.status == 400 <==> FileField !in req.files || req.files[FileField].filename == ""
    ensures r.status != 400 ==> r.status == 200
    ensures FileField !in req.files ==> r.body == NoFile
    ensures FileField in req.files && req.files[FileField].filename == "" ==> r.body == EmptyName
    ensures r.status == 400 ==> r.ops == []
    ensures r.status == 200 ==>
      var part := req.files[FileField];
      r.ops == [Put(UploadKey(secure(part.filename)), part.stream)]
      && r.body == Confirmation(secure(part.filename))
  {
    if FileField !in req.files then Response(400, NoFile, [])
    else
      var file := req.files[FileField];
      if file.filename == "" then Response(400, EmptyName, [])
      else
        var filename := secure(file.filename);
        Response(200, Confirmation(filename), [Put(UploadKey(filename), file.stream)])
  }

  /** A request writes exactly one object if it is accepted, and nothing if it is refused. */
  lemma UploadWritesOnce(req: Request, secure: string -> string)
    ensures |UploadCsv(req, secure).ops| == 1 <==> UploadCsv(req, secure).status == 200
    ensures |UploadCsv(req, secure).ops| == 0 <==> UploadCsv(req, secure).status == 400
  {
  }

  /** The store after a request: the file's contents under its key if it is
      accepted (replacing any earlier upload of the same name), the store
      unchanged if it is refused. */
  lemma UploadEffect(req: Request, secure: string -> string, store: Store)
    ensures var r := UploadCsv(req, secure);
      r.status == 400 ==> Apply(store, r.ops) == store
    ensures var r := UploadCsv(req, secure);
      r.status == 200 ==>
        var part := req.files[FileField];
        Apply(store, r.ops) == store[UploadKey(secure(part.filename)) := part.stream]
  {
    var r := UploadCsv(req, secure);
    if r.status == 200 {
      assert r.ops[1..] == [];
    }
  }

  /** The stored key reads back to the sanitised name, provided the name has
      no `/` (which `secure_filename` ensures): the file lies directly under
      `uploads/`, and the flow later finds it under that base name. */
  lemma UploadKeyBasename(name: string)
    requires '/' !in name
    ensures Basename(UploadKey(name)) == name
  {
    var key := UploadKey(name);
    assert key[|Origem| - 1] == '/';
    assert key[|Origem|..] == name;
    BasenameAfterLastSlash(key, |Origem| - 1);
  }

  /** The flow picks up an uploaded file exactly when its sanitised name ends in `.csv`. */
  lemma UploadKeyIsCsv(name: string)
    ensures IsCsv(UploadKey(name)) <==> EndsWith(name, CsvExtension)
  {
    var key := UploadKey(name);
    if |name| >= 4 {
      assert key[|key| - 4..] == name[|name| - 4..];
    } else {
      assert key[|key| - 4..][4 - |name| - 1] == key[|Origem| - 1];
    }
  }

  /** A name the sanitiser empties still gets stored: under the key
      `uploads/` itself, which the flow's `.csv` filter then skips. */
  lemma EmptySanitisedName(req: Request, secure: string -> string)
    requires FileField in req.files && req.files[FileField].filename != ""
    requires secure(req.files[FileField].filename) == ""
    ensures UploadCsv(req, secure).status == 200
    ensures UploadCsv(req, secure).ops[0].key == Origem
    ensures !IsCsv(Origem)
  {
  }
}
