/** The JSON endpoints: list and create (`html_templates_list_create`),
    detail, update and delete (`html_templates_detail`), and attachment
    upload (`html_templates_upload_files`). The handlers that change data
    take the store and an already-decoded request and return the new store
    with the response; the two GET handlers, list and detail, read the store
    and return only the response. */
module Views {
  import opened Wrappers
  import opened Strings
  import opened Dates
  import opened Tags
  import opened Models
  import opened ComponentStore

  newtype byte = b: int | 0 <= b < 256

  /** The body of the 400 response when no code was given. */
  const CodeRequired := "Code is required."

  /** The body of the 400 response when the request body is not JSON. */
  const InvalidJson := "Invalid JSON"

  /** What a handler sends back. */
  datatype Response =
    | Listed(items: seq<ComponentView>)                 // 200 {"results": [...]}
    | Created(view: ComponentView)                      // 201
    | Found(view: ComponentView, files: seq<FileView>)  // 200, with "files"
    | Updated(view: ComponentView)                      // 200
    | Deleted                                           // 200 {"ok": true}
    | FilesCreated(files: seq<FileView>)                // 201 {"files": [...]}
    | BadRequest(reason: string)                        // 400
    | NotFound                                          // 404

  /** The HTTP status of a response. */
  function StatusCode(r: Response): int
  {
    match r
    case Created(_) => 201
    case FilesCreated(_) => 201
    case BadRequest(_) => 400
    case NotFound => 404
    case _ => 200
  }

  /** The store after a request, and the response to it. */
  datatype Step = Step(store: Store, response: Response)

  // ---------------------------------------------------------------------------
  // create requests

  /** A JSON create body. A field is `None` when it is missing or `null`. */
  datatype JsonCreate = JsonCreate(
    name: Option<string>,
    section: Option<string>,
    tags: Option<seq<string>>,
    code: Option<string>,
    description: Option<string>,
    notes: Option<string>,
    instructions: Option<string>,
    status: Option<string>)

  /** A multipart create form. A text field is `None` when it is not in the
      form; `codeFile` holds the bytes of the `code_file` upload if there is
      one, and `files` the stored `files` uploads in form order. */
  datatype MultipartCreate = MultipartCreate(
    name: Option<string>,
    section: Option<string>,
    tags: Option<string>,
    description: Option<string>,
    notes: Option<string>,
    instructions: Option<string>,
    status: Option<string>,
    codeText: Option<string>,
    codeFile: Option<seq<byte>>,
    files: seq<StoredFile>)

  /** A POST to the list endpoint: a JSON body (`None` when it does not
      parse) or a multipart form. */
  datatype CreateRequest = JsonBody(payload: Option<JsonCreate>) | MultipartBody(form: MultipartCreate)

  /** The column values a create request resolves to, and the files to
      attach. */
  datatype NewComponent = NewComponent(
    name: string,
    section: string,
    tags: string,
    code: string,
    description: string,
    notes: string,
    instructions: string,
    status: string,
    attachments: seq<StoredFile>)

  /** Python's `value or default` on an optional string. */
  function OrDefault(v: Option<string>, default: string): (r: string)
    ensures v == None || v == Some("") ==> r == default
    ensures v.Some? && v.value != "" ==> r == v.value
  {
    if v.Some? && v.value != "" then v.value else default
  }

  /** The JSON create path: code, name, section and status are stripped,
      description, notes and instructions are kept as sent, tags go through
      the tag codec, and a request without code is refused. */
  function ResolveJson(p: JsonCreate): (r: Result<NewComponent, string>)
    ensures r.Failure? <==> Strip(p.code.GetOr("")) == ""
    ensures r.Failure? ==> r.error == CodeRequired
    ensures r.Success? ==>
              p.code.Some? && r.value.code == Strip(p.code.value) && r.value.code != ""
    ensures r.Success? && (p.name == None || p.name == Some("")) ==> r.value.name == Untitled
    ensures r.Success? && p.name.Some? && p.name.value != "" ==> r.value.name == Strip(p.name.value)
    ensures r.Success? ==> r.value.section == Strip(p.section.GetOr(""))
    ensures r.Success? ==> r.value.tags == EncodeTags(p.tags.GetOr([]))
    ensures r.Success? ==>
              r.value.description == p.description.GetOr("") && r.value.notes == p.notes.GetOr("")
              && r.value.instructions == p.instructions.GetOr("")
    ensures r.Success? && (p.status == None || p.status == Some("")) ==> r.value.status == NotStarted
    ensures r.Success? && p.status.Some? && p.status.value != "" ==> r.value.status == Strip(p.status.value)
    ensures r.Success? ==> r.value.attachments == []
  {
    // `(v or '')` is `v.GetOr("")`: a missing, null or empty value all give "".
    var code := Strip(p.code.GetOr(""));
    if code == "" then Failure(CodeRequired)
    else
      StripTrimmed(Untitled);
      StripTrimmed(NotStarted);
      Success(NewComponent(
        Strip(OrDefault(p.name, Untitled)),
        Strip(p.section.GetOr("")),
        EncodeTags(p.tags.GetOr([])),
        code,
        p.description.GetOr(""),
        p.notes.GetOr(""),
        p.instructions.GetOr(""),
        Strip(OrDefault(p.status, NotStarted)),
        []))
  }

  /** The multipart create path: every text field is stripped, a blank name
      becomes `Untitled`, tags are kept as the raw stripped string, and the
      code is the stripped `code_text` or else the decoded, unstripped
      content of `code_file`. */
  function ResolveMultipart(f: MultipartCreate, decode: seq<byte> -> string): (r: Result<NewComponent, string>)
    ensures r.Failure? <==>
              Strip(f.codeText.GetOr("")) == "" && (f.codeFile.None? || decode(f.codeFile.value) == "")
    ensures r.Failure? ==> r.error == CodeRequired
    ensures r.Success? && Strip(f.codeText.GetOr("")) != "" ==> r.value.code == Strip(f.codeText.value)
    ensures r.Success? && Strip(f.codeText.GetOr("")) == "" ==>
              f.codeFile.Some? && r.value.code == decode(f.codeFile.value)
    ensures r.Success? ==> r.value.code != ""
    ensures r.Success? && Strip(f.name.GetOr("")) == "" ==> r.value.name == Untitled
    ensures r.Success? && Strip(f.name.GetOr("")) != "" ==> r.value.name == Strip(f.name.value)
    ensures r.Success? ==>
              r.value.section == Strip(f.section.GetOr("")) && r.value.tags == Strip(f.tags.GetOr(""))
              && r.value.description == Strip(f.description.GetOr(""))
              && r.value.notes == Strip(f.notes.GetOr(""))
              && r.value.instructions == Strip(f.instructions.GetOr(""))
    ensures r.Success? ==> r.value.status == Strip(f.status.GetOr(NotStarted))
    ensures r.Success? ==> r.value.attachments == f.files
  {
    var text := Strip(f.codeText.GetOr(""));
    var code := if text == "" && f.codeFile.Some? then decode(f.codeFile.value) else text;
    if code == "" then Failure(CodeRequired)
    else
      var name := Strip(f.name.GetOr(""));
      Success(NewComponent(
        if name == "" then Untitled else name,
        Strip(f.section.GetOr("")),
        Strip(f.tags.GetOr("")),
        code,
        Strip(f.description.GetOr("")),
        Strip(f.notes.GetOr("")),
        Strip(f.instructions.GetOr("")),
        Strip(f.status.GetOr(NotStarted)),
        f.files))
  }

  /** Either encoding, or the 400 for a body that is not JSON. */
  function Resolve(req: CreateRequest, decode: seq<byte> -> string): (r: Result<NewComponent, string>)
    ensures req == JsonBody(None) ==> r == Failure(InvalidJson)
    ensures req.JsonBody? && req.payload.Some? ==> r == ResolveJson(req.payload.value)
    ensures req.MultipartBody? ==> r == ResolveMultipart(req.form, decode)
  {
    match req
    case JsonBody(None) => Failure(InvalidJson)
    case JsonBody(Some(p)) => ResolveJson(p)
    case MultipartBody(f) => ResolveMultipart(f, decode)
  }

  /** The row `Component.objects.create` writes: the resolved values, the
      fresh id, and today's date. */
  function NewRow(n: NewComponent, id: Uuid, today: Date): (c: Component)
    ensures c.id == id && c.dateAdded == today
    ensures c.name == n.name && c.section == n.section && c.tags == n.tags && c.code == n.code
    ensures c.description == n.description && c.notes == n.notes
    ensures c.instructions == n.instructions && c.status == n.status
  {
    Component(id, n.name, n.section, n.tags, today, n.code, n.description, n.notes,
              n.instructions, n.status)
  }

  /** POST to the list endpoint. `id` is the fresh UUID and `today` the
      date of the request. A refused request changes nothing; an accepted one
      adds exactly one component and its attachments, and a JSON create adds
      no attachment. */
  function CreateComponent(st: Store, req: CreateRequest, id: Uuid, today: Date,
                           decode: seq<byte> -> string): (s: Step)
    requires id !in st.components
    ensures s.response.BadRequest? <==> Resolve(req, decode).Failure?
    ensures s.response.BadRequest? ==>
              s.store == st && s.response.reason == Resolve(req, decode).error
    ensures s.response.BadRequest? || s.response.Created?
    ensures s.response.Created? ==>
              s.store.components == st.components[id := NewRow(Resolve(req, decode).value, id, today)]
              && s.response.view == ToView(s.store.components[id])
    ensures Valid(st) ==> Valid(s.store)
  {
    match Resolve(req, decode)
    case Failure(e) => Step(st, BadRequest(e))
    case Success(n) =>
      var c := NewRow(n, id, today);
      Step(InsertWithUploads(st, c, n.attachments).store, Created(ToView(c)))
  }

  /** What a create does to the attachment table: an accepted create stores
      the new row together with its uploads, as `InsertWithUploads`
      describes, and a JSON create leaves the table and its counter as they
      were. */
  lemma CreateComponentFiles(st: Store, req: CreateRequest, id: Uuid, today: Date,
                             decode: seq<byte> -> string)
    requires id !in st.components
    ensures CreateComponent(st, req, id, today, decode).response.Created? ==>
              CreateComponent(st, req, id, today, decode).store
                == InsertWithUploads(st, NewRow(Resolve(req, decode).value, id, today),
                                     Resolve(req, decode).value.attachments).store
    ensures req.JsonBody? ==>
              CreateComponent(st, req, id, today, decode).store.files == st.files
              && CreateComponent(st, req, id, today, decode).store.nextFileId == st.nextFileId
  {
    var s := CreateComponent(st, req, id, today, decode);
    if req.JsonBody? && s.response.Created? {
      assert Resolve(req, decode).value.attachments == [];
    }
  }

  /** A create answers 201 when the request resolves and 400 otherwise. */
  lemma CreateStatus(st: Store, req: CreateRequest, id: Uuid, today: Date, decode: seq<byte> -> string)
    requires id !in st.components
    ensures StatusCode(CreateComponent(st, req, id, today, decode).response)
              == if Resolve(req, decode).Success? then 201 else 400
  {
    var s := CreateComponent(st, req, id, today, decode);
    assert s.response.BadRequest? || s.response.Created?;
  }

  // ---------------------------------------------------------------------------
  // detail, update, delete, upload

  /** `[f.to_dict() for f in fs]` */
  function FileViews(fs: seq<ComponentFile>): (r: seq<FileView>)
    ensures |r| == |fs|
    ensures forall i :: 0 <= i < |fs| ==> r[i] == FileToView(fs[i])
  {
    seq(|fs|, i requires 0 <= i < |fs| => FileToView(fs[i]))
  }

  /** GET on the detail endpoint: the component with its attachments, or
      404 for an unknown id. */
  function GetDetail(st: Store, id: Uuid): (r: Response)
    ensures r.NotFound? <==> id !in st.components
    ensures r.NotFound? || r.Found?
    ensures StatusCode(r) == if id in st.components then 200 else 404
    ensures r.Found? ==>
              r.view == ToView(st.components[id]) && r.files == FileViews(FilesOf(st, id))
  {
    if id !in st.components then NotFound
    else Found(ToView(st.components[id]), FileViews(FilesOf(st, id)))
  }

  /** A JSON update body. A field is `None` when it is not in the body;
      `tags: null` arrives as `Some([])`. */
  datatype JsonPatch = JsonPatch(
    name: Option<string>,
    section: Option<string>,
    description: Option<string>,
    notes: Option<string>,
    instructions: Option<string>,
    code: Option<string>,
    status: Option<string>,
    tags: Option<seq<string>>,
    dateIso: Option<string>)

  /** The field updates of PATCH: every field present is set verbatim, tags
      through the tag codec, and the date only when `parseDate` accepts it.
      There is no validation: an empty code or an unknown status is stored
      as sent. */
  function ApplyPatch(c: Component, p: JsonPatch, parseDate: string -> Option<Date>): (r: Component)
    ensures r.id == c.id
    ensures r.name == p.name.GetOr(c.name) && r.section == p.section.GetOr(c.section)
    ensures r.description == p.description.GetOr(c.description)
    ensures r.notes == p.notes.GetOr(c.notes)
    ensures r.instructions == p.instructions.GetOr(c.instructions)
    ensures r.code == p.code.GetOr(c.code) && r.status == p.status.GetOr(c.status)
    ensures p.tags.Some? ==> r.tags == EncodeTags(p.tags.value)
    ensures p.tags.None? ==> r.tags == c.tags
    ensures p.dateIso.Some? && parseDate(p.dateIso.value).Some? ==>
              r.dateAdded == parseDate(p.dateIso.value).value
    ensures p.dateIso.None? || parseDate(p.dateIso.value).None? ==> r.dateAdded == c.dateAdded
  {
    var date :=
      if p.dateIso.Some? && parseDate(p.dateIso.value).Some? then parseDate(p.dateIso.value).value
      else c.dateAdded;
    Component(c.id, p.name.GetOr(c.name), p.section.GetOr(c.section),
              if p.tags.Some? then EncodeTags(p.tags.value) else c.tags,
              date, p.code.GetOr(c.code), p.description.GetOr(c.description),
              p.notes.GetOr(c.notes), p.instructions.GetOr(c.instructions),
              p.status.GetOr(c.status))
  }

  /** PATCH on the detail endpoint. The id is looked up before the body is
      parsed, so an unknown id is 404 even with a bad body. Only the one row
      changes; attachments are untouched. */
  function PatchComponent(st: Store, id: Uuid, body: Option<JsonPatch>,
                          parseDate: string -> Option<Date>): (s: Step)
    ensures id !in st.components ==> s == Step(st, NotFound)
    ensures id in st.components && body.None? ==> s == Step(st, BadRequest(InvalidJson))
    ensures id in st.components && body.Some? ==>
              s.store == Save(st, id, ApplyPatch(st.components[id], body.value, parseDate))
              && s.response == Updated(ToView(s.store.components[id]))
    ensures s.store.files == st.files && s.store.components.Keys == st.components.Keys
    ensures Valid(st) ==> Valid(s.store)
  {
    if id !in st.components then Step(st, NotFound)
    else if body.None? then Step(st, BadRequest(InvalidJson))
    else
      var c := ApplyPatch(st.components[id], body.value, parseDate);
      Step(Save(st, id, c), Updated(ToView(c)))
  }

  /** An update body that names none of the fields. */
  const NoFields := JsonPatch(None, None, None, None, None, None, None, None, None)

  /** A body that names none of the fields saves the row as it was and
      answers 200 with it. Besides `{}`, this is what a JSON array or string
      that contains none of the field names does, since `field in payload`
      is then a membership or substring test. */
  lemma PatchWithoutFields(st: Store, id: Uuid, parseDate: string -> Option<Date>)
    requires id in st.components
    ensures PatchComponent(st, id, Some(NoFields), parseDate) == Step(st, Updated(ToView(st.components[id])))
  {
    var c := st.components[id];
    assert ApplyPatch(c, NoFields, parseDate) == c;
    assert st.components[id := c] == st.components;
  }

  /** DELETE on the detail endpoint: the component and its attachments go. */
  function DeleteComponent(st: Store, id: Uuid): (s: Step)
    ensures id !in st.components ==> s == Step(st, NotFound)
    ensures id in st.components ==> s == Step(DeleteCascade(st, id), Deleted)
    ensures id !in s.store.components
    ensures Valid(st) ==> Valid(s.store)
  {
    if id !in st.components then Step(st, NotFound)
    else Step(DeleteCascade(st, id), Deleted)
  }

  /** POST to the upload endpoint: one attachment per upload, in order, each
      owned by the component, and their views in the response. */
  function UploadFiles(st: Store, id: Uuid, uploads: seq<StoredFile>): (s: Step)
    ensures id !in st.components ==> s == Step(st, NotFound)
    ensures id in st.components ==>
              s.store == AddFiles(st, id, uploads).store
              && s.response == FilesCreated(FileViews(AddFiles(st, id, uploads).created))
    ensures s.response.FilesCreated? ==>
              |s.response.files| == |uploads|
              && forall i :: 0 <= i < |uploads| ==> s.response.files[i].id == st.nextFileId + i
    ensures s.store.components == st.components
    ensures Valid(st) ==> Valid(s.store)
  {
    if id !in st.components then Step(st, NotFound)
    else
      var added := AddFiles(st, id, uploads);
      Step(added.store, FilesCreated(FileViews(added.created)))
  }

  // ---------------------------------------------------------------------------
  // list

  /** The order of two items on the wire: a later `dateISO` first, and on
      the same `dateISO` the smaller name first. */
  predicate WireOrdered(a: ComponentView, b: ComponentView)
  {
    (a.dateIso != b.dateIso && LexLe(b.dateIso, a.dateIso))
    || (a.dateIso == b.dateIso && LexLe(a.name, b.name))
  }

  /** The listing order, read off the serialised views: comparing ISO date
      strings as text is comparing the dates. */
  lemma ListedBeforeOnTheWire(a: Component, b: Component)
    ensures ListedBefore(a, b) <==> WireOrdered(ToView(a), ToView(b))
  {
    IsoOrder(b.dateAdded, a.dateAdded);
    if Iso(a.dateAdded) == Iso(b.dateAdded) {
      IsoInjective(a.dateAdded, b.dateAdded);
    }
  }

  /** Components in listing order serialise to items in wire order. */
  lemma ViewsInWireOrder(cs: seq<Component>)
    requires InListOrder(cs)
    ensures forall i, j :: 0 <= i < j < |cs| ==> WireOrdered(Views(cs)[i], Views(cs)[j])
  {
    InListOrderPairwise(cs);
    forall i, j | 0 <= i < j < |cs|
      ensures WireOrdered(Views(cs)[i], Views(cs)[j])
    {
      ListedBeforeOnTheWire(cs[i], cs[j]);
    }
  }

  /** `[c.to_dict() for c in cs]` */
  function Views(cs: seq<Component>): (r: seq<ComponentView>)
    ensures |r| == |cs|
    ensures forall i :: 0 <= i < |cs| ==> r[i] == ToView(cs[i])
  {
    seq(|cs|, i requires 0 <= i < |cs| => ToView(cs[i]))
  }

  /** Every stored component listed has its view listed. */
  lemma ViewsCover(m: map<Uuid, Component>, cs: seq<Component>)
    requires forall k :: k in m ==> m[k] in cs
    ensures forall k :: k in m ==> ToView(m[k]) in Views(cs)
  {
    forall k | k in m
      ensures ToView(m[k]) in Views(cs)
    {
      var i :| 0 <= i < |cs| && cs[i] == m[k];
      assert Views(cs)[i] == ToView(m[k]);
    }
  }

  /** In a valid store each listed view is the view of the row its id
      names. */
  lemma ViewsOfStored(st: Store, cs: seq<Component>)
    requires Valid(st)
    requires forall x :: x in cs ==> x in st.components.Values
    ensures forall i :: 0 <= i < |cs| ==>
              Views(cs)[i].id in st.components && Views(cs)[i] == ToView(st.components[Views(cs)[i].id])
  {
    forall i | 0 <= i < |cs|
      ensures Views(cs)[i].id in st.components && Views(cs)[i] == ToView(st.components[Views(cs)[i].id])
    {
      assert cs[i] in cs;
      var k :| k in st.components && st.components[k] == cs[i];
    }
  }

  /** GET on the list endpoint: every component once, latest date first and
      names ascending within a day. */
  method ListComponents(st: Store) returns (resp: Response)
    ensures resp.Listed?
    ensures |resp.items| == |st.components|
    ensures forall k :: k in st.components ==> ToView(st.components[k]) in resp.items
    ensures Valid(st) ==>
              forall i :: 0 <= i < |resp.items| ==>
                resp.items[i].id in st.components && resp.items[i] == ToView(st.components[resp.items[i].id])
    ensures forall i, j :: 0 <= i < j < |resp.items| ==> WireOrdered(resp.items[i], resp.items[j])
  {
    var cs := List(st);
    var items := Views(cs);
    ViewsInWireOrder(cs);
    ViewsCover(st.components, cs);
    if Valid(st) {
      ViewsOfStored(st, cs);
    }
    resp := Listed(items);
  }

  // ---------------------------------------------------------------------------
  // request sequences

  /** A JSON create that succeeds: the new component's detail is the created
      view with no attachments, its date is today, and its tags read back as
      the trimmed non-blank entries sent whenever none contains a comma. */
  lemma JsonCreateThenDetail(st: Store, p: JsonCreate, id: Uuid, today: Date, decode: seq<byte> -> string)
    requires Valid(st) && id !in st.components
    ensures var s := CreateComponent(st, JsonBody(Some(p)), id, today, decode);
            s.response.Created? ==>
              GetDetail(s.store, id) == Found(s.response.view, [])
              && s.response.view.dateIso == Iso(today)
              && ((forall i :: 0 <= i < |p.tags.GetOr([])| ==> ',' !in p.tags.GetOr([])[i]) ==>
                    s.response.view.tags == Normalize(p.tags.GetOr([])))
  {
    var s := CreateComponent(st, JsonBody(Some(p)), id, today, decode);
    if s.response.Created? {
      FilesOfAbsent(st, id);
      assert FilesOf(s.store, id) == FilesOf(st, id);
    }
  }

  /** A multipart create that succeeds attaches one file per upload, in
      upload order, all owned by the new component; no other component's
      attachments change; and the stripped tags string reads back as the
      tags of the raw one. */
  lemma MultipartCreateAttaches(st: Store, f: MultipartCreate, id: Uuid, today: Date,
                                decode: seq<byte> -> string, other: Uuid)
    requires Valid(st) && id !in st.components
    ensures var s := CreateComponent(st, MultipartBody(f), id, today, decode);
            s.response.Created? ==>
              var files := FilesOf(s.store, id);
              |files| == |f.files|
              && (forall i :: 0 <= i < |files| ==> files[i].component == id && files[i].file == f.files[i])
              && |GetDetail(s.store, id).files| == |f.files|
              && (other != id ==> FilesOf(s.store, other) == FilesOf(st, other))
              && s.response.view.tags == TagList(f.tags.GetOr(""))
  {
    var s := CreateComponent(st, MultipartBody(f), id, today, decode);
    if s.response.Created? {
      var n := ResolveMultipart(f, decode).value;
      var c := NewRow(n, id, today);
      InsertWithFiles(st, c, n.attachments, other);
      assert s.store == AddFiles(Insert(st, c), id, n.attachments).store;
      TagListStrip(f.tags.GetOr(""));
    }
  }

  /** A successful delete: the id is gone (detail is 404), and so are its
      attachments, while every other component keeps its attachments. */
  lemma DeleteThenDetail(st: Store, id: Uuid, other: Uuid)
    requires Valid(st)
    ensures GetDetail(DeleteComponent(st, id).store, id) == NotFound
    ensures FilesOf(DeleteComponent(st, id).store, id) == []
    ensures other != id ==> FilesOf(DeleteComponent(st, id).store, other) == FilesOf(st, other)
  {
    if id in st.components {
      DeleteCascadeFiles(st, id, other);
    } else {
      FilesOfAbsent(st, id);
    }
  }

  /** Updating tags and then reading the component gives back the trimmed
      non-blank entries sent, when none contains a comma. */
  lemma PatchTagsReadBack(st: Store, id: Uuid, p: JsonPatch, parseDate: string -> Option<Date>)
    requires id in st.components && p.tags.Some?
    requires forall i :: 0 <= i < |p.tags.value| ==> ',' !in p.tags.value[i]
    ensures PatchComponent(st, id, Some(p), parseDate).response.Updated?
    ensures PatchComponent(st, id, Some(p), parseDate).response.view.tags == Normalize(p.tags.value)
  {
  }

  /** Applying the same field updates twice is applying them once. */
  lemma ApplyPatchIdempotent(c: Component, p: JsonPatch, parseDate: string -> Option<Date>)
    ensures ApplyPatch(ApplyPatch(c, p, parseDate), p, parseDate) == ApplyPatch(c, p, parseDate)
  {
  }

  /** Sending the same update twice leaves the store as sending it once. */
  lemma PatchIdempotent(st: Store, id: Uuid, body: Option<JsonPatch>, parseDate: string -> Option<Date>)
    ensures var once := PatchComponent(st, id, body, parseDate).store;
            PatchComponent(once, id, body, parseDate).store == once
  {
    if id in st.components && body.Some? {
      var c := ApplyPatch(st.components[id], body.value, parseDate);
      var once := Save(st, id, c);
      ApplyPatchIdempotent(c, body.value, parseDate);
      assert once.components[id := c] == once.components;
    }
  }

  /** The two create paths treat a whitespace-only name differently: JSON
      strips it to the empty string, multipart replaces it by `Untitled`. */
  lemma BlankNameByEncoding(p: JsonCreate, f: MultipartCreate, decode: seq<byte> -> string)
    requires p.name.Some? && p.name.value != "" && AllSpace(p.name.value)
    requires f.name == p.name
    ensures ResolveJson(p).Success? ==> ResolveJson(p).value.name == ""
    ensures ResolveMultipart(f, decode).Success? ==> ResolveMultipart(f, decode).value.name == Untitled
  {
  }

  /** The multipart path checks the uploaded code for emptiness without
      stripping it, so a file of only whitespace is accepted and stored as
      is, while the same text sent as `code_text` is refused. */
  lemma WhitespaceCodeFileAccepted(f: MultipartCreate, decode: seq<byte> -> string)
    requires Strip(f.codeText.GetOr("")) == "" && f.codeFile.Some?
    requires decode(f.codeFile.value) != "" && AllSpace(decode(f.codeFile.value))
    ensures ResolveMultipart(f, decode).Success?
    ensures ResolveMultipart(f, decode).value.code == decode(f.codeFile.value)
    ensures ResolveMultipart(f.(codeText := Some(decode(f.codeFile.value)), codeFile := None), decode).Failure?
  {
  }

  /** The status choices are declared on the model but not enforced: a JSON
      create with any other status stores it as sent. */
  lemma StatusNotValidated(p: JsonCreate, status: string)
    requires Strip(p.code.GetOr("")) != ""
    requires p.status == Some(status) && Trimmed(status) && status !in StatusChoices
    ensures ResolveJson(p).Success?
    ensures ResolveJson(p).value.status == status && ResolveJson(p).value.status !in StatusChoices
  {
    StripTrimmed(status);
  }
}
