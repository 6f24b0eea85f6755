# Templatron component store, modelled in Dafny

Templatron is a small Django app for keeping reusable HTML snippets
("components"). Each component has a name, section, tags, code, description,
notes, instructions, status and the date it was added. It can also own file
attachments. Its core is a component store behind three JSON endpoints:

- list and create (`html_templates_list_create`);
- detail, update and delete (`html_templates_detail`);
- attachment upload (`html_templates_upload_files`).

Create accepts two encodings, JSON and multipart, and their rules differ.

This project models that core as pure functions over immutable data:

- `wrappers.dfy`: `Option` and `Result`.
- `strings.dfy`: the Python string operations the app relies on:
  - `str.strip()`, with whitespace as `str.isspace()` defines it;
  - `str.split(sep)` and `sep.join(parts)`;
  - the last `/`-segment of a path;
  - `<=` on strings, which is code-point order.
- `dates.dfy`: `datetime.date` values, their order, and `isoformat()`.
- `tags.dfy`: the tag codec. The stored column is a comma-joined string; the
  wire form is a list of trimmed, non-empty tags.
- `models.dfy`: the `Component` and `ComponentFile` rows, their `to_dict()`
  views, and the listing order `['-date_added', 'name']`.
- `store.dfy`: the two tables and the operations on them:
  - insert and save;
  - delete, which cascades to the component's attachments;
  - adding attachments with auto-increment ids;
  - listing.
- `views.dfy`: the handlers. The handlers that change data map a store and an
  already-decoded request to a new store and a response, and an error
  response always returns the store unchanged. The two GET handlers, list and
  detail, read the store and return only a response.

## Where the two create paths differ

The JSON create (`apps/html_templates/views.py:60-71`) and the multipart
create (`apps/html_templates/views.py:27-41`) clean their fields in different
orders. Three consequences are stated as lemmas.

- **Whitespace-only name.**
  - The JSON path applies `or 'Untitled'` before stripping. A name of only
    whitespace is truthy, so it survives the default and is stored as `""`.
  - The multipart path strips first and then applies `or 'Untitled'`, so the
    same name becomes `"Untitled"`.
  - `Views.BlankNameByEncoding` states both behaviours.
- **Whitespace-only code file.**
  - The multipart path strips `code_text` but never strips the decoded
    `code_file` content, and only then tests for emptiness.
  - A code file of only whitespace is therefore accepted and stored as it is,
    while the same text sent as `code_text` is refused with 400.
  - `Views.WhitespaceCodeFileAccepted` states this.
- **Tags containing commas.**
  - The JSON path joins the stripped list entries with `,`
    (`apps/html_templates/views.py:63`), and `tag_list()` splits on `,`.
  - An entry that contains a comma therefore comes back as several tags.
  - `Tags.CommaInTagSplits` states this, and `Tags.EncodeTags` states the
    round trip for comma-free entries.

## Model

| member | source | states |
|---|---|---|
| Strings.Strip | apps/html_templates/views.py:27-35 | `strip()` returns the input with its leading and trailing whitespace removed. The result neither starts nor ends with whitespace. It is empty exactly when the input is all whitespace. |
| Strings.Split | apps/html_templates/models.py:26 | `split(',')` yields at least one piece, and no piece contains the separator. |
| Strings.JoinSplit | apps/html_templates/models.py:26 | Joining the pieces of a split with the separator gives back the original string. |
| Strings.SplitJoin | apps/html_templates/views.py:63 | Splitting a join of one or more separator-free parts gives back exactly those parts. |
| Strings.LastSegment | apps/html_templates/models.py:50 | `name.split('/')[-1]` contains no `/`. It is a suffix of the path, either the whole path or the part after its last `/`. |
| Dates.Iso | apps/html_templates/models.py:34 | `isoformat()` is 10 characters with dashes at positions 4 and 7. Its digit groups read back as the year, month and day. |
| Dates.IsoInjective | apps/html_templates/models.py:34 | Different dates have different ISO strings. |
| Dates.IsoOrder | apps/html_templates/models.py:34 | Comparing two ISO strings as text gives the same answer as comparing the dates: `Iso(a) <= Iso(b)` exactly when `a` is not later than `b`. |
| Tags.Normalize | apps/html_templates/views.py:63 | The trimmed, non-blank entries: each is non-empty and neither starts nor ends with whitespace, and there are no more of them than entries. |
| Tags.TagList | apps/html_templates/models.py:25-26 | Every element of `tag_list()` is a tag: non-empty, already stripped, and free of commas. |
| Tags.TagListOfEmpty | apps/html_templates/models.py:26 | An empty tags column gives no tags. |
| Tags.TagListConcat | apps/html_templates/models.py:26 | Tags keep the left-to-right order of the comma pieces: the tags of `a + "," + b` are the tags of `a` followed by the tags of `b`. |
| Tags.TwoTagsWithPadding | apps/html_templates/models.py:26 | `"alpha, beta"` reads as `["alpha", "beta"]`, for any two tags and any whitespace after the comma. |
| Tags.TagListJoin | apps/html_templates/models.py:26 | Joining a list of tags with commas and reading it back gives the same list. |
| Tags.TagListIdempotent | apps/html_templates/models.py:26 | `tag_list(','.join(tag_list(s))) == tag_list(s)`. |
| Tags.EncodeTags | apps/html_templates/views.py:62-63 | If no entry contains a comma, the stored tags string reads back as the trimmed, non-blank entries in order. |
| Tags.CommaInTagSplits | apps/html_templates/views.py:63 | The codec is lossy for an entry containing a comma: `"a,b"` comes back as the two tags `a` and `b`. |
| Tags.TagListStrip | apps/html_templates/views.py:29 | Stripping the raw multipart tags string before storing it does not change the tags read back. |
| Models.ToView | apps/html_templates/models.py:28-40 | `to_dict()` returns `tag_list()` as the tags and the ISO text of `date_added` as `dateISO`. Every other field is copied verbatim. |
| Models.FileToView | apps/html_templates/models.py:47-53 | An attachment's name is the last `/`-segment of its storage path: a suffix with no `/`. Its url and size are `''` and `0` when there is no file, and the stored ones otherwise. |
| Models.ListedBeforeTotal | apps/html_templates/models.py:22-23 | Of any two components, one may be listed before the other. |
| Models.ListedBeforeTransitive | apps/html_templates/models.py:22-23 | The listing order is transitive. |
| Models.InListOrderPairwise | apps/html_templates/models.py:22-23 | If every adjacent pair is in listing order, then any earlier component may be listed before any later one. |
| Models.ListedBeforeAntisymmetric | apps/html_templates/models.py:22-23 | Two components can each be listed before the other only when they have the same date and the same name. |
| Models.InsertSorted | apps/html_templates/models.py:22-23 | Inserting into an ordered list keeps it ordered and adds exactly the new component (as a multiset). |
| Models.InsertSortedMembers | apps/html_templates/models.py:22-23 | After an insertion the list holds the old elements and the new one, and nothing else. |
| ComponentStore.FilesOf | apps/html_templates/views.py:85 | `comp.files.all()` holds only stored attachments owned by the component, each once and in increasing id order. In a valid store it holds every one of them. |
| ComponentStore.FilesOfAbsent | apps/html_templates/models.py:43 | Under the foreign key, a component that is not stored owns no attachments. |
| ComponentStore.Insert | apps/html_templates/views.py:43-46 | Creating a row adds exactly that id. Every other row and all attachments are unchanged, and validity is kept. |
| ComponentStore.Save | apps/html_templates/views.py:109 | Saving replaces one row. The set of ids, the other rows and the attachments are unchanged. |
| ComponentStore.DeleteCascade | apps/html_templates/models.py:43 | Deleting removes the id and every attachment that component owns. No other row or attachment changes, and validity is kept. |
| ComponentStore.DeleteCascadeFiles | apps/html_templates/models.py:43 | After a delete, the deleted component has no attachments and every other component keeps its attachments. |
| ComponentStore.AddFiles | apps/html_templates/views.py:120-122 | Each upload makes one row owned by the component, with consecutive new ids in upload order. Earlier rows are kept when every attachment id was issued by the counter, which is always so in the database. Validity is kept when the owner exists. |
| ComponentStore.AddFile | apps/html_templates/views.py:121 | One `ComponentFile.objects.create` adds one row under the counter's next id. It keeps every existing row when every attachment id was issued by the counter, which is always so in the database. |
| ComponentStore.AddFileAppends | apps/html_templates/views.py:121 | One new attachment is appended to its owner's attachments and to no other component's. |
| ComponentStore.AddFilesAppends | apps/html_templates/views.py:120-122 | Uploads are appended to the owner's attachments in order. Every other component's attachments are unchanged. |
| ComponentStore.InsertWithFiles | apps/html_templates/views.py:43-50 | In a valid store, a new component owns exactly the attachment rows created with it, and no other component's attachments change. |
| ComponentStore.AddFilesKeys | apps/html_templates/views.py:49-50 | After the uploads, the attachment table holds exactly the old ids and the counter's next ids, one per upload. |
| ComponentStore.AddFilesKeepsBelow | apps/html_templates/views.py:49-50 | Uploading never changes an attachment row stored under an id below the counter. |
| ComponentStore.InsertWithUploads | apps/html_templates/views.py:43-50 | Creating a component with its uploads adds that one component, and adds to the attachment table exactly the counter's next ids. Rows stored under ids the counter has already issued keep their contents; in the database that is every row. The created rows are the uploads in order, under consecutive ids, owned by the new component. In a valid store they are all it owns, and validity is kept. With no uploads the table is unchanged. |
| ComponentStore.List | apps/html_templates/views.py:20 | The list is in `['-date_added', 'name']` order, contains every stored component, contains only stored components, and has as many entries as there are rows. |
| Views.ResolveJson | apps/html_templates/views.py:60-71 | JSON create fails with "Code is required." exactly when the stripped code is empty. See the detailed rules below. |
| Views.ResolveMultipart | apps/html_templates/views.py:27-41 | Multipart create fails exactly when both code sources are empty. See the detailed rules below. |
| Views.CreateComponent | apps/html_templates/views.py:25-77 | A refused create leaves the store unchanged and answers 400 with the resolution's reason. An accepted one adds exactly the new row, dated today, and answers with its view. Validity is kept. |
| Views.CreateComponentFiles | apps/html_templates/views.py:43-50 | An accepted create leaves the store as inserting the new row with its uploads leaves it. A JSON create leaves the attachment table and its id counter unchanged. |
| Views.CreateStatus | apps/html_templates/views.py:40-77 | A create answers 201 exactly when the request resolves, and 400 otherwise. |
| Views.GetDetail | apps/html_templates/views.py:81-86 | An unknown id gives 404 and a stored one 200. Otherwise the view of the row is returned with the views of its attachments. |
| Views.ApplyPatch | apps/html_templates/views.py:94-107 | Update fields are applied without validation. See the detailed rules below. |
| Views.PatchComponent | apps/html_templates/views.py:81-110 | An unknown id gives 404, checked before the body is parsed. A body that is not JSON gives 400 and changes nothing. Otherwise only that row is replaced; the ids and the attachments are unchanged. |
| Views.PatchWithoutFields | apps/html_templates/views.py:94-110 | A body that names none of the fields saves the row as it was and answers 200 with its view. |
| Views.DeleteComponent | apps/html_templates/views.py:112-114 | An unknown id gives 404 and changes nothing. Otherwise the component is deleted with its attachments. Afterwards the id is not in the store. |
| Views.UploadFiles | apps/html_templates/views.py:116-123 | An unknown id gives 404 and changes nothing. Otherwise one attachment is made per upload, and the response lists one view per upload with consecutive new ids. The component rows are unchanged. |
| Views.ListedBeforeOnTheWire | apps/html_templates/models.py:22-23 | The listing order can be read off the serialised views: a later `dateISO` string comes first, and on the same `dateISO` the smaller name comes first. |
| Views.ViewsInWireOrder | apps/html_templates/views.py:20 | Components in listing order serialise to items in that wire order, for every pair of positions. |
| Views.ListComponents | apps/html_templates/views.py:19-21 | The list response has one item per stored component and includes every stored component's view. In a valid store each item is the view of the row its id names. Any two items are in wire order. |
| Views.JsonCreateThenDetail | apps/html_templates/views.py:60-77 | After a successful JSON create, the detail of the new id is the created view with no attachments, and `dateISO` is today. Comma-free tags read back as the trimmed, non-blank entries sent. |
| Views.MultipartCreateAttaches | apps/html_templates/views.py:43-52 | After a successful multipart create, the new component owns one attachment per upload, in order, and its detail lists that many files. Other components' attachments are unchanged, and the tags read back as those of the raw tags field. |
| Views.DeleteThenDetail | apps/html_templates/views.py:112-114 | After a delete, the detail of the id is 404 and it owns no attachments. Other components keep theirs. |
| Views.PatchTagsReadBack | apps/html_templates/views.py:99-101 | Updating with comma-free tags reads back as the trimmed, non-blank entries sent. |
| Views.ApplyPatchIdempotent | apps/html_templates/views.py:94-107 | Applying the same field updates twice is the same as applying them once. |
| Views.PatchIdempotent | apps/html_templates/views.py:88-110 | Sending the same update twice leaves the store as sending it once. |
| Views.BlankNameByEncoding | apps/html_templates/views.py:27-60 | A whitespace-only name is stored as `""` by the JSON path and as `"Untitled"` by the multipart path. |
| Views.WhitespaceCodeFileAccepted | apps/html_templates/views.py:35-41 | A whitespace-only `code_file` is accepted and stored unstripped. The same text sent as `code_text` is refused. |
| Views.StatusNotValidated | apps/html_templates/views.py:68 | The status choices of `apps/html_templates/models.py:5-9` are not enforced: a JSON create with any other trimmed status stores it as sent. |

Detailed rules for the three largest contracts:

- **Views.ResolveJson**
  - The stored code is the stripped code.
  - A missing, null or empty name becomes `Untitled`; any other name is stripped.
  - section is stripped.
  - description, notes and instructions are kept as sent.
  - A missing, null or empty status becomes `not_started`; any other status is stripped.
  - The tags are the encoded tag list.
  - There are no attachments.
- **Views.ResolveMultipart**
  - The stripped `code_text` wins when it is non-empty.
  - Otherwise the decoded `code_file` is used, unstripped.
  - A blank name becomes `Untitled`.
  - Every other text field is stripped; the tags field is kept as the stripped raw string.
  - status defaults to `not_started` only when the field is missing.
  - The uploads become the attachments.
- **Views.ApplyPatch**
  - Each of name, section, description, notes, instructions, code and status is set verbatim when present and unchanged when absent.
  - Tags are re-encoded when present.
  - The date is replaced only when `dateISO` parses.
  - The id is never changed.

## Left out

- **Framework plumbing.** This covers HTTP method dispatch (405 responses), URL routing, CSRF, the home page, and content-type sniffing. A create request is already either `JsonBody` or `MultipartBody`.
- **JSON decoding.** A body that does not parse is `JsonBody(None)`.
  - A JSON create whose body parses but is not an object raises on `payload.get` (a 500); this is not modelled.
  - A PATCH body is only probed with `field in payload`. A JSON array or string that contains none of the field names therefore acts like `{}`: the row is saved unchanged and the answer is 200, which `Views.PatchWithoutFields` states. Any other non-object PATCH body raises (a 500) and is not modelled.
  - Neither are fields of the wrong JSON type, such as a number as `name`, or `tags` given as a string, which the code iterates character by character.
  - Fields are typed as strings and lists of strings.
- **Nulls in updates.** A PATCH field that is present but `null`, other than `tags`, is not modelled. `setattr` stores `None` and the save fails (500).
- **Null `dateISO`.** A PATCH `dateISO` of `null` is not modelled. `parse_date(None)` raises (500).
- **Date parsing.** `parse_date` is the parameter `parseDate: string -> Option<Date>`.
  - Django's version raises on a well-formed but impossible date such as `2024-02-30`, which gives a 500.
  - The parameter returns `None` instead, which leaves the date unchanged.
- **UTF-8 decoding.** Decoding with `errors='ignore'` is the parameter `decode: seq<byte> -> string`. It never fails.
- **Ids and clocks.** UUID generation and formatting are the fresh-id parameter `id`. Today's date is the parameter `today`.
- **`uploaded_at`.** It is not modelled; no response exposes it.
- **Blob storage.** The storage name (including the `component_files/` prefix and collision renaming), the URL and the size are the opaque `StoredFile` fields.
  - Uploads are given already stored.
  - An upload with an empty filename, which Django's parser drops, is not modelled.
- **Database behaviour.**
  - Names are ordered by code point; a database collation may differ.
  - Rows with the same date and name may come in either order.
  - `comp.files.all()` is modelled in id order; Django does not promise an order there.
  - `max_length` limits are not modelled; they are not enforced on `objects.create`.
  - Partial failure (a storage error on the second attachment, say) is not modelled. Neither are concurrent requests.
- Tags.EncodeTags: the round trip is stated only for entries without commas. `Tags.CommaInTagSplits` shows what happens otherwise.
- ComponentStore.FilesOf: completeness is stated only for valid stores, where every attachment is stored under its own id.
- Views.ListComponents: that each item is the view of a stored row is stated only for valid stores.
