/** The two database entities, `Component` and `ComponentFile`, their JSON
    views (`to_dict`), and the default listing order `['-date_added', 'name']`. */
module Models {
  import opened Strings
  import opened Dates
  import opened Tags

  /** The canonical text of a component's UUID primary key; `str(id)` of the
      key is this text. */
  type Uuid = string

  /** The name a create request falls back to. */
  const Untitled := "Untitled"

  /** The default `status`. The three choices are declared on the model but
      never checked when a component is created or updated. */
  const NotStarted := "not_started"
  const StatusChoices: seq<string> := ["not_started", "in_progress", "completed"]

  /** One row of the `Component` table. `tags` is the stored comma-separated
      column; `dateAdded` is `date_added`. */
  datatype Component = Component(
    id: Uuid,
    name: string,
    section: string,
    tags: string,
    dateAdded: Date,
    code: string,
    description: string,
    notes: string,
    instructions: string,
    status: string)

  /** `Component.to_dict()`: what every endpoint returns for a component. */
  datatype ComponentView = ComponentView(
    id: string,
    name: string,
    section: string,
    tags: seq<string>,
    dateIso: string,
    code: string,
    description: string,
    notes: string,
    instructions: string,
    status: string)

  /** `Component.to_dict()`: the stored tags column comes back as the tag
      list, the date as its ISO text, and every other field verbatim. */
  function ToView(c: Component): (v: ComponentView)
    ensures v.id == c.id && v.name == c.name && v.section == c.section && v.code == c.code
    ensures v.description == c.description && v.notes == c.notes
    ensures v.instructions == c.instructions && v.status == c.status
    ensures v.tags == TagList(c.tags)
    ensures forall i :: 0 <= i < |v.tags| ==> IsTag(v.tags[i])
    ensures v.dateIso == Iso(c.dateAdded)
  {
    ComponentView(c.id, c.name, c.section, TagList(c.tags), Iso(c.dateAdded), c.code,
                  c.description, c.notes, c.instructions, c.status)
  }

  // ---------------------------------------------------------------------------
  // attachments

  /** What the blob store holds for one uploaded file: its storage name
      (a `/`-separated path), its public URL and its size in bytes. An empty
      name is a field with no file, which is falsy. */
  datatype StoredFile = StoredFile(name: string, url: string, size: nat)

  /** One row of the `ComponentFile` table; `component` is the owner's key. */
  datatype ComponentFile = ComponentFile(id: nat, component: Uuid, file: StoredFile)

  /** `ComponentFile.to_dict()` */
  datatype FileView = FileView(id: nat, name: string, url: string, size: nat)

  /** `ComponentFile.to_dict()`: the name is the last `/`-segment of the
      storage path; url and size read `''` and `0` when there is no file. */
  function FileToView(f: ComponentFile): (v: FileView)
    ensures v.id == f.id
    ensures '/' !in v.name
    ensures |v.name| <= |f.file.name| && f.file.name[|f.file.name| - |v.name|..] == v.name
    ensures |v.name| == |f.file.name| || f.file.name[|f.file.name| - |v.name| - 1] == '/'
    ensures f.file.name == "" ==> v.url == "" && v.size == 0
    ensures f.file.name != "" ==> v.url == f.file.url && v.size == f.file.size
  {
    var hasFile := f.file.name != "";
    FileView(f.id, LastSegment(f.file.name, '/'),
             if hasFile then f.file.url else "",
             if hasFile then f.file.size else 0)
  }

  // ---------------------------------------------------------------------------
  // listing order

  /** `Meta.ordering = ['-date_added', 'name']`: `a` may be listed before `b`
      when it was added later, or on the same day with a name that is not
      greater. Names compare by code point. */
  predicate ListedBefore(a: Component, b: Component)
  {
    Later(a.dateAdded, b.dateAdded) || (a.dateAdded == b.dateAdded && LexLe(a.name, b.name))
  }

  /** Every adjacent pair is in listing order. */
  predicate InListOrder(cs: seq<Component>)
  {
    forall i :: 0 <= i < |cs| - 1 ==> ListedBefore(cs[i], cs[i + 1])
  }

  /** Any two components can be listed one way round or the other. */
  lemma ListedBeforeTotal(a: Component, b: Component)
    ensures ListedBefore(a, b) || ListedBefore(b, a)
  {
    LexLeTotal(a.name, b.name);
  }

  lemma ListedBeforeTransitive(a: Component, b: Component, c: Component)
    requires ListedBefore(a, b) && ListedBefore(b, c)
    ensures ListedBefore(a, c)
  {
    if a.dateAdded == b.dateAdded && b.dateAdded == c.dateAdded {
      LexLeTransitive(a.name, b.name, c.name);
    }
  }

  /** Two components can each be listed before the other only when they
      have the same date and the same name. */
  lemma ListedBeforeAntisymmetric(a: Component, b: Component)
    requires ListedBefore(a, b) && ListedBefore(b, a)
    ensures a.dateAdded == b.dateAdded && a.name == b.name
  {
    LexLeAntisymmetric(a.name, b.name);
  }

  lemma InListOrderTail(cs: seq<Component>)
    requires |cs| > 0 && InListOrder(cs)
    ensures InListOrder(cs[1..])
  {
    var tail := cs[1..];
    forall i | 0 <= i < |tail| - 1
      ensures ListedBefore(tail[i], tail[i + 1])
    {
      assert tail[i] == cs[i + 1] && tail[i + 1] == cs[i + 2];
    }
  }

  /** Adjacent order is order between any two positions. */
  lemma {:induction false} InListOrderPairwise(cs: seq<Component>)
    requires InListOrder(cs)
    ensures forall i, j :: 0 <= i < j < |cs| ==> ListedBefore(cs[i], cs[j])
    decreases |cs|
  {
    if |cs| > 1 {
      var tail := cs[1..];
      InListOrderTail(cs);
      InListOrderPairwise(tail);
      forall j | 1 < j < |cs|
        ensures ListedBefore(cs[0], cs[j])
      {
        assert cs[j] == tail[j - 1] && cs[1] == tail[0];
        ListedBeforeTransitive(cs[0], cs[1], cs[j]);
      }
      forall i, j | 0 < i < j < |cs|
        ensures ListedBefore(cs[i], cs[j])
      {
        assert cs[i] == tail[i - 1] && cs[j] == tail[j - 1];
      }
    }
  }

  /** One step of sorting: `c` put in its place in an already ordered list. */
  function InsertSorted(c: Component, cs: seq<Component>): (r: seq<Component>)
    requires InListOrder(cs)
    ensures |r| == |cs| + 1
    ensures multiset(r) == multiset(cs) + multiset{c}
    ensures r[0] == c || (|cs| > 0 && r[0] == cs[0])
    ensures InListOrder(r)
  {
    if |cs| == 0 || ListedBefore(c, cs[0]) then
      [c] + cs
    else
      var tail := cs[1..];
      InListOrderTail(cs);
      ListedBeforeTotal(c, cs[0]);
      var rest := InsertSorted(c, tail);
      assert cs == [cs[0]] + tail;
      [cs[0]] + rest
  }

  /** Inserting adds `c` and keeps every element already there. */
  lemma InsertSortedMembers(c: Component, cs: seq<Component>)
    requires InListOrder(cs)
    ensures forall x :: x in InsertSorted(c, cs) <==> x in cs || x == c
  {
    var r := InsertSorted(c, cs);
    forall x
      ensures x in r <==> x in cs || x == c
    {
      assert x in r <==> x in multiset(r);
      assert x in cs <==> x in multiset(cs);
    }
  }
}
