/**
 * The state logic of the trails page, without its rendering: the draft of one
 * trail being created or edited (name, description, an ordered list of module
 * drafts, the trail being edited if any) and the handlers that change it.
 *
 * A request the page would `fetch` is returned as a value; whether the fetch
 * went through and whether the user confirmed a prompt are parameters.
 */
module TrailEditor {
  import opened JsText
  import TrailStore

  const TrailsUrl := "http://localhost:5000/api/trails"

  datatype Field = Title | Content

  /**
   * A module draft `{ title, content, order }`. A blank draft has content "";
   * one seeded from a stored module may carry a null content.
   */
  datatype ModuleDraft = ModuleDraft(title: string, content: Option<string>, order: int)

  /** The JSON body `handleSave` sends. */
  datatype Payload = Payload(name: string, description: Option<string>, modules: seq<TrailStore.ModuleInput>)

  datatype Verb = Post | Put | Delete

  datatype Request = Request(verb: Verb, url: string, body: Option<Payload>)

  /** `{ title: '', content: '', order }` */
  function Blank(order: int): (d: ModuleDraft)
    ensures d.order == order && AllWhiteSpace(d.title) && !Truthy(d.content)
  {
    ModuleDraft("", Some(""), order)
  }

  /** The URL of one trail: `${base}/${id}`. */
  function TrailUrl(id: int): (url: string)
    ensures |url| > |TrailsUrl| + 1 && url[..|TrailsUrl| + 1] == TrailsUrl + "/"
  {
    TrailsUrl + "/" + (if id < 0 then "-" + NatText(-id) else NatText(id))
  }

  /**
   * `url` addresses trail `id` on the server: the collection URL, a slash, and
   * a run of decimal digits that the route's `Number(id)` reads back as `id`.
   */
  predicate NamesTrail(url: string, id: int) {
    && |url| > |TrailsUrl| + 1
    && url[..|TrailsUrl| + 1] == TrailsUrl + "/"
    && var digits := url[|TrailsUrl| + 1..];
       && (forall i :: 0 <= i < |digits| ==> '0' <= digits[i] <= '9')
       && ParseNat(digits) == id
  }

  /** The URL of a trail with a non-negative id names that trail. */
  lemma TrailUrlNamesId(id: nat)
    ensures NamesTrail(TrailUrl(id), id)
  {
    var url := TrailUrl(id);
    assert url[|TrailsUrl| + 1..] == NatText(id);
    NatTextRoundTrip(id);
  }

  // ------------------------------------------------------------ module drafts

  /** `modules.filter((_, i) => i !== index)`: every draft except the one at `index`. */
  function DropAt(drafts: seq<ModuleDraft>, index: int): (r: seq<ModuleDraft>)
    ensures |r| == if 0 <= index < |drafts| then |drafts| - 1 else |drafts|
    ensures forall d :: d in r ==> d in drafts
    decreases |drafts|
  {
    if drafts == [] then []
    else (if index == 0 then [] else [drafts[0]]) + DropAt(drafts[1..], index - 1)
  }

  /**
   * Removing a draft deletes exactly that one and keeps the rest in order,
   * their `order` fields untouched; an index outside the list removes nothing.
   */
  lemma {:induction false} DropAtRemovesOne(drafts: seq<ModuleDraft>, index: int)
    ensures 0 <= index < |drafts| ==> DropAt(drafts, index) == drafts[..index] + drafts[index + 1..]
    ensures !(0 <= index < |drafts|) ==> DropAt(drafts, index) == drafts
  {
    if drafts != [] {
      DropAtRemovesOne(drafts[1..], index - 1);
      if index == 0 {
        assert drafts[..0] + drafts[1..] == drafts[1..];
      } else if 0 < index < |drafts| {
        assert [drafts[0]] + (drafts[1..][..index - 1] + drafts[1..][index..]) == drafts[..index] + drafts[index + 1..];
      } else {
        assert [drafts[0]] + drafts[1..] == drafts;
      }
    }
  }

  /** `newModules[index][field] = value; newModules[index].order = index + 1` on one draft. */
  function Edited(draft: ModuleDraft, field: Field, value: string, index: nat): (e: ModuleDraft)
    ensures e.order == index + 1
    ensures field == Title ==> e.title == value && e.content == draft.content
    ensures field == Content ==> e.content == Some(value) && e.title == draft.title
  {
    match field
    case Title => draft.(title := value, order := index + 1)
    case Content => draft.(content := Some(value), order := index + 1)
  }

  /** Removing a draft does not renumber the ones after it: their `order` no longer matches their position. */
  lemma RemoveLeavesStaleOrder()
    ensures var drafts := [Blank(1), Blank(2), Blank(3)];
            var after := DropAt(drafts, 0);
            |after| == 2 && after[0].order == 2 && after[1].order == 3
  {
    var drafts := [Blank(1), Blank(2), Blank(3)];
    DropAtRemovesOne(drafts, 0);
  }

  // ------------------------------------------------------------ the save payload

  /** `{ title: m.title, content: m.content || null }` */
  function Reduced(draft: ModuleDraft): (m: TrailStore.ModuleInput)
    ensures m.title == Some(draft.title)
    ensures m.content.Some? <==> Truthy(draft.content)
    ensures Truthy(draft.content) ==> m.content == draft.content
    ensures m.content != Some("")
  {
    TrailStore.ModuleInput(Some(draft.title), OrNull(draft.content))
  }

  /** What one draft contributes to the request: itself, reduced, when its trimmed title is not empty. */
  function Sent(draft: ModuleDraft): (r: seq<TrailStore.ModuleInput>)
    ensures |r| <= 1
    ensures r == [] <==> AllWhiteSpace(draft.title)
  {
    assert Trim(draft.title) == [] <==> AllWhiteSpace(draft.title) by { TrimEmptyIffBlank(draft.title); }
    if Trim(draft.title) != [] then [Reduced(draft)] else []
  }

  /** `modules.filter(m => m.title.trim()).map(...)`: the titled drafts, reduced, in order. */
  function Submitted(drafts: seq<ModuleDraft>): (r: seq<TrailStore.ModuleInput>)
    ensures |r| <= |drafts|
  {
    if drafts == [] then [] else Sent(drafts[0]) + Submitted(drafts[1..])
  }

  /** Every module sent has a title that is not blank after trimming, and no `""` content. */
  lemma {:induction false} SubmittedTitled(drafts: seq<ModuleDraft>)
    ensures forall m :: m in Submitted(drafts) ==> m.title.Some? && Trim(m.title.value) != [] && m.content != Some("")
  {
    if drafts != [] {
      SubmittedTitled(drafts[1..]);
    }
  }

  lemma {:induction false} SubmittedAppend(a: seq<ModuleDraft>, b: seq<ModuleDraft>)
    ensures Submitted(a + b) == Submitted(a) + Submitted(b)
  {
    if a == [] {
      assert a + b == b;
    } else {
      assert (a + b)[0] == a[0] && (a + b)[1..] == a[1..] + b;
      SubmittedAppend(a[1..], b);
    }
  }

  /** A draft is sent exactly when its trimmed title is not empty. */
  lemma SubmittedOne(draft: ModuleDraft)
    ensures Submitted([draft]) == if Trim(draft.title) != [] then [Reduced(draft)] else []
  {
    assert [draft][1..] == [];
  }

  /** When every draft has a title, every draft is sent, in order. */
  lemma {:induction false} SubmittedAllTitled(drafts: seq<ModuleDraft>)
    requires forall i :: 0 <= i < |drafts| ==> Trim(drafts[i].title) != []
    ensures |Submitted(drafts)| == |drafts|
    ensures forall i :: 0 <= i < |drafts| ==> Submitted(drafts)[i] == Reduced(drafts[i])
  {
    if drafts != [] {
      SubmittedAllTitled(drafts[1..]);
    }
  }

  /** The `order` fields never reach the request: drafts that differ only in `order` send the same modules. */
  lemma {:induction false} SubmittedIgnoresOrder(a: seq<ModuleDraft>, b: seq<ModuleDraft>)
    requires |a| == |b|
    requires forall i :: 0 <= i < |a| ==> a[i].title == b[i].title && a[i].content == b[i].content
    ensures Submitted(a) == Submitted(b)
  {
    if a != [] {
      SubmittedIgnoresOrder(a[1..], b[1..]);
    }
  }

  /** The body `handleSave` builds from the draft. */
  function BuildPayload(name: string, description: string, drafts: seq<ModuleDraft>): (p: Payload)
    ensures p.name == Trim(name)
    ensures p.description.Some? <==> Trim(description) != []
    ensures p.description.Some? ==> p.description.value == Trim(description)
    ensures p.modules == Submitted(drafts)
  {
    Payload(Trim(name), OrNull(Some(Trim(description))), Submitted(drafts))
  }

  /**
   * `editingTrail ? PUT ${base}/${editingTrail.id} : POST ${base}`: a new
   * trail is posted to the collection; an edited one is put to a URL from
   * which the server's route reads back exactly the edited trail's id.
   */
  function SaveRequest(editing: Option<TrailStore.TrailView>, payload: Payload): (r: Request)
    ensures r.body == Some(payload)
    ensures editing.None? <==> r.verb == Post
    ensures editing.None? ==> r.url == TrailsUrl
    ensures editing.Some? ==> r.verb == Put && r.url != TrailsUrl
    ensures editing.Some? && editing.value.trail.id >= 0 ==> NamesTrail(r.url, editing.value.trail.id)
  {
    match editing
    case None => Request(Post, TrailsUrl, Some(payload))
    case Some(trail) =>
      var url := TrailUrl(trail.trail.id);
      assert trail.trail.id >= 0 ==> NamesTrail(url, trail.trail.id) by {
        if trail.trail.id >= 0 { TrailUrlNamesId(trail.trail.id); }
      }
      Request(Put, url, Some(payload))
  }

  /**
   * `handleDelete`: only once the user confirms, a body-less DELETE to a URL
   * from which the server's route reads back exactly `id`.
   */
  function DeleteRequest(id: int, confirmed: bool): (r: Option<Request>)
    ensures r.Some? <==> confirmed
    ensures r.Some? ==> r.value.verb == Delete && r.value.body == None && r.value.url != TrailsUrl
    ensures r.Some? && id >= 0 ==> NamesTrail(r.value.url, id)
  {
    if !confirmed then None
    else
      var url := TrailUrl(id);
      assert id >= 0 ==> NamesTrail(url, id) by {
        if id >= 0 { TrailUrlNamesId(id); }
      }
      Some(Request(Delete, url, None))
  }

  /** Every module the page sends has a truthy title, so the store keeps it rather than the placeholder. */
  lemma SubmittedTruthy(drafts: seq<ModuleDraft>)
    ensures forall m :: m in Submitted(drafts) ==> Truthy(m.title) && m.content != Some("")
  {
    SubmittedTitled(drafts);
    forall m | m in Submitted(drafts) ensures Truthy(m.title) {
      assert |Trim(m.title.value)| <= |m.title.value|;
    }
  }

  /** A sent module is stored with the title and content it was sent with. */
  lemma StoredAsSent(input: TrailStore.ModuleInput, k: nat, trailId: int, id: int)
    requires Truthy(input.title) && input.content != Some("")
    ensures var row := TrailStore.StoredModule(input, k, trailId, id);
            row.title == input.title.value && row.content == input.content
            && row.orderNum == k + 1 && row.trailId == trailId
  {
  }

  /** Modules sent with non-empty titles and no "" content are stored as sent, numbered 1..N. */
  lemma NewModulesAsSent(sent: seq<TrailStore.ModuleInput>, trailId: int, firstId: int)
    requires forall m :: m in sent ==> Truthy(m.title) && m.content != Some("")
    ensures var rows := TrailStore.NewModules(sent, trailId, firstId);
            forall k :: 0 <= k < |rows| ==>
              rows[k].title == sent[k].title.value && rows[k].content == sent[k].content
              && rows[k].orderNum == k + 1 && rows[k].trailId == trailId
  {
    var rows := TrailStore.NewModules(sent, trailId, firstId);
    forall k | 0 <= k < |rows|
      ensures rows[k].title == sent[k].title.value && rows[k].content == sent[k].content
              && rows[k].orderNum == k + 1 && rows[k].trailId == trailId
    {
      assert sent[k] in sent;
      StoredAsSent(sent[k], k, trailId, firstId + k);
    }
  }

  /**
   * A payload the page sends is one the store accepts: its name passes the
   * store's presence check, no module falls back to the placeholder title, and
   * the stored modules are the sent ones numbered 1..N.
   */
  lemma PayloadAcceptedByStore(name: string, description: string, drafts: seq<ModuleDraft>, trailId: int, firstId: int)
    requires Trim(name) != []
    ensures var p := BuildPayload(name, description, drafts);
            var rows := TrailStore.NewModules(p.modules, trailId, firstId);
            && Truthy(Some(p.name))
            && (forall m :: m in p.modules ==> Truthy(m.title) && m.content != Some(""))
            && (forall k :: 0 <= k < |rows| ==>
                  rows[k].title == p.modules[k].title.value && rows[k].content == p.modules[k].content
                  && rows[k].orderNum == k + 1 && rows[k].trailId == trailId)
  {
    SubmittedTruthy(drafts);
    NewModulesAsSent(Submitted(drafts), trailId, firstId);
  }

  // ------------------------------------------------------------ seeding from a stored trail

  /** `trail.modules.map((m, i) => ({ ...m, order: i + 1 }))`, or one blank draft for a trail without modules. */
  function SeedDrafts(modules: seq<TrailStore.ModuleRow>): (r: seq<ModuleDraft>)
    ensures |r| >= 1
    ensures forall i :: 0 <= i < |r| ==> r[i].order == i + 1
    ensures |modules| == 0 ==> r == [Blank(1)]
    ensures |modules| > 0 ==> |r| == |modules|
    ensures |modules| > 0 ==> forall i :: 0 <= i < |r| ==> r[i].title == modules[i].title && r[i].content == modules[i].content
  {
    if |modules| > 0
    then seq(|modules|, i requires 0 <= i < |modules| => ModuleDraft(modules[i].title, modules[i].content, i + 1))
    else [Blank(1)]
  }

  /**
   * Editing a trail and saving it untouched sends back its modules as they
   * are stored, provided each has a title that is not all white space (a
   * blank-titled module is dropped) and no content that is "" (the store never
   * keeps one).
   */
  lemma EditThenSaveResends(modules: seq<TrailStore.ModuleRow>)
    requires forall i :: 0 <= i < |modules| ==> Trim(modules[i].title) != []
    requires forall i :: 0 <= i < |modules| ==> modules[i].content != Some("")
    ensures var sent := Submitted(SeedDrafts(modules));
            && |sent| == |modules|
            && forall i :: 0 <= i < |modules| ==>
                 sent[i] == TrailStore.ModuleInput(Some(modules[i].title), modules[i].content)
  {
    if |modules| > 0 {
      SubmittedAllTitled(SeedDrafts(modules));
    } else {
      SubmittedOne(Blank(1));
    }
  }

  /**
   * The whole round trip of an unchanged edit: what the store writes back for
   * the trail has the titles, contents and `orderNum`s it had before, under
   * new module ids.
   */
  lemma EditThenSaveRestores(modules: seq<TrailStore.ModuleRow>, trailId: int, firstId: int)
    requires TrailStore.Dense(modules)
    requires forall i :: 0 <= i < |modules| ==> Trim(modules[i].title) != []
    requires forall i :: 0 <= i < |modules| ==> modules[i].content != Some("")
    ensures var rows := TrailStore.NewModules(Submitted(SeedDrafts(modules)), trailId, firstId);
            && |rows| == |modules|
            && forall i :: 0 <= i < |modules| ==>
                 rows[i].title == modules[i].title && rows[i].content == modules[i].content
                 && rows[i].orderNum == modules[i].orderNum
  {
    EditThenSaveResends(modules);
    SubmittedTruthy(SeedDrafts(modules));
    NewModulesAsSent(Submitted(SeedDrafts(modules)), trailId, firstId);
  }

  // ------------------------------------------------------------ the page state

  class Editor {
    var name: string
    var description: string
    var modules: seq<ModuleDraft>
    var editingTrail: Option<TrailStore.TrailView>
    var showForm: bool

    /** The page never shows an empty module list: removal is only offered while there is more than one draft. */
    ghost predicate Valid()
      reads this
    {
      |modules| >= 1
    }

    /** The initial `useState` values. */
    constructor ()
      ensures Valid()
      ensures name == "" && description == "" && modules == [Blank(1)]
      ensures editingTrail == None && !showForm
    {
      name, description := "", "";
      modules := [Blank(1)];
      editingTrail := None;
      showForm := false;
    }

    /** `addModule`: appends one blank draft numbered after the existing ones. */
    method AddModule()
      requires Valid()
      modifies this`modules
      ensures Valid()
      ensures modules == old(modules) + [Blank(|old(modules)| + 1)]
    {
      modules := modules + [Blank(|modules| + 1)];
    }

    /** `removeModule(index)`, reachable only through the button shown while there are two drafts or more. */
    method RemoveModule(index: nat)
      requires Valid()
      requires |modules| > 1 && index < |modules|
      modifies this`modules
      ensures Valid()
      ensures |modules| == |old(modules)| - 1
      ensures forall k :: 0 <= k < index ==> modules[k] == old(modules)[k]
      ensures forall k :: index <= k < |modules| ==> modules[k] == old(modules)[k + 1]
    {
      DropAtRemovesOne(modules, index);
      modules := DropAt(modules, index);
    }

    /** `updateModule(index, field, value)`: sets the field and renumbers that one draft to its position. */
    method UpdateModule(index: nat, field: Field, value: string)
      requires Valid()
      requires index < |modules|
      modifies this`modules
      ensures Valid()
      ensures |modules| == |old(modules)|
      ensures modules[index].order == index + 1
      ensures field == Title ==> modules[index].title == value && modules[index].content == old(modules)[index].content
      ensures field == Content ==> modules[index].content == Some(value) && modules[index].title == old(modules)[index].title
      ensures forall k :: 0 <= k < |modules| && k != index ==> modules[k] == old(modules)[k]
    {
      modules := modules[index := Edited(modules[index], field, value, index)];
    }

    /** `resetForm`: back to an empty draft with one blank module, not editing, form hidden. */
    method Reset()
      modifies this
      ensures Valid()
      ensures name == "" && description == "" && modules == [Blank(1)]
      ensures editingTrail == None && !showForm
    {
      name := "";
      description := "";
      modules := [Blank(1)];
      editingTrail := None;
      showForm := false;
    }

    /** `handleEdit(trail)`: seeds the draft from a listed trail and opens the form. */
    method Edit(trail: TrailStore.TrailView)
      modifies this
      ensures Valid()
      ensures editingTrail == Some(trail) && showForm
      ensures name == trail.trail.name
      ensures description == OrElse(trail.trail.description, "")
      ensures modules == SeedDrafts(trail.modules)
    {
      editingTrail := Some(trail);
      name := trail.trail.name;
      description := OrElse(trail.trail.description, "");
      modules := SeedDrafts(trail.modules);
      showForm := true;
    }

    /**
     * `handleSave`. A name that is blank after trimming sends nothing and
     * keeps the draft. Otherwise the request is PUT for the trail being
     * edited, POST otherwise; once the fetch resolves (`delivered`), whatever
     * the status, the form is reset; if it rejects, the draft stays for a retry.
     */
    method Save(delivered: bool) returns (sent: Option<Request>)
      requires Valid()
      modifies this
      ensures Valid()
      ensures Trim(old(name)) == [] ==> sent == None && unchanged(this)
      ensures Trim(old(name)) != [] ==>
                sent == Some(SaveRequest(old(editingTrail), BuildPayload(old(name), old(description), old(modules))))
      ensures Trim(old(name)) != [] && delivered ==>
                name == "" && description == "" && modules == [Blank(1)] && editingTrail == None && !showForm
      ensures Trim(old(name)) != [] && !delivered ==> unchanged(this)
    {
      if Trim(name) == [] {
        return None;
      }
      var payload := BuildPayload(name, description, modules);
      var request := SaveRequest(editingTrail, payload);
      sent := Some(request);
      if delivered {
        Reset();
      }
    }
  }
}
