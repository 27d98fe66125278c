/** The new-category form: the name check, the inserted row, the initial
    colour and icon, and the create button. */
module NewCategory {
  import opened Wrappers
  import opened Text
  import opened Database
  import opened Colors

  /** `CATEGORY_ICONS`: the sixteen emoji offered, the briefcase first. */
  const CategoryIcons: seq<string> := [
    "\U{1F4BC}", "\U{1F3E0}", "\U{1F468}\U{200D}\U{1F469}\U{200D}\U{1F467}\U{200D}\U{1F466}",
    "\U{2764}\U{FE0F}", "\U{1F4B0}", "\U{1F4DA}", "\U{1F3C3}", "\U{2708}\U{FE0F}", "\U{1F3A8}",
    "\U{1F3B5}", "\U{1F34E}", "\U{1F697}", "\U{1F3C6}", "\U{1F4BB}", "\U{1F3AF}", "\U{1F31F}"
  ]

  datatype Form = Form(name: string, color: string, icon: string, loading: bool)

  /** The form as it opens: the first colour of the category palette and
      the first icon. */
  function InitialForm(): (f: Form)
    ensures f.name == "" && !f.loading
    ensures f.color == GrayLight && f.icon == "\U{1F4BC}"
    ensures f.color in CategoryColors && f.icon in CategoryIcons
  {
    Form("", CategoryColors[0], CategoryIcons[0], false)
  }

  /** `canCreate`: the trimmed name is not empty, that is, the name has
      a character other than white space. */
  predicate CanCreate(f: Form)
    ensures CanCreate(f) <==> !IsBlank(f.name)
  {
    |Trim(f.name)| > 0
  }

  /** `disabled={loading || !canCreate}`. */
  predicate CreateDisabled(f: Form)
    ensures !CreateDisabled(f) <==> !f.loading && !IsBlank(f.name)
  {
    f.loading || !CanCreate(f)
  }

  /** The button's text: "Saving..." while the request runs. */
  function ButtonLabel(f: Form): (r: string)
    ensures r == "Saving..." <==> f.loading
    ensures r == "Create" <==> !f.loading
  {
    if f.loading then "Saving..." else "Create"
  }

  /** What pressing create does before the request completes. */
  datatype Outcome =
    | AlertNoName
    | NoUser
    | Insert(row: CategoryInsert)

  /** `handleCreate` up to the insert: an alert for a blank name, nothing
      without a signed-in user, otherwise one row with the trimmed name,
      the chosen colour and icon, owned by the user and not a default. */
  function HandleCreate(f: Form, user: Option<string>): (o: Outcome)
    ensures o == AlertNoName <==> IsBlank(f.name)
    ensures o == NoUser <==> !IsBlank(f.name) && user == None
    ensures o.Insert? ==> o.row == CategoryInsert(user.value, Trim(f.name), f.color, f.icon, false)
  {
    if Trim(f.name) == [] then AlertNoName
    else if user == None then NoUser
    else Insert(CategoryInsert(user.value, Trim(f.name), f.color, f.icon, false))
  }

  /** The button is enabled exactly when pressing it reaches the insert
      for a signed-in user; the inserted name has no surrounding space. */
  lemma EnabledIffInserts(f: Form, userId: string)
    requires !f.loading
    ensures !CreateDisabled(f) <==> HandleCreate(f, Some(userId)).Insert?
    ensures HandleCreate(f, Some(userId)).Insert? ==>
      var n := HandleCreate(f, Some(userId)).row.name;
      n != [] && Trim(n) == n
  {
    TrimIdempotent(f.name);
  }

  /** The spinner is shown from the press until the request settles,
      whether it succeeded or failed. */
  function Pressed(f: Form, user: Option<string>): (g: Form)
    ensures g.loading <==> HandleCreate(f, user).Insert? || f.loading
    ensures g == f.(loading := g.loading)
  {
    if HandleCreate(f, user).Insert? then f.(loading := true) else f
  }

  /** After a press the label reads "Saving..." exactly when the press
      reached the insert or a request was already running. */
  lemma PressedLabel(f: Form, user: Option<string>)
    ensures ButtonLabel(Pressed(f, user)) == "Saving..." <==> HandleCreate(f, user).Insert? || f.loading
    ensures !f.loading && IsBlank(f.name) ==> ButtonLabel(Pressed(f, user)) == "Create"
  {
    var o := HandleCreate(f, user);
    assert Pressed(f, user).loading <==> o.Insert? || f.loading;
  }

  function Settled(f: Form): (g: Form)
    ensures !g.loading && ButtonLabel(g) == "Create"
    ensures g == f.(loading := false)
  {
    f.(loading := false)
  }

  /** The icon list has sixteen distinct entries. */
  lemma CategoryIconsShape()
    ensures |CategoryIcons| == 16
    ensures forall i, j :: 0 <= i < j < |CategoryIcons| ==> CategoryIcons[i] != CategoryIcons[j]
  {
  }
}
