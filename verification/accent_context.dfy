/** The accent provider: the current accent colour, the value kept in
    device storage, and the signed-in user. Storage reads, session
    callbacks and profile answers arrive as events; the storage writes
    and profile updates the provider issues are returned beside the new
    state. */
module AccentContext {
  import opened Wrappers
  import opened HexColor
  import Colors

  /** `DEFAULT_ACCENT`. */
  const DefaultAccent := "#6366F1"

  /** The provider's default is the palette's default accent, and it is
      a valid colour. */
  lemma DefaultAccentAgrees()
    ensures DefaultAccent == Colors.DefaultAccentHex && IsHexColor(DefaultAccent)
  {
  }

  /** `stored` is what device storage holds under the accent key (None
      when nothing is stored), `mountRead` what the one read issued at
      mount delivers: the value storage held then, whatever was written
      since. `userId` is the id of the signed-in user. */
  datatype State = State(accent: string, stored: Option<string>, mountRead: Option<string>, userId: Option<string>)

  /** The provider as it mounts, before any callback has run. */
  function Initial(stored: Option<string>): (s: State)
    ensures s.accent == DefaultAccent && IsHexColor(s.accent)
    ensures s.stored == stored && s.mountRead == stored && s.userId == None
  {
    State(DefaultAccent, stored, stored, None)
  }

  /** A string is truthy in JavaScript when it is not empty. */
  predicate Truthy(s: Option<string>) {
    s.Some? && s.value != []
  }

  datatype Event =
    | StorageRead
    | SessionRestored(user: Option<string>)
    | AuthChanged(user: Option<string>)
    | ProfileLoaded(profileColor: Option<string>)
    | SetAccent(color: string)

  /** The new state and what was sent out: a storage write, and a profile
      update (user id, colour). */
  datatype Effect = Effect(state: State, write: Option<string>, update: Option<(string, string)>)

  /** `setAccent(color)`: a colour that fails the pattern changes nothing
      and sends nothing. A valid one becomes the accent and is written to
      storage, and to the profile of the signed-in user, if any. */
  function DoSetAccent(s: State, color: string): (e: Effect)
    ensures !IsHexColor(color) ==> e == Effect(s, None, None)
    ensures IsHexColor(color) ==> e.state == s.(accent := color, stored := Some(color))
    ensures IsHexColor(color) ==> e.write == Some(color)
    ensures e.update.Some? <==> IsHexColor(color) && Truthy(s.userId)
    ensures e.update.Some? ==> e.update.value == (s.userId.value, color)
  {
    if !IsHexColor(color) then Effect(s, None, None)
    else
      var t := s.(accent := color, stored := Some(color));
      Effect(t, Some(color), if Truthy(s.userId) then Some((s.userId.value, color)) else None)
  }

  /** One event. */
  function Step(s: State, ev: Event): (e: Effect)
    ensures ev.StorageRead? ==> (e.write == None && e.update == None
      && e.state == (if Truthy(s.mountRead) && IsHexColor(s.mountRead.value) then s.(accent := s.mountRead.value) else s))
    ensures ev.SessionRestored? ==> (e.write == None && e.update == None
      && e.state == (if ev.user.Some? then s.(userId := ev.user) else s))
    ensures ev.AuthChanged? ==> e == Effect(s.(userId := ev.user), None, None)
    ensures ev.ProfileLoaded? ==> (e.update == None
      && (Truthy(ev.profileColor) && IsHexColor(ev.profileColor.value) <==> e.write.Some?)
      && (e.write.Some? ==> (e.state == s.(accent := ev.profileColor.value, stored := ev.profileColor)
        && e.write == ev.profileColor))
      && (e.write.None? ==> e.state == s))
    ensures ev.SetAccent? ==> e == DoSetAccent(s, ev.color)
  {
    match ev
    case StorageRead =>
      if Truthy(s.mountRead) && IsHexColor(s.mountRead.value) then Effect(s.(accent := s.mountRead.value), None, None)
      else Effect(s, None, None)
    case SessionRestored(user) =>
      if user.Some? then Effect(s.(userId := user), None, None) else Effect(s, None, None)
    case AuthChanged(user) =>
      Effect(s.(userId := user), None, None)
    case ProfileLoaded(color) =>
      if Truthy(color) && IsHexColor(color.value) then
        Effect(s.(accent := color.value, stored := color), color, None)
      else Effect(s, None, None)
    case SetAccent(color) =>
      DoSetAccent(s, color)
  }

  /** The state after a run of events. */
  function Run(s: State, evs: seq<Event>): State
    decreases |evs|
  {
    if evs == [] then s else Run(Step(s, evs[0]).state, evs[1..])
  }

  /** The accent is a valid colour, and so is the stored value unless it
      is still whatever storage held when the provider mounted. */
  predicate Inv(s: State, initialStored: Option<string>) {
    && IsHexColor(s.accent)
    && (s.stored == initialStored || (s.stored.Some? && IsHexColor(s.stored.value)))
  }

  /** Every event keeps the invariant, and everything the provider writes
      to storage or to the profile is a valid colour that is then the
      accent. */
  lemma StepKeepsInv(s: State, ev: Event, initialStored: Option<string>)
    requires Inv(s, initialStored)
    ensures Inv(Step(s, ev).state, initialStored)
    ensures Step(s, ev).write.Some? ==>
      IsHexColor(Step(s, ev).write.value) && Step(s, ev).state.accent == Step(s, ev).write.value
    ensures Step(s, ev).update.Some? ==>
      IsHexColor(Step(s, ev).update.value.1) && Step(s, ev).state.accent == Step(s, ev).update.value.1
  {
  }

  /** Whatever arrives in whatever order, the accent is always a valid
      hex colour. */
  lemma {:induction false} AccentAlwaysValid(initialStored: Option<string>, evs: seq<Event>)
    ensures Inv(Run(Initial(initialStored), evs), initialStored)
    ensures IsHexColor(Run(Initial(initialStored), evs).accent)
  {
    RunKeepsInv(Initial(initialStored), evs, initialStored);
  }

  lemma {:induction false} RunKeepsInv(s: State, evs: seq<Event>, initialStored: Option<string>)
    requires Inv(s, initialStored)
    ensures Inv(Run(s, evs), initialStored)
    decreases |evs|
  {
    if evs != [] {
      StepKeepsInv(s, evs[0], initialStored);
      RunKeepsInv(Step(s, evs[0]).state, evs[1..], initialStored);
    }
  }

  /** The read issued at mount may land after a colour was set: it then
      brings back the colour storage held at mount, while storage itself
      keeps the newer one. */
  lemma LateReadRestoresMountColor(s: State, color: string)
    requires Truthy(s.mountRead) && IsHexColor(s.mountRead.value) && IsHexColor(color)
    ensures var t := Step(DoSetAccent(s, color).state, StorageRead).state;
      t.accent == s.mountRead.value && t.stored == Some(color)
  {
  }

  /** Signing out stops profile updates: after an auth change without a
      user, a valid colour is stored locally only. */
  lemma SignedOutNoUpdate(s: State, color: string)
    ensures var t := Step(s, AuthChanged(None)).state;
      t.userId == None && DoSetAccent(t, color).update == None
  {
  }
}
