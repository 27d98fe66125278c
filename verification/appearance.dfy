/** The appearance settings screen: the accent presets and the custom hex
    field. Its colour changes go through the accent provider's setter. */
module Appearance {
  import opened Wrappers
  import opened Text
  import opened HexColor
  import AccentContext

  /** `ACCENT_PRESETS`: name and colour. */
  const AccentPresets: seq<(string, string)> := [
    ("Indigo", "#6366F1"),
    ("Teal", "#14B8A6"),
    ("Rose", "#F43F5E"),
    ("Emerald", "#10B981"),
    ("Purple", "#A78BFA"),
    ("Amber", "#FBBF24"),
    ("Sky", "#0EA5E9"),
    ("Pink", "#EC4899"),
    ("Black", "#000000"),
    ("White", "#FFFFFF"),
    ("Gray", "#6B7280")
  ]

  const White := "#FFFFFF"
  const Black := "#000000"
  const AmberColor := "#FBBF24"

  /** The presets are eleven valid, distinct colours, the provider's
      default first. */
  lemma PresetsShape()
    ensures |AccentPresets| == 11
    ensures AccentPresets[0].1 == AccentContext.DefaultAccent
    ensures forall i :: 0 <= i < |AccentPresets| ==> IsHexColor(AccentPresets[i].1)
    ensures forall i, j :: 0 <= i < j < |AccentPresets| ==> AccentPresets[i].1 != AccentPresets[j].1
  {
  }

  /** `isActive`: the accent is the preset's colour, character for
      character, so case matters. */
  predicate IsActive(accent: string, i: int)
    requires 0 <= i < |AccentPresets|
  {
    accent == AccentPresets[i].1
  }

  /** `needsBorder`: only the white and black swatches get a border. */
  predicate NeedsBorder(color: string) {
    color == White || color == Black
  }

  /** The colour of the check mark on the active swatch. */
  function CheckColor(color: string): string {
    if color == White || color == AmberColor then Black else White
  }

  /** By preset name: the check mark is black on White and Amber and white
      on every other preset; only White and Black have a border. */
  lemma PresetDecorations(i: int)
    requires 0 <= i < |AccentPresets|
    ensures var (name, color) := AccentPresets[i];
      && (CheckColor(color) == Black <==> name == "White" || name == "Amber")
      && (CheckColor(color) == White <==> name != "White" && name != "Amber")
      && (NeedsBorder(color) <==> name == "White" || name == "Black")
  {
  }

  /** The screen's own state. */
  datatype Screen = Screen(hexInput: string, hexError: bool)

  /** The '#'-prefixed value `applyHex` tests. */
  function Normalize(input: string): (v: string)
    ensures StartsWith(v, "#")
    ensures StartsWith(input, "#") ==> v == input
    ensures !StartsWith(input, "#") ==> v == "#" + input
  {
    if StartsWith(input, "#") then input else "#" + input
  }

  /** Normalizing twice adds nothing. */
  lemma NormalizeIdempotent(input: string)
    ensures Normalize(Normalize(input)) == Normalize(input)
  {
  }

  /** `applyHex`: a valid value goes to the provider's setter, and the
      error and the field are cleared; otherwise only the error is set. */
  function ApplyHex(sc: Screen, acc: AccentContext.State): (r: (Screen, AccentContext.Effect))
    ensures var v := Normalize(sc.hexInput);
      && (IsHexColor(v) ==> r == (Screen("", false), AccentContext.DoSetAccent(acc, v)))
      && (!IsHexColor(v) ==> r == (sc.(hexError := true), AccentContext.Effect(acc, None, None)))
  {
    var v := Normalize(sc.hexInput);
    if IsHexColor(v) then (Screen("", false), AccentContext.DoSetAccent(acc, v))
    else (sc.(hexError := true), AccentContext.Effect(acc, None, None))
  }

  /** A value that passes the screen's test also passes the setter's, so
      applying it always changes the accent to it. */
  lemma AppliedValueBecomesAccent(sc: Screen, acc: AccentContext.State)
    requires IsHexColor(Normalize(sc.hexInput))
    ensures ApplyHex(sc, acc).1.state.accent == Normalize(sc.hexInput)
    ensures ApplyHex(sc, acc).1.write == Some(Normalize(sc.hexInput))
  {
  }

  /** `onChangeText`: the first '#' of the text is dropped and the error
      cleared. */
  function TextChanged(sc: Screen, t: string): (r: Screen)
    ensures r.hexInput == RemoveFirst(t, '#') && !r.hexError
  {
    Screen(RemoveFirst(t, '#'), false)
  }

  /** Typing six hex digits, with or without a leading '#', and applying
      them makes "#" followed by those digits the accent. */
  lemma TypedColorApplies(digits: string, withHash: bool, sc: Screen, acc: AccentContext.State)
    requires |digits| == 6 && AllHexDigits(digits)
    ensures var typed := if withHash then "#" + digits else digits;
      var r := ApplyHex(TextChanged(sc, typed), acc);
      && r.0 == Screen("", false)
      && r.1.state.accent == "#" + digits
  {
    var typed := if withHash then "#" + digits else digits;
    assert '#' !in digits by {
      assert forall i :: 0 <= i < |digits| ==> IsHexDigit(digits[i]);
    }
    if withHash {
      assert typed[0] == '#' && typed[1..] == digits;
      assert IndexOf(typed, '#') == 0;
    }
    var input := RemoveFirst(typed, '#');
    assert input == digits;
    assert !StartsWith(digits, "#");
    assert IsHexColor("#" + digits) by {
      forall i | 1 <= i < 7
        ensures IsHexDigit(("#" + digits)[i])
      {
        assert ("#" + digits)[i] == digits[i - 1];
      }
    }
  }

  /** Pressing a preset makes exactly that preset active. */
  lemma PresetPressActivatesIt(acc: AccentContext.State, i: int)
    requires 0 <= i < |AccentPresets|
    ensures var t := AccentContext.DoSetAccent(acc, AccentPresets[i].1).state;
      forall j :: 0 <= j < |AccentPresets| ==> (IsActive(t.accent, j) <==> j == i)
  {
    PresetsShape();
  }

  /** Lower-case input is accepted but matches no preset: a valid value
      with a lower-case letter among its digits becomes the accent while
      every swatch stays inactive ("ffffff" is not White). */
  lemma LowerCaseMatchesNoPreset(input: string, acc: AccentContext.State, k: int)
    requires IsHexColor(Normalize(input))
    requires 1 <= k < 7 && 'a' <= Normalize(input)[k] <= 'f'
    ensures var t := ApplyHex(Screen(input, false), acc).1.state;
      && t.accent == Normalize(input)
      && forall j :: 0 <= j < |AccentPresets| ==> !IsActive(t.accent, j)
  {
    AppliedValueBecomesAccent(Screen(input, false), acc);
    forall j | 0 <= j < |AccentPresets|
      ensures AccentPresets[j].1 != Normalize(input)
    {
      PresetUpperCase(j, k);
    }
  }

  /** The presets are written with upper-case digits only. */
  lemma PresetUpperCase(j: int, k: int)
    requires 0 <= j < |AccentPresets| && 1 <= k < 7
    ensures !('a' <= AccentPresets[j].1[k] <= 'f')
  {
  }
}
