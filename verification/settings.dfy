/** The settings screen's sections: each is a bundle carrying a string
    resource id and a drawable resource id. */
module Settings {
  import opened Wrappers

  /** The key of a section's name (string resource) id. */
  const BUNDLE_SETTINGS_NAME_ID: string := "bundle_name_id"
  /** The key of a section's drawable resource id. */
  const BUNDLE_SETTINGS_DRAWABLE_ID: string := "bundle_drawable_id"

  /** A section bundle: integer values by key. */
  type Bundle = map<string, int>

  /** `IllegalArgumentException("Section not valid!")`. */
  datatype SettingsError = SectionNotValid

  predicate ValidSection(b: Bundle) {
    BUNDLE_SETTINGS_NAME_ID in b && BUNDLE_SETTINGS_DRAWABLE_ID in b
  }

  /** `validateBundles`: true when every section has both keys; the first
      section lacking one throws. */
  function ValidateBundles(sections: seq<Bundle>): (r: Result<bool, SettingsError>)
    ensures r.Ok? <==> forall k | 0 <= k < |sections| :: ValidSection(sections[k])
    ensures r.Ok? ==> r.value
  {
    if sections == [] then Ok(true)
    else if !ValidSection(sections[0]) then Err(SectionNotValid)
    else
      var rest := ValidateBundles(sections[1..]);
      assert forall k | 1 <= k < |sections| :: sections[k] == sections[1..][k - 1];
      rest
  }

  /** The list constructor: validate, then add every section in order to
      the empty adapter; an invalid list adds nothing. */
  function FromSections(sections: seq<Bundle>): (r: Result<seq<Bundle>, SettingsError>)
    ensures r.Err? <==> exists k | 0 <= k < |sections| :: !ValidSection(sections[k])
    ensures r.Ok? ==> r.value == sections
  {
    match ValidateBundles(sections)
    case Err(e) => Err(e)
    case Ok(_) => Ok(sections)
  }

  /** `addSection`: one bundle holding the two ids is appended. */
  function AddSection(items: seq<Bundle>, stringId: int, drawableId: int): (r: seq<Bundle>)
    ensures |r| == |items| + 1 && r[..|items|] == items
    ensures ValidSection(r[|items|])
    ensures r[|items|][BUNDLE_SETTINGS_NAME_ID] == stringId
    ensures r[|items|][BUNDLE_SETTINGS_DRAWABLE_ID] == drawableId
    ensures r[|items|].Keys == {BUNDLE_SETTINGS_NAME_ID, BUNDLE_SETTINGS_DRAWABLE_ID}
  {
    items + [map[BUNDLE_SETTINGS_NAME_ID := stringId, BUNDLE_SETTINGS_DRAWABLE_ID := drawableId]]
  }

  /** Sections added one by one always pass the list constructor's
      validation. */
  lemma AddedSectionsValidate(items: seq<Bundle>, stringId: int, drawableId: int)
    requires ValidateBundles(items).Ok?
    ensures FromSections(AddSection(items, stringId, drawableId)) == Ok(AddSection(items, stringId, drawableId))
  {
    var r := AddSection(items, stringId, drawableId);
    assert forall k | 0 <= k < |items| :: r[k] == items[k];
  }
}
