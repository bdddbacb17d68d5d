/** The library-wide constants: the playlist attribute names, the keys of a
    channel's internal provider data, and the fixed genre order. */
module Constants {

  /** The four `#EXTINF` attributes the parser extracts. Each is matched by
      the attribute name, one arbitrary separator character and a
      double-quoted value (see module Attributes). */
  datatype Attribute = TvgId | TvgLogo | TvgName | GroupTitle

  /** The attribute name as written in the pattern, in lower case. */
  function AttributeName(a: Attribute): string {
    match a
    case TvgId => "tvg-id"
    case TvgLogo => "tvg-logo"
    case TvgName => "tvg-name"
    case GroupTitle => "group-title"
  }

  /** Key of the EPG id in a channel's internal provider data. */
  const EPG_ID_PROVIDER: string := "epg_id"

  /** Key of the genre list in a channel's internal provider data. */
  const CHANNEL_GENRES_PROVIDER: string := "channel_genres"

  /** The canonical program genres in the order the keyword groups are
      consulted; position i names the genre of keyword group i. */
  const CHANNEL_GENRES: seq<string> := [
    "ANIMAL_WILDLIFE", "ARTS", "COMEDY", "DRAMA", "EDUCATION",
    "ENTERTAINMENT", "FAMILY_KIDS", "GAMING", "LIFE_STYLE", "MOVIES",
    "MUSIC", "NEWS", "PREMIER", "SHOPPING", "SPORTS", "TECH_SCIENCE",
    "TRAVEL"
  ]

  const GENRE_COUNT: nat := 17

  /** The genre table has 17 entries, from ANIMAL_WILDLIFE to TRAVEL, with
      no genre listed twice. */
  lemma ChannelGenresShape()
    ensures |CHANNEL_GENRES| == GENRE_COUNT
    ensures CHANNEL_GENRES[0] == "ANIMAL_WILDLIFE"
    ensures CHANNEL_GENRES[GENRE_COUNT - 1] == "TRAVEL"
    ensures forall i, j | 0 <= i < j < |CHANNEL_GENRES| :: CHANNEL_GENRES[i] != CHANNEL_GENRES[j]
  {
  }

  /** The attribute names are pairwise distinct, so each pattern selects
      its own attribute. */
  lemma AttributeNamesDistinct(a: Attribute, b: Attribute)
    requires a != b
    ensures AttributeName(a) != AttributeName(b)
  {
  }
}
