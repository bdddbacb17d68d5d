/** Building the live-channel list from a parsed playlist: one channel per
    content, filtered by the provider's predicates and renumbered from 1,
    each carrying its EPG id and keyword-derived genres in its provider
    data. */
module Channels {
  import opened Wrappers
  import opened JavaInt
  import opened JavaText
  import opened Constants
  import opened AvContentModel
  import opened Attributes
  import opened Playlist

  /** A value stored in a channel's internal provider data. */
  datatype ProviderValue = IntValue(n: Int32) | GenreList(genres: seq<string>)

  /** The channel fields the library sets. */
  datatype Channel = Channel(
    displayName: string,
    displayNumber: string,
    originalNetworkId: Int32,
    logo: Option<string>,
    networkAffiliation: Option<string>,
    videoUrl: Option<string>,
    providerData: map<string, ProviderValue>)

  /** A provider's channel properties: whether logos are kept, and the four
      predicates a channel must satisfy to be listed. */
  datatype ChannelProperties = ChannelProperties(
    hasChannelLogo: bool,
    isLiveChannel: Channel -> bool,
    isChannelRegionValid: Channel -> bool,
    isChannelGenreValid: Channel -> bool,
    isChannelGroupValid: Channel -> bool)

  predicate Accepts(p: ChannelProperties, c: Channel) {
    p.isLiveChannel(c) && p.isChannelRegionValid(c) && p.isChannelGenreValid(c) && p.isChannelGroupValid(c)
  }

  // ---------------------------------------------------------------------
  // Genres

  /** The channel name contains one of the group's keywords. */
  predicate GroupMatches(name: string, group: seq<string>) {
    exists k | 0 <= k < |group| :: Contains(name, group[k])
  }

  /** The genres of keyword groups `i` onwards that the name matches, in
      group order. */
  function GenresFrom(name: string, keywords: seq<seq<string>>, i: nat): (r: seq<nat>)
    requires i <= |keywords|
    ensures forall k | 0 <= k < |r| :: i <= r[k] < |keywords| && GroupMatches(name, keywords[r[k]])
    ensures forall j | i <= j < |keywords| && GroupMatches(name, keywords[j]) :: j in r
    ensures forall a, b | 0 <= a < b < |r| :: r[a] < r[b]
    ensures |r| <= |keywords| - i
    decreases |keywords| - i
  {
    if i == |keywords| then []
    else
      var rest := GenresFrom(name, keywords, i + 1);
      if GroupMatches(name, keywords[i]) then [i] + rest else rest
  }

  /** The genre names at the given table positions. */
  function NamesAt(idx: seq<nat>): (r: seq<string>)
    requires forall k | 0 <= k < |idx| :: idx[k] < GENRE_COUNT
    ensures |r| == |idx|
    ensures forall k | 0 <= k < |r| :: r[k] == CHANNEL_GENRES[idx[k]]
  {
    seq(|idx|, k requires 0 <= k < |idx| => CHANNEL_GENRES[idx[k]])
  }

  /** `getProgramGenre`: genre `i` is listed exactly when the name contains a
      keyword of group `i`; the list follows the genre table's order, so it
      has no duplicates and at most 17 entries. The keyword groups are the
      17 string-array resources, in genre order. */
  function ProgramGenre(name: string, keywords: seq<seq<string>>): (r: seq<string>)
    requires |keywords| == GENRE_COUNT
    ensures forall g :: g in r <==>
              exists i | 0 <= i < GENRE_COUNT :: CHANNEL_GENRES[i] == g && GroupMatches(name, keywords[i])
    ensures |r| <= GENRE_COUNT
    ensures forall a, b | 0 <= a < b < |r| :: r[a] != r[b]
  {
    var idx := GenresFrom(name, keywords, 0);
    var r := NamesAt(idx);
    NamesMembership(name, keywords, idx);
    NamesDistinct(idx);
    r
  }

  lemma NamesMembership(name: string, keywords: seq<seq<string>>, idx: seq<nat>)
    requires |keywords| == GENRE_COUNT
    requires idx == GenresFrom(name, keywords, 0)
    ensures forall g :: g in NamesAt(idx) <==>
              exists i | 0 <= i < GENRE_COUNT :: CHANNEL_GENRES[i] == g && GroupMatches(name, keywords[i])
  {
    ChannelGenresShape();
    TableMembership(CHANNEL_GENRES, name, keywords, idx, NamesAt(idx));
  }

  /** The names at the matching positions of any table are exactly the
      table entries whose keyword group the name matches. */
  lemma TableMembership(table: seq<string>, name: string, keywords: seq<seq<string>>, idx: seq<nat>, r: seq<string>)
    requires |keywords| == |table|
    requires forall k | 0 <= k < |idx| :: idx[k] < |keywords| && GroupMatches(name, keywords[idx[k]])
    requires forall j | 0 <= j < |keywords| && GroupMatches(name, keywords[j]) :: j in idx
    requires |r| == |idx| && forall k | 0 <= k < |r| :: idx[k] < |table| && r[k] == table[idx[k]]
    ensures forall g :: g in r <==> exists i | 0 <= i < |table| :: table[i] == g && GroupMatches(name, keywords[i])
  {
    forall g ensures g in r <==> exists i | 0 <= i < |table| :: table[i] == g && GroupMatches(name, keywords[i])
    {
      if g in r {
        var k :| 0 <= k < |r| && r[k] == g;
        assert table[idx[k]] == g && GroupMatches(name, keywords[idx[k]]);
      }
      if exists i | 0 <= i < |table| :: table[i] == g && GroupMatches(name, keywords[i]) {
        var i :| 0 <= i < |table| && table[i] == g && GroupMatches(name, keywords[i]);
        var k :| 0 <= k < |idx| && idx[k] == i;
        assert r[k] == g;
      }
    }
  }

  /** Increasing table positions name distinct genres. */
  lemma NamesDistinct(idx: seq<nat>)
    requires forall k | 0 <= k < |idx| :: idx[k] < GENRE_COUNT
    requires forall a, b | 0 <= a < b < |idx| :: idx[a] < idx[b]
    ensures |idx| <= GENRE_COUNT
    ensures forall a, b | 0 <= a < b < |NamesAt(idx)| :: NamesAt(idx)[a] != NamesAt(idx)[b]
  {
    ChannelGenresShape();
    IncreasingBounded(idx, GENRE_COUNT);
  }

  /** A strictly increasing sequence below `n` has at most `n` elements. */
  lemma {:induction false} IncreasingBounded(idx: seq<nat>, n: nat)
    requires forall k | 0 <= k < |idx| :: idx[k] < n
    requires forall a, b | 0 <= a < b < |idx| :: idx[a] < idx[b]
    ensures |idx| <= n
    decreases n
  {
    if |idx| > 0 {
      var last := idx[|idx| - 1];
      var front := idx[..|idx| - 1];
      assert forall k | 0 <= k < |front| :: front[k] < last;
      IncreasingBounded(front, last);
    }
  }

  /** The position in the genre table of every genre the list holds
      increases along the list. */
  lemma ProgramGenreOrdered(name: string, keywords: seq<seq<string>>)
    requires |keywords| == GENRE_COUNT
    ensures var r := ProgramGenre(name, keywords);
            exists idx: seq<nat> | |idx| == |r| ::
              (forall k | 0 <= k < |r| :: idx[k] < GENRE_COUNT && r[k] == CHANNEL_GENRES[idx[k]])
              && (forall a, b | 0 <= a < b < |r| :: idx[a] < idx[b])
  {
    var idx := GenresFrom(name, keywords, 0);
    assert ProgramGenre(name, keywords) == NamesAt(idx);
  }

  // ---------------------------------------------------------------------
  // Channels

  /** `createChannel(displayName, displayNumber, epgId, logo, url, group,
      genres)`: the provider data holds the EPG id and the genres; the
      original network id is the hash of the display name. */
  function CreateChannel(name: string, number: string, epgId: Int32, logo: Option<string>,
                         url: Option<string>, group: Option<string>, genres: seq<string>): (c: Channel)
    ensures c.displayName == name && c.displayNumber == number
    ensures c.originalNetworkId == Hash(name)
    ensures c.logo == logo && c.videoUrl == url && c.networkAffiliation == group
    ensures c.providerData.Keys == {EPG_ID_PROVIDER, CHANNEL_GENRES_PROVIDER}
    ensures EPG_ID_PROVIDER in c.providerData && CHANNEL_GENRES_PROVIDER in c.providerData
    ensures c.providerData[EPG_ID_PROVIDER] == IntValue(epgId)
    ensures c.providerData[CHANNEL_GENRES_PROVIDER] == GenreList(genres)
  {
    Channel(name, number, Hash(name), logo, group, url,
            map[EPG_ID_PROVIDER := IntValue(epgId), CHANNEL_GENRES_PROVIDER := GenreList(genres)])
  }

  /** `createChannel(original, displayNumber)`: a copy with another number. */
  function Renumber(c: Channel, number: string): (r: Channel)
    ensures r.displayNumber == number
    ensures r.(displayNumber := c.displayNumber) == c
  {
    c.(displayNumber := number)
  }

  /** The channel the loop builds for content `c` at playlist position `i`,
      before filtering: provisional number `i + 1`, no logo unless the
      provider keeps logos. */
  function Provisional(c: AvContent, i: nat, p: ChannelProperties, keywords: seq<seq<string>>): (ch: Channel)
    requires c.title.Some?
    requires |keywords| == GENRE_COUNT
    ensures ch.displayNumber == IntToString(i + 1)
    ensures ch.logo == (if p.hasChannelLogo then c.logo else None)
    ensures ch.displayName == c.title.value && ch.originalNetworkId == Hash(c.title.value)
    ensures ch.videoUrl == c.link && ch.networkAffiliation == c.group
    ensures EPG_ID_PROVIDER in ch.providerData && ch.providerData[EPG_ID_PROVIDER] == IntValue(c.id)
  {
    var name := c.title.value;
    CreateChannel(name, IntToString(i + 1), c.id, if p.hasChannelLogo then c.logo else None,
                  c.link, c.group, ProgramGenre(name, keywords))
  }

  /** The provisional channel of every content, in playlist order. */
  function Provisionals(contents: seq<AvContent>, p: ChannelProperties, keywords: seq<seq<string>>): (ps: seq<Channel>)
    requires forall c | c in contents :: c.title.Some?
    requires |keywords| == GENRE_COUNT
    ensures |ps| == |contents|
    ensures forall j | 0 <= j < |contents| :: ps[j] == Provisional(contents[j], j, p, keywords)
  {
    seq(|contents|, j requires 0 <= j < |contents| => Provisional(contents[j], j, p, keywords))
  }

  /** The positions, from `i` on, of the provisional channels the provider
      accepts, in playlist order. */
  function AcceptedFrom(ps: seq<Channel>, p: ChannelProperties, i: nat): (r: seq<nat>)
    requires i <= |ps|
    ensures forall k | 0 <= k < |r| :: i <= r[k] < |ps| && Accepts(p, ps[r[k]])
    ensures forall j | i <= j < |ps| && Accepts(p, ps[j]) :: j in r
    ensures forall a, b | 0 <= a < b < |r| :: r[a] < r[b]
    decreases |ps| - i
  {
    if i == |ps| then []
    else
      var rest := AcceptedFrom(ps, p, i + 1);
      if Accepts(p, ps[i]) then
        var r := [i] + rest;
        assert r[0] == i && forall k | 0 < k < |r| :: r[k] == rest[k - 1];
        r
      else rest
  }

  /** The loop of `createChannelList` from content `i` on, over the
      provisional channels, with `next` the number the next accepted
      channel gets. */
  function ChannelsFrom(ps: seq<Channel>, p: ChannelProperties, i: nat, next: nat): (r: seq<Channel>)
    requires i <= |ps|
    decreases |ps| - i
  {
    if i == |ps| then []
    else if Accepts(p, ps[i]) then [Renumber(ps[i], IntToString(next))] + ChannelsFrom(ps, p, i + 1, next + 1)
    else ChannelsFrom(ps, p, i + 1, next)
  }

  /** The channels of `ps` at the positions `idx`, in that order. */
  function Select(ps: seq<Channel>, idx: seq<nat>): (r: seq<Channel>)
    requires forall k | 0 <= k < |idx| :: idx[k] < |ps|
    ensures |r| == |idx|
    ensures forall k | 0 <= k < |r| :: r[k] == ps[idx[k]]
  {
    seq(|idx|, k requires 0 <= k < |idx| => ps[idx[k]])
  }

  /** The channels renumbered "next", "next + 1", ... in order. */
  function RenumberedFrom(cs: seq<Channel>, next: nat): (r: seq<Channel>)
    ensures |r| == |cs|
  {
    if cs == [] then [] else [Renumber(cs[0], IntToString(next))] + RenumberedFrom(cs[1..], next + 1)
  }

  /** The k-th renumbered channel is the k-th channel with number
      `next + k`, every other field unchanged. */
  lemma {:induction false} RenumberedFromAt(cs: seq<Channel>, next: nat, k: nat)
    requires k < |cs|
    ensures RenumberedFrom(cs, next)[k] == Renumber(cs[k], IntToString(next + k))
    decreases k
  {
    var r := RenumberedFrom(cs, next);
    assert r == [Renumber(cs[0], IntToString(next))] + RenumberedFrom(cs[1..], next + 1);
    if k > 0 {
      RenumberedFromAt(cs[1..], next + 1, k - 1);
      assert r[k] == RenumberedFrom(cs[1..], next + 1)[k - 1];
      assert cs[1..][k - 1] == cs[k];
      assert next + 1 + (k - 1) == next + k;
    }
  }

  /** Selecting one more position in front renumbers its channel `next`
      and shifts the rest up by one. */
  lemma RenumberedSelectCons(ps: seq<Channel>, i: nat, idx: seq<nat>, next: nat)
    requires i < |ps|
    requires forall k | 0 <= k < |idx| :: idx[k] < |ps|
    ensures RenumberedFrom(Select(ps, [i] + idx), next)
              == [Renumber(ps[i], IntToString(next))] + RenumberedFrom(Select(ps, idx), next + 1)
  {
    var sel := Select(ps, [i] + idx);
    assert sel[1..] == Select(ps, idx);
  }

  /** The channels the loop lists from content `i` on are the accepted
      provisional channels, in playlist order, renumbered from `next` with
      no gap. */
  lemma {:induction false} ChannelsFromAccepted(ps: seq<Channel>, p: ChannelProperties, i: nat, next: nat)
    requires i <= |ps|
    ensures ChannelsFrom(ps, p, i, next) == RenumberedFrom(Select(ps, AcceptedFrom(ps, p, i)), next)
    decreases |ps| - i
  {
    if i == |ps| {
      assert Select(ps, []) == [];
    } else if Accepts(p, ps[i]) {
      var restIdx := AcceptedFrom(ps, p, i + 1);
      assert AcceptedFrom(ps, p, i) == [i] + restIdx;
      assert ChannelsFrom(ps, p, i, next)
               == [Renumber(ps[i], IntToString(next))] + ChannelsFrom(ps, p, i + 1, next + 1);
      ChannelsFromAccepted(ps, p, i + 1, next + 1);
      RenumberedSelectCons(ps, i, restIdx, next);
    } else {
      assert AcceptedFrom(ps, p, i) == AcceptedFrom(ps, p, i + 1);
      assert ChannelsFrom(ps, p, i, next) == ChannelsFrom(ps, p, i + 1, next);
      ChannelsFromAccepted(ps, p, i + 1, next);
    }
  }

  /** `createChannelList(playlist, context, properties)`: the playlist's
      contents (no category) turned into channels; an error of the parser
      propagates. */
  function ChannelList(read: Option<seq<string>>, p: ChannelProperties, keywords: seq<seq<string>>): (r: Result<seq<Channel>, ParseError>)
    requires |keywords| == GENRE_COUNT
    ensures r.Ok? ==> AvContentsList(read, None).Ok?
    ensures AvContentsList(read, None).Err? ==> r.Err?
    ensures r.Ok? ==>
              var ps := Provisionals(AvContentsList(read, None).value, p, keywords);
              r.value == RenumberedFrom(Select(ps, AcceptedFrom(ps, p, 0)), 1)
  {
    match AvContentsList(read, None)
    case Err(e) => Err(e)
    case Ok(contents) =>
      var ps := Provisionals(contents, p, keywords);
      ChannelsFromAccepted(ps, p, 0, 1);
      Ok(ChannelsFrom(ps, p, 0, 1))
  }

  /** Display numbers are "1", "2", ... with no gap: reading the number of
      the k-th channel back gives k + 1, so no two channels share one. */
  lemma DisplayNumbersConsecutive(read: Option<seq<string>>, p: ChannelProperties, keywords: seq<seq<string>>)
    requires |keywords| == GENRE_COUNT
    requires ChannelList(read, p, keywords).Ok?
    ensures var cs := ChannelList(read, p, keywords).value;
            |cs| < TWO_31 ==>
              (forall k | 0 <= k < |cs| :: ParseInt(cs[k].displayNumber) == Some(k + 1))
              && (forall a, b | 0 <= a < b < |cs| :: cs[a].displayNumber != cs[b].displayNumber)
  {
    var ps := ChannelListValue(read, p, keywords);
    ChannelsFromNumbers(ps, p);
  }

  /** The loop numbers the channels it keeps 1, 2, ... */
  lemma ChannelsFromNumbers(ps: seq<Channel>, p: ChannelProperties)
    ensures var cs := ChannelsFrom(ps, p, 0, 1);
            |cs| < TWO_31 ==>
              (forall k | 0 <= k < |cs| :: ParseInt(cs[k].displayNumber) == Some(k + 1))
              && (forall a, b | 0 <= a < b < |cs| :: cs[a].displayNumber != cs[b].displayNumber)
  {
    ChannelsFromAccepted(ps, p, 0, 1);
    if |ChannelsFrom(ps, p, 0, 1)| < TWO_31 {
      RenumberedNumbersParse(Select(ps, AcceptedFrom(ps, p, 0)), 1);
    }
  }

  /** A listed playlist's channels are the loop's over its provisional
      channels `ps`. */
  lemma ChannelListValue(read: Option<seq<string>>, p: ChannelProperties, keywords: seq<seq<string>>)
    returns (ps: seq<Channel>)
    requires |keywords| == GENRE_COUNT
    requires ChannelList(read, p, keywords).Ok?
    ensures ps == Provisionals(AvContentsList(read, None).value, p, keywords)
    ensures ChannelList(read, p, keywords).value == ChannelsFrom(ps, p, 0, 1)
  {
    ps := Provisionals(AvContentsList(read, None).value, p, keywords);
  }

  /** Renumbering from `next` gives numbers that read back as `next`,
      `next + 1`, ... while they fit an `int`, so no two are equal. */
  lemma RenumberedNumbersParse(cs: seq<Channel>, next: nat)
    requires next + |cs| <= TWO_31
    ensures var r := RenumberedFrom(cs, next);
            (forall k | 0 <= k < |r| :: ParseInt(r[k].displayNumber) == Some(next + k))
            && (forall a, b | 0 <= a < b < |r| :: r[a].displayNumber != r[b].displayNumber)
  {
    var r := RenumberedFrom(cs, next);
    forall k | 0 <= k < |r| ensures ParseInt(r[k].displayNumber) == Some(next + k) {
      RenumberedFromAt(cs, next, k);
      ParseIntToString(next + k);
    }
  }

  /** The EPG id a channel stores, written as the decimal text the provider
      data holds after storage, is read back by `Integer.parseInt` as the
      same int. */
  lemma StoredEpgIdReadsBack(c: Channel)
    requires EPG_ID_PROVIDER in c.providerData && c.providerData[EPG_ID_PROVIDER].IntValue?
    ensures ParseInt(IntToString(c.providerData[EPG_ID_PROVIDER].n)) == Some(c.providerData[EPG_ID_PROVIDER].n)
  {
    ParseIntToString(c.providerData[EPG_ID_PROVIDER].n);
  }
}
