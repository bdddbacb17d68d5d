/** The program guide side of the EPG service: the programs handed to the
    system for one channel, read from the channel's stored provider data and
    the parsed XMLTV listing, with a week-long placeholder when the listing
    has nothing; and the legacy service's background download that decides
    whether a sync starts. */
module Epg {
  import opened Wrappers
  import opened JavaInt
  import opened JavaText
  import opened Constants
  import opened Attributes
  import opened Playlist
  import opened Channels
  import opened WallClock

  /** Seven days in milliseconds (`TimeUnit.DAYS.toMillis(7)`). */
  const WEEK_MS: int := 604_800_000

  /** A channel's internal provider data as the system gives it back:
      either unreadable (`ParseException` on access) or a map whose values
      are the stored texts. */
  datatype StoredData = Malformed | Stored(values: map<string, string>)

  /** A program: `title` stands for the fields the listing supplies and the
      placeholder leaves unset. */
  datatype Program = Program(title: Option<string>, startMs: int, endMs: int, genres: Option<seq<string>>)

  /** What `getProgramsForChannel` ends with: `null`, a list, or an uncaught
      `NumberFormatException` from `Integer.parseInt`. */
  datatype Outcome = NoPrograms | Programs(programs: seq<Program>) | NumberFormatError

  /** The XMLTV listing: programs by EPG id; `None` when no listing was
      fetched. */
  type Listing = Option<map<int, seq<Program>>>

  /** The programs the listing holds for an id, or none: id 0 (a channel
      without `tvg-id`) never looks the listing up. */
  function ListedPrograms(listing: Listing, id: int): (r: seq<Program>)
    ensures id == 0 || listing.None? ==> r == []
    ensures listing.Some? && id != 0 && id in listing.value ==> r == listing.value[id]
    ensures listing.Some? && id !in listing.value ==> r == []
  {
    if id != 0 && listing.Some? && id in listing.value then listing.value[id] else []
  }

  /** The placeholder program: from the last half hour before `nowMs` for
      seven days, carrying the channel's genres. The start is the local
      half-hour mark at or before `nowMs`, which the window and the
      alignment together pin down. */
  function Placeholder(nowMs: int, offsetMs: int, genres: Option<seq<string>>): (p: Program)
    ensures p.startMs == LastHalfHour(nowMs, offsetMs)
    ensures p.startMs <= nowMs < p.startMs + HALF_HOUR_MS
    ensures (p.startMs + offsetMs) % HALF_HOUR_MS == 0
    ensures p.endMs - p.startMs == WEEK_MS
    ensures p.startMs <= nowMs < p.endMs
    ensures p.title.None? && p.genres == genres
  {
    LastHalfHourMillis(nowMs, offsetMs);
    var start := LastHalfHour(nowMs, offsetMs);
    Program(None, start, start + WEEK_MS, genres)
  }

  /** `getProgramsForChannel` of both services. `data` is the channel's
      internal provider data (`None` for `null`), `nowMs` and `offsetMs` the
      clock and the zone, and `decode` the JSON decoding of the stored genre
      text (`None` passed for a missing key). */
  function ProgramsForChannel(data: Option<StoredData>, listing: Listing, nowMs: int, offsetMs: int,
                              decode: Option<string> -> Option<seq<string>>): (r: Outcome)
    ensures r.NoPrograms? <==> (data.None? || data.value.Malformed? || EPG_ID_PROVIDER !in data.value.values)
    ensures r.NumberFormatError? <==>
              (data.Some? && data.value.Stored? && EPG_ID_PROVIDER in data.value.values
               && ParseInt(data.value.values[EPG_ID_PROVIDER]).None?)
    ensures r.Programs? ==> |r.programs| >= 1
    ensures r.Programs? ==>
              var genres := decode(if CHANNEL_GENRES_PROVIDER in data.value.values
                                   then Some(data.value.values[CHANNEL_GENRES_PROVIDER]) else None);
              forall k | 0 <= k < |r.programs| :: r.programs[k].genres == genres
  {
    match data
    case None => NoPrograms
    case Some(Malformed) => NoPrograms
    case Some(Stored(values)) =>
      if EPG_ID_PROVIDER !in values then NoPrograms
      else
        var genresJson := if CHANNEL_GENRES_PROVIDER in values then Some(values[CHANNEL_GENRES_PROVIDER]) else None;
        match ParseInt(values[EPG_ID_PROVIDER])
        case None => NumberFormatError
        case Some(id) =>
          var genres := decode(genresJson);
          var listed := ListedPrograms(listing, id);
          if listed == [] then Programs([Placeholder(nowMs, offsetMs, genres)])
          else Programs(seq(|listed|, k requires 0 <= k < |listed| => listed[k].(genres := genres)))
  }

  /** A channel with listed programs gets exactly those programs, in order,
      each changed only in its genres. */
  lemma ListedProgramsKept(values: map<string, string>, listing: Listing, nowMs: int, offsetMs: int,
                           decode: Option<string> -> Option<seq<string>>, id: int)
    requires EPG_ID_PROVIDER in values && ParseInt(values[EPG_ID_PROVIDER]) == Some(id)
    requires ListedPrograms(listing, id) != []
    ensures var r := ProgramsForChannel(Some(Stored(values)), listing, nowMs, offsetMs, decode);
            var listed := ListedPrograms(listing, id);
            r.Programs? && |r.programs| == |listed|
            && forall k | 0 <= k < |listed| :: r.programs[k].(genres := listed[k].genres) == listed[k]
  {
  }

  /** Without listed programs the channel gets the single placeholder, which
      starts at the last local half-hour mark and covers the current time. */
  lemma PlaceholderWhenUnlisted(values: map<string, string>, listing: Listing, nowMs: int, offsetMs: int,
                                decode: Option<string> -> Option<seq<string>>, id: int)
    requires EPG_ID_PROVIDER in values && ParseInt(values[EPG_ID_PROVIDER]) == Some(id)
    requires ListedPrograms(listing, id) == []
    ensures var r := ProgramsForChannel(Some(Stored(values)), listing, nowMs, offsetMs, decode);
            r.Programs? && |r.programs| == 1
            && r.programs[0].title.None?
            && r.programs[0].startMs == LastHalfHour(nowMs, offsetMs)
            && (r.programs[0].startMs + offsetMs) % HALF_HOUR_MS == 0
            && r.programs[0].startMs <= nowMs < r.programs[0].endMs
            && r.programs[0].endMs - r.programs[0].startMs == WEEK_MS
  {
  }

  // ---------------------------------------------------------------------
  // Channels the library created

  /** The provider data of a channel after storage: the EPG id as its
      decimal text and the genre list as the JSON text `encode` gives. */
  function StoredOf(c: Channel, encode: seq<string> -> string): (d: StoredData)
    ensures d.Stored? && d.values.Keys == c.providerData.Keys
    ensures forall k | k in c.providerData && c.providerData[k].IntValue? ::
              d.values[k] == IntToString(c.providerData[k].n)
    ensures forall k | k in c.providerData && c.providerData[k].GenreList? ::
              d.values[k] == encode(c.providerData[k].genres)
  {
    Stored(map k | k in c.providerData :: match c.providerData[k]
                                          case IntValue(n) => IntToString(n)
                                          case GenreList(g) => encode(g))
  }

  /** A channel `createChannelList` built never makes the guide throw: its
      stored EPG id reads back as the `tvg-id` hash it was given, and when
      JSON decoding inverts encoding every program carries the genres the
      channel was created with. */
  lemma CreatedChannelPrograms(name: string, number: string, epgId: Int32, logo: Option<string>,
                               url: Option<string>, group: Option<string>, genres: seq<string>,
                               listing: Listing, nowMs: int, offsetMs: int,
                               encode: seq<string> -> string, decode: Option<string> -> Option<seq<string>>)
    requires decode(Some(encode(genres))) == Some(genres)
    ensures var c := CreateChannel(name, number, epgId, logo, url, group, genres);
            var r := ProgramsForChannel(Some(StoredOf(c, encode)), listing, nowMs, offsetMs, decode);
            r.Programs?
            && (forall k | 0 <= k < |r.programs| :: r.programs[k].genres == Some(genres))
            && (ListedPrograms(listing, epgId) == [] ==> |r.programs| == 1 && r.programs[0].title.None?)
            && (ListedPrograms(listing, epgId) != [] ==> |r.programs| == |ListedPrograms(listing, epgId)|)
  {
    var c := CreateChannel(name, number, epgId, logo, url, group, genres);
    var d := StoredOf(c, encode);
    ParseIntToString(epgId);
    assert d.values[EPG_ID_PROVIDER] == IntToString(epgId);
    assert d.values[CHANNEL_GENRES_PROVIDER] == encode(genres);
  }

  // ---------------------------------------------------------------------
  // The legacy service's background download

  /** The service's fields after the download, and whether the program sync
      was started. */
  datatype SyncState = SyncState(syncStarted: bool, listing: Listing, channels: Option<seq<Channel>>)

  /** `AsyncEpgDownload`: open the playlist, fetch the listing when an EPG
      URL is configured, build the channel list, and start the sync on
      success. `stream` is the playlist as read (`Fetched(None)` when reading
      it failed), `previous` the fields before the run. An error while
      parsing the playlist is not caught. */
  function LegacyDownload(stream: Fetch<Option<seq<string>>>, epgUrl: Option<string>, fetched: Fetch<Listing>,
                          previous: SyncState, p: ChannelProperties, keywords: seq<seq<string>>): (r: Result<SyncState, ParseError>)
    requires |keywords| == GENRE_COUNT
    ensures r.Ok? ==> (r.value.syncStarted <==> stream.Fetched? && (epgUrl.None? || fetched.Fetched?))
    ensures r.Ok? && r.value.syncStarted ==>
              r.value.channels.Some? && ChannelList(stream.value, p, keywords) == Ok(r.value.channels.value)
              && r.value.listing == (if epgUrl.Some? then fetched.value else previous.listing)
    ensures r.Ok? && !r.value.syncStarted ==> r.value.channels == previous.channels
    ensures epgUrl.None? && r.Ok? ==> r.value.listing == previous.listing
    ensures r.Err? <==> stream.Fetched? && (epgUrl.None? || fetched.Fetched?) && ChannelList(stream.value, p, keywords).Err?
  {
    match stream
    case IoFailure => Ok(previous.(syncStarted := false))
    case Fetched(read) =>
      if epgUrl.Some? && fetched.IoFailure? then Ok(previous.(syncStarted := false))
      else
        var listing := if epgUrl.Some? then fetched.value else previous.listing;
        match ChannelList(read, p, keywords)
        case Err(e) => Err(e)
        case Ok(channels) => Ok(SyncState(true, listing, Some(channels)))
  }

  /** When the legacy sync starts, the channels it publishes are numbered
      1, 2, ... in order. */
  lemma LegacySyncNumbering(stream: Fetch<Option<seq<string>>>, epgUrl: Option<string>, fetched: Fetch<Listing>,
                            previous: SyncState, p: ChannelProperties, keywords: seq<seq<string>>)
    requires |keywords| == GENRE_COUNT
    requires LegacyDownload(stream, epgUrl, fetched, previous, p, keywords).Ok?
    requires LegacyDownload(stream, epgUrl, fetched, previous, p, keywords).value.syncStarted
    ensures var cs := LegacyDownload(stream, epgUrl, fetched, previous, p, keywords).value.channels.value;
            |cs| < TWO_31 ==> forall k | 0 <= k < |cs| :: ParseInt(cs[k].displayNumber) == Some(k + 1)
  {
    DisplayNumbersConsecutive(stream.value, p, keywords);
  }
}
