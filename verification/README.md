# xipl core, modelled in Dafny

This project models the logic at the centre of xipl, an Android library for
IPTV providers on Android TV, and of its predecessor package
`iptvproviderlibrary`. The library reads an extended-M3U playlist, turns its
`#EXTINF` entries (section 4.3.2.1 of RFC 8216, with the de-facto `tvg-id`,
`tvg-name`, `tvg-logo` and `group-title` attributes) into immutable
`AvContent` records, and builds three things from them:

- live channels, filtered by the provider's `ChannelProperties` and numbered
  1, 2, … with a keyword-based genre list;
- EPG programs for each channel: the listing's programs with the channel's
  genres, or a week-long placeholder that starts at the last half hour;
- a video-on-demand catalogue, kept in an abstract `ContentPersistence` store
  and shown as rows of contents grouped by their group.

The player side adds a transport-stream seek map (a time→byte table with a
binary search, and a decoder for the 33-bit program clock reference of
section 2.4.3.5 of ISO/IEC 13818-1), and seek positions every ten seconds.
The search screen groups results by group. The settings screen validates its
section bundles.

Java semantics are modelled explicitly where they matter:

- `int`/`long` wrap-around (`JavaInt.Wrap32`, `JavaInt.Wrap64`);
- truncating division (`JavaInt.Quot`);
- `String.hashCode` as the polynomial hash with 31 mod 2^32, over code points rather than UTF-16 units (`JavaText.Hash`);
- `Integer.toString`, and `Integer.parseInt` over ASCII digits (`JavaText.ParseInt`);
- unchecked exceptions, as the `Err` side of a `Result`;
- `null`, as `None`.

I/O results are parameters of type `Fetch` (`Fetched(v)` or `IoFailure`).

Files, one module each:

- `wrappers.dfy`, `java_int.dfy`, `java_text.dfy`, `ordering.dfy`: the Java
  building blocks and sorting by a string key;
- `constants.dfy`, `attributes.dfy`, `av_content.dfy`, `playlist.dfy`: the
  playlist parser;
- `ts_seek_map.dfy`, `seek_positions.dfy`: the player;
- `wall_clock.dfy`, `channels.dfy`, `epg.dfy`: channels and programs;
- `content_store.dfy`, `grouping.dfy`, `vod.dfy`, `vod_legacy.dfy`,
  `search.dfy`, `settings.dfy`: the catalogue screens and settings.

## Model

| member | source | states |
|---|---|---|
| Constants.ChannelGenresShape | library/src/main/java/com/zaclimon/xipl/Constants.java:41-59 | The genre table has 17 pairwise distinct entries, from ANIMAL_WILDLIFE to TRAVEL |
| Constants.AttributeNamesDistinct | library/src/main/java/com/zaclimon/xipl/Constants.java:33-36 | The four attribute names differ, so each pattern selects its own attribute |
| Attributes.ClosingQuote | library/src/main/java/com/zaclimon/xipl/Constants.java:33-36 | The lazy `(.*?)"` ends at the first quote; no line terminator and no quote come before it. With no result, no quote is reachable without crossing a line terminator |
| Attributes.MatchEnd | library/src/main/java/com/zaclimon/xipl/Constants.java:33-36 | The pattern matches at an index exactly when some match ends there. It then returns the end of such a match |
| Attributes.MatchIsUnique | library/src/main/java/com/zaclimon/xipl/Constants.java:33-36 | A match starting at a given index has only one possible end |
| Attributes.Find | library/src/main/java/com/zaclimon/xipl/util/AvContentUtil.java:234-236 | `find()` returns the leftmost match at or after the start. Without a result, no index matches |
| Attributes.CaseInsensitiveExample | library/src/main/java/com/zaclimon/xipl/Constants.java:33-36 | `TVG-NAME="x"` yields the title `x`, because attribute names ignore ASCII case |
| Attributes.SecondField | library/src/main/java/com/zaclimon/xipl/util/AvContentUtil.java:237 | `split("=")[1]` exists exactly when the match holds an '='. It is then the text from just after the first '=' up to the next '=' or the end of the match |
| Attributes.MatchValue | library/src/main/java/com/zaclimon/xipl/util/AvContentUtil.java:237-238 | Missing exactly when the match has no '='. Otherwise it is that second field with every quote removed, so it holds no quote and no '=' |
| Attributes.CommaTail | library/src/main/java/com/zaclimon/xipl/util/AvContentUtil.java:245-253 | Exists exactly when the line has a comma. It is then the whole untrimmed text after the first comma, up to the first line terminator |
| Attributes.Extract | library/src/main/java/com/zaclimon/xipl/util/AvContentUtil.java:232-258 | Returns "" without a match, and fails exactly when the match holds no '='. Otherwise it returns the match's second field without quotes. Only for `tvg-name`, a blank value is replaced by the comma tail when the line has a comma |
| Attributes.InnerEqualsExample | library/src/main/java/com/zaclimon/xipl/util/AvContentUtil.java:237-238 | A value containing '=' is cut at it: `tvg-name="b=c"` gives `b` |
| Attributes.BlankNameFallbackExample | library/src/main/java/com/zaclimon/xipl/util/AvContentUtil.java:245-253 | `tvg-name="",News` takes its title from after the comma |
| AvContentModel.Blank | library/src/main/java/com/zaclimon/xipl/model/AvContent.java:35 | The default content has every string unset and id 0 |
| AvContentModel.Make | library/src/main/java/com/zaclimon/xipl/model/AvContent.java:64-71 | Each getter returns its constructor argument, with category passed before link |
| AvContentModel.MakeWithoutId | library/src/main/java/com/zaclimon/xipl/model/AvContent.java:46-52 | The five-argument constructor is the six-argument one with id 0 |
| Playlist.FilterLines | library/src/main/java/com/zaclimon/xipl/util/AvContentUtil.java:191-201 | Keeps the lines starting with `#EXTINF` or `http://`, each as often as it occurs, and drops every other line (with `FilterIsSubsequence`, in playlist order) |
| Playlist.FilterIsSubsequence | library/src/main/java/com/zaclimon/xipl/util/AvContentUtil.java:191-201 | The kept lines are a subsequence of the input, in input order |
| Playlist.FilterIdempotent | library/src/main/java/com/zaclimon/xipl/util/AvContentUtil.java:191-201 | Filtering twice is the same as filtering once |
| Playlist.LinkStart | library/src/main/java/com/zaclimon/xipl/util/AvContentUtil.java:168-170 | The whitespace test before the last `http://` raises exactly when that `http://` opens the buffer |
| Playlist.FlushAsWrittenPairs | library/src/main/java/com/zaclimon/xipl/util/AvContentUtil.java:170-176 | Each flush of the single-line splitter, as written, emits two strings, the URL first |
| Playlist.StepAsWritten | library/src/main/java/com/zaclimon/xipl/util/AvContentUtil.java:163-181 | Characters other than a non-initial '#' only grow the buffer. A '#' fails exactly when the buffer's last `http://` is at index 0. URL-first pairs are kept |
| Playlist.SplitAsWritten | library/src/main/java/com/zaclimon/xipl/util/AvContentUtil.java:148-183 | The single-line splitter as written emits an even number of strings, and every even position holds a URL |
| Playlist.TailNeverEmitted | library/src/main/java/com/zaclimon/xipl/util/AvContentUtil.java:173-182 | Text after the last flush never reaches the output |
| Playlist.SplitAsWrittenExample | library/src/main/java/com/zaclimon/xipl/util/AvContentUtil.java:170-176 | `#EXTINF http://#` splits into `http://` then `#EXTINF /`. The URL comes first, and the entry keeps the buffer's final character |
| Playlist.AsWrittenSplitBreaksContents | library/src/main/java/com/zaclimon/xipl/util/AvContentUtil.java:76-86 | The URL-first output makes the content loop read past the end on a one-entry playlist |
| Playlist.SplitIntended | library/src/main/java/com/zaclimon/xipl/util/AvContentUtil.java:148-183 | The corrected splitter emits entry/URL pairs, with the URL second |
| Playlist.SplitIntendedExample | library/src/main/java/com/zaclimon/xipl/util/AvContentUtil.java:148-183 | `#EXTINF http://#` splits into `#EXTINF` then `http://` |
| Playlist.IntendedSplitParses | library/src/main/java/com/zaclimon/xipl/util/AvContentUtil.java:76-86 | The corrected split of the same playlist parses without error |
| Playlist.PlaylistLines | library/src/main/java/com/zaclimon/xipl/util/AvContentUtil.java:119-137 | A read error gives `null`. Any line count other than one goes to the multi-line filter. A single line goes to the corrected splitter, as "## Left out" says |
| Playlist.PlaylistLinesAsWritten | library/src/main/java/com/zaclimon/xipl/util/AvContentUtil.java:119-137 | The dispatch as written: a single line goes to the as-written splitter, whose index exception escapes. Any other line count gives what `PlaylistLines` gives |
| Playlist.CreateAvContent | library/src/main/java/com/zaclimon/xipl/util/AvContentUtil.java:209-223 | `null` exactly when `tvg-name` does not match. Otherwise it fails exactly when one of the four extractions fails. If none fails, it holds the extracted title, logo and group, the given link and category, and as id the hash of the `tvg-id` value, which is 0 when that attribute is absent |
| Playlist.ContentsFrom | library/src/main/java/com/zaclimon/xipl/util/AvContentUtil.java:76-86 | The loop from line `i` on. An `#EXTINF` entry on the last line makes it fail. Every content it returns has all fields, carries the given category, and was parsed from an `#EXTINF` line at or after `i`, linked to the line after it. There are no more contents than `#EXTINF` lines |
| Playlist.ContentsFromEntries | library/src/main/java/com/zaclimon/xipl/util/AvContentUtil.java:76-86 | The loop fails exactly when the step of some line fails: an `#EXTINF` line that is the last line, or one that fails to parse. Otherwise it returns exactly the contents the `#EXTINF` lines parse to, each with the line after it, in line order. Nothing else is included, so entries without `tvg-name` add nothing |
| Playlist.EntryOnLastLineFails | library/src/main/java/com/zaclimon/xipl/util/AvContentUtil.java:79-81 | An `#EXTINF` on the last line always makes the parse fail |
| Playlist.AvContentsList | library/src/main/java/com/zaclimon/xipl/util/AvContentUtil.java:70-90 | A `null` line list gives no contents. Otherwise the loop runs over the read lines: it fails exactly when some entry fails, and else lists each entry's content in line order, each with the given category |
| Playlist.AvContentsListAsWritten | library/src/main/java/com/zaclimon/xipl/util/AvContentUtil.java:70-90 | The pipeline with the as-written splitter. It agrees with `AvContentsList` on every playlist that is not a single line. On one line it runs the same loop over the as-written splitter's output |
| Playlist.OneLinePlaylistDiffers | library/src/main/java/com/zaclimon/xipl/util/AvContentUtil.java:128-131 | The one-line playlist `#EXTINF http://#` throws in the code and yields no content once the splitter is corrected |
| Playlist.Groups | library/src/main/java/com/zaclimon/xipl/util/AvContentUtil.java:98-111 | Every group of the input appears, once, and nothing else does |
| TsSeekMap.NewSeekMap | library/src/main/java/com/zaclimon/xipl/player/TsSeekMap.java:45-48 | A new map is empty and keeps its duration in minutes |
| TsSeekMap.AddPosition | library/src/main/java/com/zaclimon/xipl/player/TsSeekMap.java:56-58 | Exactly one entry is appended, and earlier entries and the duration are unchanged |
| TsSeekMap.AddKeepsAscending | library/src/main/java/com/zaclimon/xipl/player/TsSeekMap.java:56-58 | Appending a time not below the last keeps the times ascending |
| TsSeekMap.Search | library/src/main/java/com/zaclimon/xipl/player/TsSeekMap.java:72-84 | The search ends on a valid index. On ascending times: an exact hit when one exists, otherwise a neighbour on either side of the target |
| TsSeekMap.GetPosition | library/src/main/java/com/zaclimon/xipl/player/TsSeekMap.java:66-86 | An empty map fails on reading entry 0. Otherwise the result is the byte offset of a stored entry. With times ascending, that entry has exactly the target time when one does. With no exact hit, it is a neighbour of the target: below it with the next entry above, or above it with the previous one below |
| TsSeekMap.TargetMs | library/src/main/java/com/zaclimon/xipl/player/TsSeekMap.java:68-71 | The target is the truncated milliseconds shifted by the first entry's time |
| TsSeekMap.DurationUs | library/src/main/java/com/zaclimon/xipl/player/TsSeekMap.java:89-91 | The duration is exactly the minute count times 60,000,000 µs |
| TsSeekMap.PcrPositionMs | library/src/main/java/com/zaclimon/xipl/player/TsSeekMap.java:99-106 | Fails exactly when fewer than 5 bytes are given |
| TsSeekMap.PcrPositionIsBase | library/src/main/java/com/zaclimon/xipl/player/TsSeekMap.java:99-106 | Despite sign extension and `int` overflow, the result is the 33-bit clock base (bytes 0–3 big-endian, then the top bit of byte 4) divided by 90 |
| TsSeekMap.PcrPositionRange | library/src/main/java/com/zaclimon/xipl/player/TsSeekMap.java:99-106 | The position lies in [0, (2^33−1)/90] ms |
| SeekPositions.Steps | library/src/main/java/com/zaclimon/xipl/ui/vod/ProviderPlaybackSeekDataProvider.java:51-52 | For a duration whose count fits an `int`, the step count is the number of whole ten-second steps in it. A duration strictly between −10 s and 10 s gives 0 |
| SeekPositions.InitAsWritten | library/src/main/java/com/zaclimon/xipl/ui/vod/ProviderPlaybackSeekDataProvider.java:50-60 | Fails exactly for a negative step count. Position i is 10000·i reduced to 32 bits. The legacy copy (iptvproviderlibrary ProviderPlaybackSeekDataProvider.java:31-41) has the same `int` accumulator, and so the same wrapped positions |
| SeekPositions.WrappedPositionExample | library/src/main/java/com/zaclimon/xipl/ui/vod/ProviderPlaybackSeekDataProvider.java:54-58 | At 2,147,500,000 ms the last position of the `int` accumulator wraps below zero |
| SeekPositions.Init | library/src/main/java/com/zaclimon/xipl/ui/vod/ProviderPlaybackSeekDataProvider.java:50-60 | The corrected `init`, with a `long` accumulator. It fails exactly for a negative step count. Otherwise there is one position per step, and position i is exactly 10000·i |
| SeekPositions.PositionsWithinDuration | library/src/main/java/com/zaclimon/xipl/ui/vod/ProviderPlaybackSeekDataProvider.java:32 | Positions start at 0, rise by ten seconds, and all lie before the end of the video |
| SeekPositions.ShortDurationNoPositions | library/src/main/java/com/zaclimon/xipl/ui/vod/ProviderPlaybackSeekDataProvider.java:51-52 | A duration under ten seconds (a negative one included, down to −10 s exclusive) gives no positions |
| SeekPositions.NegativeDurationFails | library/src/main/java/com/zaclimon/iptvproviderlibrary/ui/vod/ProviderPlaybackSeekDataProvider.java:32-33 | A duration from −10000·2^31 ms up to −10 s gives a negative array size |
| SeekPositions.HugeNegativeDurationWraps | library/src/main/java/com/zaclimon/iptvproviderlibrary/ui/vod/ProviderPlaybackSeekDataProvider.java:32 | Below that range the `int` cast wraps: −10000·(2^31+1) ms gives 2^31−1 steps |
| WallClock.ToFields | library/src/main/java/com/zaclimon/xipl/util/ProviderChannelUtil.java:251-252 | The local time splits into valid calendar fields that rebuild it |
| WallClock.FieldsRoundTrip | library/src/main/java/com/zaclimon/xipl/util/ProviderChannelUtil.java:262-264 | Valid fields rebuilt into a time and split again are unchanged |
| WallClock.LastHalfHour | library/src/main/java/com/zaclimon/xipl/util/ProviderChannelUtil.java:249-265 | The minute becomes `minute − minute % 30`. Second and millisecond become 0. Day and hour are kept |
| WallClock.LastHalfHourMillis | library/src/main/java/com/zaclimon/xipl/util/ProviderChannelUtil.java:254-264 | The result is at most t, less than half an hour earlier, and on a local half-hour mark |
| WallClock.LastHalfHourIdempotent | library/src/main/java/com/zaclimon/xipl/util/ProviderChannelUtil.java:254-264 | Rounding twice is the same as rounding once |
| WallClock.LastHalfHourUtcAligned | library/src/main/java/com/zaclimon/xipl/util/ProviderChannelUtil.java:254-264 | In a zone whose offset is a multiple of half an hour, the result is a multiple of half an hour in UTC |
| Channels.GenresFrom | library/src/main/java/com/zaclimon/xipl/util/ProviderChannelUtil.java:219-227 | Collects, in increasing order, exactly the keyword groups that the name matches |
| Channels.ProgramGenre | library/src/main/java/com/zaclimon/xipl/util/ProviderChannelUtil.java:186-232 | Genre g is listed exactly when the name contains a keyword of g's group. The list has no duplicates and at most 17 entries |
| Channels.ProgramGenreOrdered | library/src/main/java/com/zaclimon/xipl/util/ProviderChannelUtil.java:274-276 | The genres follow the order of the genre table |
| Channels.CreateChannel | library/src/main/java/com/zaclimon/xipl/util/ProviderChannelUtil.java:120-157 | Name and number, network id = hash of the name, logo, URL and group as given, and provider data holding exactly the EPG id and the genres |
| Channels.Renumber | library/src/main/java/com/zaclimon/xipl/util/ProviderChannelUtil.java:104-108 | The copy differs from the original only in its display number |
| Channels.Provisional | library/src/main/java/com/zaclimon/xipl/util/ProviderChannelUtil.java:71-84 | The provisional channel is numbered i+1. Its logo is dropped unless `hasChannelLogo()`. It carries the content's title, link, group and id |
| Channels.Provisionals | library/src/main/java/com/zaclimon/xipl/util/ProviderChannelUtil.java:71-84 | Channel j of the list is the provisional channel the loop builds for content j |
| Channels.AcceptedFrom | library/src/main/java/com/zaclimon/xipl/util/ProviderChannelUtil.java:85-86 | Selects, in playlist order, exactly the positions whose provisional channel passes all four predicates |
| Channels.ChannelsFromAccepted | library/src/main/java/com/zaclimon/xipl/util/ProviderChannelUtil.java:71-93 | The listed channels are the accepted provisional ones, in playlist order, renumbered from the next free number |
| Channels.RenumberedFromAt | library/src/main/java/com/zaclimon/xipl/util/ProviderChannelUtil.java:86-91 | The k-th kept channel gets number next + k and keeps every other field |
| Channels.ChannelList | library/src/main/java/com/zaclimon/xipl/util/ProviderChannelUtil.java:56-94 | Fails exactly when the parser fails. Otherwise the channels are the provisional channels of the parsed contents that the provider accepts, in playlist order, renumbered 1, 2, … |
| Channels.DisplayNumbersConsecutive | library/src/main/java/com/zaclimon/xipl/util/ProviderChannelUtil.java:86-91 | Display numbers read back as 1, 2, …, with no gaps and no repeats |
| Channels.ChannelsFromNumbers | library/src/main/java/com/zaclimon/xipl/util/ProviderChannelUtil.java:60-91 | The counter starts at 1 and grows only with kept channels, so their numbers read back as 1, 2, … and never repeat |
| Channels.StoredEpgIdReadsBack | library/src/main/java/com/zaclimon/xipl/service/ProviderEpgService.java:101-105 | The EPG id, stored as text, parses back to the same int |
| Epg.ListedPrograms | library/src/main/java/com/zaclimon/xipl/service/ProviderEpgService.java:105-109 | The listing is used only for a non-zero id, an existing listing, and an entry for that id |
| Epg.Placeholder | library/src/main/java/com/zaclimon/xipl/service/ProviderEpgService.java:112-119 | The placeholder starts at the last local half-hour mark: on the mark and within the half hour before now. It lasts exactly seven days, has no title, and carries the genres |
| Epg.ProgramsForChannel | library/src/main/java/com/zaclimon/xipl/service/ProviderEpgService.java:82-136 | `null` exactly without provider data or an `epg_id`. A parse failure exactly for a non-numeric id. Otherwise at least one program, every one carrying the stored genres |
| Epg.ListedProgramsKept | library/src/main/java/com/zaclimon/xipl/service/ProviderEpgService.java:120-127 | Listed programs are returned in count and order, each changed only in its genres |
| Epg.PlaceholderWhenUnlisted | library/src/main/java/com/zaclimon/iptvproviderlibrary/service/ProviderEpgService.java:115-122 | Without listed programs the channel gets one placeholder that starts at the last local half-hour mark and covers now (the legacy service behaves the same) |
| Epg.StoredOf | library/src/main/java/com/zaclimon/xipl/util/ProviderChannelUtil.java:139-142 | Stored provider data has the same keys: the EPG id as decimal text, the genres as their encoding |
| Epg.CreatedChannelPrograms | library/src/main/java/com/zaclimon/xipl/service/ProviderEpgService.java:99-127 | A channel built by the channel builder always gets programs with its own genres, and the placeholder exactly when the listing has none |
| Epg.LegacyDownload | library/src/main/java/com/zaclimon/iptvproviderlibrary/service/ProviderEpgService.java:164-201 | The sync starts exactly when the playlist and the configured listing were read. It then publishes the channel list and the listing. A failed read leaves the channels unchanged, and a parse error is uncaught |
| Epg.LegacySyncNumbering | library/src/main/java/com/zaclimon/iptvproviderlibrary/service/ProviderEpgService.java:173-189 | The channels a started sync publishes are numbered 1, 2, … in order |
| ContentStore.Where | library/src/main/java/com/zaclimon/xipl/persistence/ContentPersistence.java:66-83 | A filtered view holds exactly the contents satisfying the predicate |
| ContentStore.WhereCount | library/src/main/java/com/zaclimon/xipl/persistence/ContentPersistence.java:86-98 | The view's length is the count of matching contents |
| ContentStore.Insert | library/src/main/java/com/zaclimon/xipl/persistence/ContentPersistence.java:38 | Exactly one content is added, and the earlier ones are kept |
| ContentStore.InsertAll | library/src/main/java/com/zaclimon/xipl/persistence/ContentPersistence.java:45 | Every content of the list is added in order, after the earlier ones |
| ContentStore.DeleteCategory | library/src/main/java/com/zaclimon/xipl/persistence/ContentPersistence.java:52 | Removes exactly the contents of the category |
| ContentStore.DeleteAll | library/src/main/java/com/zaclimon/xipl/persistence/ContentPersistence.java:57 | The store becomes empty |
| ContentStore.FromCategory | library/src/main/java/com/zaclimon/xipl/persistence/ContentPersistence.java:83 | Exactly the category's contents, `size(category)` of them. Title order when sorted, as a permutation of the store-order list; store order otherwise |
| ContentStore.FromTitle | library/src/main/java/com/zaclimon/xipl/persistence/ContentPersistence.java:73 | Exactly the contents whose title contains the query. Sorted, it is a permutation of the unsorted list |
| ContentStore.DeleteCategorySize | library/src/main/java/com/zaclimon/xipl/persistence/ContentPersistence.java:52 | Deleting a category empties it and removes exactly its size from the total |
| ContentStore.InsertAllSize | library/src/main/java/com/zaclimon/xipl/persistence/ContentPersistence.java:98 | Inserting a list adds its members of the category to that category's size |
| ContentStore.ReplaceCategory | library/src/main/java/com/zaclimon/xipl/persistence/ContentPersistence.java:45-52 | Delete-then-insert leaves the category holding exactly the inserted list |
| Grouping.InsertKey | library/src/main/java/com/zaclimon/xipl/ui/search/ProviderSearchFragment.java:207-213 | Adding a key to a sorted key set keeps it strictly sorted with the right members |
| Grouping.GroupKeys | library/src/main/java/com/zaclimon/xipl/ui/search/ProviderSearchFragment.java:204-216 | The `TreeMap` keys are exactly the groups present, in strictly ascending order |
| Grouping.GroupRows | library/src/main/java/com/zaclimon/xipl/ui/search/ProviderSearchFragment.java:201-221 | Fails exactly on a `null` group. Otherwise one row per distinct group, in ascending order. Each row holds that group's contents in input order |
| Grouping.GroupRowsCover | library/src/main/java/com/zaclimon/xipl/ui/search/ProviderSearchFragment.java:204-214 | Every content sits in the row of its group |
| Grouping.GroupRowsNonEmpty | library/src/main/java/com/zaclimon/xipl/ui/search/ProviderSearchFragment.java:207-213 | No row is empty |
| Vod.RunsFrom | library/src/main/java/com/zaclimon/xipl/ui/vod/VodTvSectionFragment.java:187-195 | The loop stores only maximal runs that have ended, and one for every group change. A new run of a group overwrites its entry, so each group keeps its last ended run. It fails exactly on a `null` group before the last content |
| Vod.ContentsByGroupAsWritten | library/src/main/java/com/zaclimon/xipl/ui/vod/VodTvSectionFragment.java:178-197 | Every stored value is a maximal run of its group followed by another group. Every group that changes before the last content has an entry, and that entry is the group's LAST such run, because later runs overwrite earlier ones. The method fails exactly when the loop dereferences a `null` group |
| Vod.SingleGroupShowsNothing | library/src/main/java/com/zaclimon/xipl/ui/vod/VodTvSectionFragment.java:187-196 | A catalogue of one group gives an empty map, because the final run is never stored |
| Vod.LaterRunReplacesExample | library/src/main/java/com/zaclimon/xipl/ui/vod/VodTvSectionFragment.java:188-190 | A later run of an already-seen group replaces the earlier one |
| Vod.SectionRows | library/src/main/java/com/zaclimon/xipl/ui/vod/VodTvSectionFragment.java:136-145 | Corrected grouping: each row holds exactly the category's contents of its group, in title order, so every content appears once, in its group's row. Rows come in alphabetical order, and it fails exactly on a `null` group |
| Vod.SingleGroupShowsOneRow | library/src/main/java/com/zaclimon/xipl/ui/vod/VodTvSectionFragment.java:178-197 | With the correction, a one-group catalogue shows one row holding all of it |
| Vod.Sync | library/src/main/java/com/zaclimon/xipl/ui/vod/VodTvSectionFragment.java:272-296 | Opening the stream fails: false and no change. A cancelled run gives true unless `close()` throws. After a parse, the result is false exactly when `close()` throws or both lists are empty. The store changes exactly for a non-empty parse of a different size, and then becomes delete-then-insert, kept even when `close()` throws |
| Vod.SyncReplacesCategory | library/src/main/java/com/zaclimon/xipl/ui/vod/VodTvSectionFragment.java:280-286 | After a changing sync the category holds exactly the parsed list, and other categories are untouched |
| Vod.SyncIdempotent | library/src/main/java/com/zaclimon/xipl/ui/vod/VodTvSectionFragment.java:278-292 | Syncing the same catalogue again leaves the store unchanged |
| Vod.ContentsTheSame | library/src/main/java/com/zaclimon/xipl/ui/vod/VodTvSectionFragment.java:207-210 | Contents are the same exactly when their links are equal. A `null` old link throws |
| Vod.SameTvgIdSameItem | library/src/main/java/com/zaclimon/xipl/ui/vod/VodTvSectionFragment.java:202-205 | Entries with equal `tvg-id` values are the same item for the diff |
| Vod.ReparseUnchanged | library/src/main/java/com/zaclimon/xipl/ui/vod/VodTvSectionFragment.java:199-212 | A re-parsed entry is the same item with the same contents |
| VodLegacy.Extend | library/src/main/java/com/zaclimon/iptvproviderlibrary/ui/vod/VodTvSectionFragment.java:133 | A content joins the last row, and the other rows are unchanged |
| VodLegacy.ExtendKeepsRuns | library/src/main/java/com/zaclimon/iptvproviderlibrary/ui/vod/VodTvSectionFragment.java:126-133 | A content of the current group extends its run |
| VodLegacy.StartKeepsRuns | library/src/main/java/com/zaclimon/iptvproviderlibrary/ui/vod/VodTvSectionFragment.java:127-131 | A group change opens a new maximal run |
| VodLegacy.RunRows | library/src/main/java/com/zaclimon/iptvproviderlibrary/ui/vod/VodTvSectionFragment.java:121-134 | There are no runs exactly when there are no contents |
| VodLegacy.RunRowsAreRuns | library/src/main/java/com/zaclimon/iptvproviderlibrary/ui/vod/VodTvSectionFragment.java:121-134 | The runs concatenate back to the contents, each run holds one group, and neighbouring runs differ in group |
| VodLegacy.RowsAsWritten | library/src/main/java/com/zaclimon/iptvproviderlibrary/ui/vod/VodTvSectionFragment.java:121-141 | Fails exactly when the loop dereferences a `null` group. Otherwise the rows are all runs but the last |
| VodLegacy.RowsLoop | library/src/main/java/com/zaclimon/iptvproviderlibrary/ui/vod/VodTvSectionFragment.java:121-141 | The group and adapter loop, as written, builds exactly those rows |
| VodLegacy.SingleGroupNoRows | library/src/main/java/com/zaclimon/iptvproviderlibrary/ui/vod/VodTvSectionFragment.java:126-141 | A one-group catalogue shows no row at all |
| VodLegacy.LegacyRows | library/src/main/java/com/zaclimon/iptvproviderlibrary/ui/vod/VodTvSectionFragment.java:113-145 | Corrected rows: fails exactly on a `null` group. Otherwise the rows are all maximal runs, and a non-empty catalogue has a row |
| VodLegacy.AsWrittenDropsLastRun | library/src/main/java/com/zaclimon/iptvproviderlibrary/ui/vod/VodTvSectionFragment.java:126-141 | The loop as written shows every corrected row except the last |
| VodLegacy.ShowErrorView | library/src/main/java/com/zaclimon/iptvproviderlibrary/ui/vod/VodTvSectionFragment.java:176-181 | Fails exactly when the fragment is added without a frame. Otherwise the error view shows when added, and the rows are kept |
| VodLegacy.UpdateRowsAdapter | library/src/main/java/com/zaclimon/iptvproviderlibrary/ui/vod/VodTvSectionFragment.java:113-145 | Rows are set only when none are shown, and then they are the maximal runs of the title-sorted contents, each headed by its group. An empty category shows the error view exactly when the frame exists and the fragment is added |
| VodLegacy.LegacySync | library/src/main/java/com/zaclimon/iptvproviderlibrary/ui/vod/VodTvSectionFragment.java:202-224 | The result is false exactly on an I/O failure, in opening or in closing the stream. A first load inserts at once. A changed size against a non-empty category is only kept for later |
| VodLegacy.OnDestroy | library/src/main/java/com/zaclimon/iptvproviderlibrary/ui/vod/VodTvSectionFragment.java:164-171 | A kept list replaces the category. Without one the store is unchanged |
| VodLegacy.LegacyAgreesOnDestroy | library/src/main/java/com/zaclimon/iptvproviderlibrary/ui/vod/VodTvSectionFragment.java:212-216 | For a non-empty catalogue, the legacy store after destroy equals the store the current sync produces, and both report the same result |
| VodLegacy.EmptyCatalogueClearsCategory | library/src/main/java/com/zaclimon/iptvproviderlibrary/ui/vod/VodTvSectionFragment.java:214-216 | An empty catalogue wipes a non-empty category on destroy, while the current sync keeps it |
| Search.Initial | library/src/main/java/com/zaclimon/xipl/ui/search/ProviderSearchFragment.java:69 | A new fragment uses the group layout and shows nothing |
| Search.SetSearchLayout | library/src/main/java/com/zaclimon/xipl/ui/search/ProviderSearchFragment.java:98-103 | Only layouts 0 and 1 are accepted. Any other value throws and leaves the layout unchanged |
| Search.SearchRows | library/src/main/java/com/zaclimon/xipl/ui/search/ProviderSearchFragment.java:185-229 | The single layout gives one row: the results, title-sorted. The group layout fails exactly on a `null` group. Otherwise it gives alphabetical rows, each holding its group's results in store order |
| Search.GroupLayoutExactlyOnce | library/src/main/java/com/zaclimon/xipl/ui/search/ProviderSearchFragment.java:201-214 | In the group layout every result is in exactly one row, the row of its group, and rows hold only results |
| Search.SingleLayoutOneRow | library/src/main/java/com/zaclimon/xipl/ui/search/ProviderSearchFragment.java:222-227 | The single layout always has exactly one row |
| Search.Submit | library/src/main/java/com/zaclimon/xipl/ui/search/ProviderSearchFragment.java:180-240 | A query replaces the previous rows. Results detach the no-results view. An empty result attaches it when it is not already attached, the fragment is added and the search frame exists. It never attaches the view twice, and without the fragment or the frame it leaves the view unchanged. An empty result leaves an already-attached view in place |
| Search.SingleLayoutNoEmptyView | library/src/main/java/com/zaclimon/xipl/ui/search/ProviderSearchFragment.java:233-239 | The single layout never attaches the no-results view |
| Settings.ValidateBundles | library/src/main/java/com/zaclimon/xipl/ui/settings/ProviderSettingsObjectAdapter.java:88-96 | Returns true exactly when every section has both keys, and throws otherwise |
| Settings.FromSections | library/src/main/java/com/zaclimon/xipl/ui/settings/ProviderSettingsObjectAdapter.java:63-67 | An invalid list adds nothing. A valid one adds all sections in order |
| Settings.AddSection | library/src/main/java/com/zaclimon/xipl/ui/settings/ProviderSettingsObjectAdapter.java:75-80 | Exactly one bundle is appended, holding exactly the two given ids |
| Settings.AddedSectionsValidate | library/src/main/java/com/zaclimon/xipl/ui/settings/ProviderSettingsObjectAdapter.java:75-96 | Sections added one by one always pass validation |
| JavaText.HashStep | library/src/main/java/com/zaclimon/xipl/util/AvContentUtil.java:215 | The hash of a string extended by a character is 31 times the old hash plus the character, wrapped to 32 bits |
| JavaText.ParseIntToString | library/src/main/java/com/zaclimon/xipl/service/ProviderEpgService.java:103-105 | `Integer.parseInt` reads back every `int` that `Integer.toString` wrote |

## Left out

- Reading streams: `BufferedReader` reading and the network fetches are not modelled. A playlist arrives as its lines (`None` for an `IOException` while reading), and a fetch as `Fetched(v)` or `IoFailure`.
- Android objects: `Channel`, `Program` and `InternalProviderData` of the companion library are plain records and maps. XMLTV parsing is an input `Listing`. Programs carry only a title, a time span and genres.
- JSON: `getGenresArrayFromJson` and the `JSONArray` in `createChannel` are not modelled. The genre list's encoding and decoding are function parameters, and the lemmas assume only that decoding undoes encoding.
- Time zones: `Calendar` is a wall clock at a fixed offset from UTC. Daylight saving time is not modelled.
- Android resources: the genre keyword arrays and the `ChannelProperties` predicates are parameters.
- Asynchronous lifecycle: AsyncTask lifecycles, progress bars and broadcasts are not modelled. Cancellation is a boolean input.
- Leanback side effects: the adapter and row-presenter side effects of `showRowsAdapter` and the current `updateRowsAdapter` are not modelled. The rows they show are modelled by `Vod.SectionRows`.
- Legacy `onPostExecute`: only its error-view call (`VodLegacy.ShowErrorView`) and the row update (`VodLegacy.UpdateRowsAdapter`) are modelled.
- Search view attachment: the no-results view is modelled as a counter of attachments.
- Player plumbing: `SeekableTsExoPlayerAdapter`, `ProviderTvPlayer` and the TV-input service are not modelled.
- `getSeekPositions`: it returns the constructed array unchanged. In an immutable model that is the value `Init` returns.
- `ContentPersistence.getAll` and `size()`: these are the store sequence and its length.
- Epg.Placeholder: the end time is computed with unbounded integers. A `long` overflow of start + one week is not modelled, because it needs a start within a week of year 292,277,026.
- VodLegacy.UpdateRowsAdapter: the rows come from the corrected `LegacyRows`. The legacy persistence interface is not part of this model, so its `searchCategory(category, true)` call is treated as the sorted `getFromCategory` query.
- TsSeekMap.Search: the midpoint `(q + r) / 2` is exact only below 2^30 entries, so the map is required to hold at most 2^30 entries.
- TsSeekMap.GetPosition: carries the same bound of 2^30 entries, because it calls `Search`.
- Channels.DisplayNumbersConsecutive: stated for lists shorter than 2^31, where the `int` counter cannot wrap.
- Channels.ChannelsFromNumbers: the same bound of 2^31 kept channels, for the same reason.
- Both `ProviderEpgService` classes share `Epg.ProgramsForChannel`. Their `getProgramsForChannel` bodies differ only in line positions.
- The seek-position code is identical in both packages. `SeekPositions.InitAsWritten` models it as written, and `SeekPositions.Init` the corrected version.
- Playlist.PlaylistLines: a one-line playlist goes to the corrected splitter `SplitIntended` (Findings, first row), where the code uses the as-written one. Such a playlist therefore parses in `Playlist.AvContentsList` and in everything built on it: `Channels.ChannelList`, `Epg.LegacyDownload`, `Vod.Sync` and `VodLegacy.LegacySync`. The code either throws there or pairs each entry with the wrong line. The code's own dispatch is `Playlist.PlaylistLinesAsWritten`, and its pipeline is `Playlist.AvContentsListAsWritten`.
- JavaText.ParseInt: accepts only the ASCII digits 0-9. Java's `Integer.parseInt` reads digits through `Character.digit`, which also accepts other Unicode decimal digits, such as U+0661-U+0669 and U+FF10-U+FF19. On stored text with such digits, `Epg.ProgramsForChannel` reports `NumberFormatError` where Java would parse a number. The library only writes ids with `Integer.toString`, which emits ASCII digits (`JavaText.ParseIntToString`).
- JavaText.Hash: works on Unicode code points, since a Dafny `char` is one. Java's `String.hashCode` works on UTF-16 units. The two differ for text with characters above U+FFFF, so the content id and the channel id derived from such a `tvg-id` are not modelled exactly.
- Ordering.LexLessEq: compares code points, where Java's `compareTo` compares UTF-16 units. The two orders differ only between characters above U+FFFF and characters in U+E000–U+FFFF. Title order and group order for such text are not modelled exactly.

Two edge cases of the code:

- A seek duration strictly between −10 s and 0 gives no positions and no error, not a negative array size.
- An empty legacy catalogue against a non-empty category wipes that category on destroy.

## Findings

| source | as written | input that shows it | evidently intended | confidence | as-written member | corrected member |
|---|---|---|---|---|---|---|
| library/src/main/java/com/zaclimon/xipl/util/AvContentUtil.java:163-182 | The single-line splitter emits the URL before its `#EXTINF` text. The deletion stops one short of the end, so the entry keeps the buffer's last character (the URL's final `/` in the example). The text after the last flush is never emitted | The one-line playlist `#EXTINF http://#` | Emit `#EXTINF` then URL, so that the content loop pairs each entry with its own link | not executed | Playlist.SplitAsWritten | Playlist.SplitIntended |
| library/src/main/java/com/zaclimon/xipl/ui/vod/VodTvSectionFragment.java:183-195 | The run of the last group is never put into the map, and a later run of an already-seen group overwrites the earlier one | A category whose contents all share one group | One row per group holding all its contents | not executed | Vod.ContentsByGroupAsWritten | Vod.SectionRows |
| library/src/main/java/com/zaclimon/iptvproviderlibrary/ui/vod/VodTvSectionFragment.java:126-141 | An adapter is stored only on a group change, so the last run never becomes a row | A category whose contents all share one group | One row per run, the last included | not executed | VodLegacy.RowsLoop | VodLegacy.LegacyRows |
| library/src/main/java/com/zaclimon/xipl/ui/vod/ProviderPlaybackSeekDataProvider.java:54-58 | The position accumulator is an `int`, so it wraps once 10000·i passes 2^31 − 1. The legacy copy, library/src/main/java/com/zaclimon/iptvproviderlibrary/ui/vod/ProviderPlaybackSeekDataProvider.java:31-41, is the same | A duration of 2,147,500,000 ms: position 214,749 becomes −2,147,477,296 | A `long` accumulator, so that position i is 10000·i | not executed | SeekPositions.InitAsWritten | SeekPositions.Init |
