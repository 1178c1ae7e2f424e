# opencast, modelled in Dafny

opencast casts video files from a local directory to AirPlay displays. Its
core lives in one Ruby file, `opencast.rb`, and has five parts:

- A **catalog** lists the `.mp4` and `.m4v` files of a directory. A file
  whose path holds a token `S<2 digits>E<2 digits>` is an episode of a
  **show**. Every other file is a **movie**.
- A **show** reads its season, its episode and its series title from the
  token in its file name. A **movie** reads its title from the dot-separated
  fields of its file name.
- **Catalogs** and **Displays** are class-level registries. Catalogs is a
  list. Displays is an insertion-ordered hash keyed by name.
- A **display** keeps three flags: off, playing video and idle. It sends
  commands to one AirPlay client that every display shares.
- **Reconciliation**: once a second, `run_loop_iteration` sends the off-air
  image to every display that is not playing. A display that is playing
  gets a `browse` keep-alive instead.

The model has one Dafny module per concern:

| file | module | what it holds |
|---|---|---|
| `wrappers.dfy` | `Wrappers` | `Option`, `Result`, `Outcome`, and the errors the Ruby code raises |
| `strings.dfy` | `RubyStrings` | the parts of String and Array the core uses: `split`, `join`, one-character `gsub`, `strip`, slicing, `to_i`, `to_s`, ASCII `capitalize` |
| `patterns.dfy` | `Patterns` | the regular expressions of the core; they are fixed-width sequences of literals and `[0-9]`, matched by a leftmost scanner (`=~`, `match`, `include?`) |
| `sequences.dfy` | `Sequences` | `delete_if` done in place on an array, a hash key lookup, and `map` with a block that may raise |
| `identifier.dfy` | `ShowEpisode` | `ShowEpisodeIdentifier` |
| `media.dfy` | `Media` | `Media`, `Movie`, `Show` |
| `catalog.dfy` | `Catalogs` | `Catalog`, `LocalCatalog`, `Catalogs` |
| `display.dfy` | `Displays` | `Display`, `Displays`, `run_loop_iteration`, `Media#play` |

How the model represents the source:

- **Values and objects.** Values the source never mutates are datatypes:
  `Identifier`, `Show`, `Movie` and `Catalog`.
- **Classes.** Objects whose fields the source updates in place are classes
  with `modifies` clauses: `Display`, the `Displays` registry (`Registry`)
  and the `Catalogs` registry (`CatalogRegistry`).
- **delete_if.** Each `delete_if` in the source runs in place on a fresh
  array (`Sequences.DeleteIf`). Its specification function is
  `Sequences.Reject`.
- **AirPlay client.** The client is a `Client` object. It keeps a log of the
  commands sent to it.
- **Directory listings.** `Dir.foreach` becomes a `Listing` parameter. It
  maps each existing directory to its entries in enumeration order.
- **Raising.** On the modelled paths, a place where the Ruby code raises
  becomes an `Err` value, and `nil` becomes `None`. The exceptions are listed
  under "Left out".

Behaviour of the code a reader may not expect:

- **Catalogs.shows and Catalogs.movies.** They ask every catalog, so the
  first error raised by any catalog wins. Then they return only the first
  catalog's list. With no catalog they return `nil`.
- **send_video while off.** `send_video` marks a display as playing even
  when the display is off. In that case nothing is sent and only the idle
  flag is set. From then on the loop sends that display `keep_playing`,
  never the off-air image.
- **dts? and bluray?** These check fixed spellings: `DTS`/`dts` and
  `BluRay`/`BLURAY`/`bluray`. They do not ignore case in general.
- **Display addresses.** Every command goes to the one shared client. A
  display's address is stored but never used.
- **A token at index 0.** When the token starts the file name, `title`
  takes `@full[0..-1]`, which is the whole name, not an empty prefix.
  `ShowEpisode.TitleAtStart` states the resulting title.
- **The empty catalog type.** A catalog type of `""` resolves to the base
  class `Catalog`, and listing it fails because `Catalog` has no `files`.
  Any spelling of `local` in any case resolves to `LocalCatalog`. Every
  other type raises.
- **A token in the directory.** `show?` tests the whole path, but
  `Show.new` parses only the last segment. A catalog directory whose name
  holds a token therefore makes `Catalog#shows` raise on the first episode
  file without a token of its own (`Catalogs.TokenInDirectoryFails`).

## Model

| member | source | states |
|---|---|---|
| `RubyStrings.Split` | opencast.rb:187 | `split("/")` and `split('.')`: empty exactly when the string holds only separators; no field holds the separator; the last field is not empty; joining the fields gives the string up to a run of trailing separators |
| `RubyStrings.SplitTrailingSeparator` | opencast.rb:187 | a trailing separator does not change what `split` returns |
| `RubyStrings.Join` | opencast.rb:204 | `join(" ")` of one part is that part, and every character of the result comes from a part or from the separator |
| `RubyStrings.FieldsOfJoin` | opencast.rb:202-204 | splitting the join of separator-free parts gives the parts back |
| `RubyStrings.Fields` | opencast.rb:187 | split before trailing empty fields are dropped: joining the fields with the separator gives back the string, and no field holds the separator |
| `RubyStrings.SplitKeepsFields` | opencast.rb:202 | `split` drops no field when the string is non-empty and does not end with the separator |
| `RubyStrings.JoinFields` | opencast.rb:202-204 | joining the fields of a string with a character equals replacing every separator by that character |
| `RubyStrings.Slice` | opencast.rb:255 | `@full[i, 7]`: the seven characters from i, or all that remain when fewer are left |
| `RubyStrings.RangeInclusive` | opencast.rb:267 | `s[first..last]`: up to and including last, truncated at the end of the string, counted from the back when last is negative, and empty when the end falls before first |
| `RubyStrings.WholeRange` | opencast.rb:267 | `s[0..-1]` is the whole string, so a token at index 0 gives the whole name as the text before it |
| `RubyStrings.Replace` | opencast.rb:267 | `gsub(".", " ")` keeps the length and changes exactly the dots, position by position |
| `RubyStrings.Strip` | opencast.rb:267 | `strip` returns a middle part of the string: all that precedes it and all that follows it is Ruby whitespace (including NUL), and it neither starts nor ends with whitespace |
| `RubyStrings.LStrip` | opencast.rb:267 | what it removes is a prefix of whitespace, and what it keeps does not start with whitespace |
| `RubyStrings.RStrip` | opencast.rb:267 | what it removes is a suffix of whitespace, and what it keeps does not end with whitespace |
| `RubyStrings.TwoDigitsValue` | opencast.rb:259 | `to_i` of two digits is ten times the first plus the second, at most 99 |
| `RubyStrings.DigitsValue` | opencast.rb:259 | `to_i` of a digit string is below 10 to the number of digits, and at least 10 to one less when the first digit is not zero |
| `RubyStrings.Decimal` | opencast.rb:247 | `to_s` of a count is non-empty decimal digits with no leading zero that read back as the count |
| `RubyStrings.DecimalOfDigits` | opencast.rb:259 | `to_s` undoes `to_i` on a digit string without a leading zero |
| `RubyStrings.Capitalize` | opencast.rb:134 | ASCII `capitalize` keeps the length and the letters up to case; the first character is not lower case and no later one is upper case |
| `Patterns.FindFrom` | opencast.rb:162 | the scan from a position returns the first match at or after it, and none means no match from there on |
| `Patterns.Find` | opencast.rb:162 | `=~` returns a position where the pattern matches with no match before it, and nil only when the pattern matches nowhere |
| `Patterns.ContainsIffOccurs` | opencast.rb:177-178 | `include?` holds exactly when the text occurs as a substring |
| `Sequences.Reject` | opencast.rb:144-146 | what `delete_if` keeps is no longer than the input and holds no element the block is true of |
| `Sequences.DeleteIf` | opencast.rb:144 | in-place `delete_if` leaves at the front of the array, in order, exactly the elements `Reject` keeps |
| `Sequences.RejectMembers` | opencast.rb:240-242 | an element survives `delete_if` exactly when it was in the list and the block is false of it |
| `Sequences.RejectAppend` | opencast.rb:144 | `delete_if` keeps the order: pruning a concatenation prunes each part |
| `Sequences.RejectPartition` | opencast.rb:143-159 | pruning with a predicate and with its negation splits a list into two parts whose multisets add up to the list's |
| `Sequences.IndexOf` | opencast.rb:37 | the position of a key already in the hash, or none exactly when the key is absent |
| `Sequences.FirstFailure` | opencast.rb:112-114 | the position of the first element whose block raises: every earlier block succeeds |
| `Sequences.MapResults` | opencast.rb:112-114 | `map` with a raising block succeeds exactly when every element does, keeps the results in order, and otherwise raises the first failing element's error |
| `Sequences.MapResultsSnoc` | opencast.rb:112-114 | mapping one more element: the old result, then that element's block, the first error winning |
| `Sequences.MapResultsPrefixErr` | opencast.rb:112-114 | an error raised on a prefix is the error of the whole map |
| `Sequences.FirstOf` | opencast.rb:114 | `[0]` on a map's result: nil for an empty list, the first element otherwise, errors passed through |
| `Sequences.FirstOfMapResults` | opencast.rb:112-114 | `map` then `[0]` succeeds exactly when every block does, gives the first element's result or nil, and otherwise raises the first failing block's error |
| `ShowEpisode.HasToken` | opencast.rb:161-163 | `show?` holds exactly when the token matches at some position of the name |
| `ShowEpisode.Parse` | opencast.rb:253-256 | the identifier is built exactly when the name holds a token, keeps the name, and keeps the seven characters from the leftmost token; otherwise it raises |
| `ShowEpisode.Identifier.Start` | opencast.rb:255 | the token's position: a match with no match before it |
| `ShowEpisode.Identifier.Season` | opencast.rb:258-260 | the season is the two digits after the leftmost token's S, read in decimal, at most 99 |
| `ShowEpisode.Identifier.Episode` | opencast.rb:262-264 | the episode is the two digits after the leftmost token's E, read in decimal, at most 99 |
| `ShowEpisode.Identifier.Title` | opencast.rb:266-268 | the title has no dot, starts and ends with a non-space, and holds only spaces and characters of the name |
| `ShowEpisode.TokenAt` | opencast.rb:270-272 | a token match is S, two digits, E, two digits |
| `ShowEpisode.GroupsInIdent` | opencast.rb:274-280 | in the seven kept characters, the season group is found at 0 and the episode group at 3, so both read the token's own digits |
| `ShowEpisode.TitleBeforeToken` | opencast.rb:267 | with the token past the start, the title is the text before the token with dots turned into spaces, stripped |
| `ShowEpisode.TitleAtStart` | opencast.rb:267 | with the token at index 0, the title is the whole name with dots turned into spaces, stripped, and it starts with S |
| `Media.FileName` | opencast.rb:186-188 | nil exactly when the path holds only slashes; otherwise the last segment, non-empty and without a slash |
| `Media.FileNameTrailingSlash` | opencast.rb:186-188 | a trailing slash does not change the file name |
| `Media.FileNameIsLastSegment` | opencast.rb:186-188 | for a path not ending with a slash, the file name is the text after its last slash, or the whole path |
| `Media.FileNameOfEntry` | opencast.rb:187 | a directory ending with a slash followed by an entry has that entry as its file name |
| `Media.ResolutionCases` | opencast.rb:176-180 | 1080p wins when either spelling occurs; 720p exactly when only a 720 spelling occurs; "POOP" exactly when none occurs |
| `Media.Movie.Title` | opencast.rb:201-205 | the title exists exactly when the path has a file name, and it holds no dot |
| `Media.Movie.Info` | opencast.rb:215-217 | the info is the title: it exists exactly when the path has a file name, and it holds no dot |
| `Media.MovieTitleIsStem` | opencast.rb:201-205 | for a file name not ending with a dot, the title is the name without its last dot-field, with the other dots turned into spaces |
| `Media.Movie.IsDts` | opencast.rb:207-209 | true exactly when `DTS` or `dts` occurs in the path |
| `Media.Movie.IsBluray` | opencast.rb:211-213 | true exactly when `BluRay`, `BLURAY` or `bluray` occurs in the path |
| `Media.NewShow` | opencast.rb:221-225 | a show is built exactly when the path has a file name holding a token; it keeps the path; it raises nil-file-name or missing-token otherwise |
| `Media.ShowFromPath` | opencast.rb:221-237 | a show's season, episode and title are read from the leftmost token of its file name |
| `Media.Show.Season` | opencast.rb:227-229 | at most 99 |
| `Media.Show.Episode` | opencast.rb:231-233 | at most 99 |
| `Media.Show.Title` | opencast.rb:235-237 | the series title has neither dots nor slashes |
| `Media.Show.Episodes` | opencast.rb:239-244 | pruning a fresh copy of the show list in place keeps exactly the shows with the same title |
| `Media.EpisodesOfSeries` | opencast.rb:239-248 | the episodes kept are exactly the listed shows with the same title, and there are as many as `EpisodeCount` |
| `Media.Show.Info` | opencast.rb:246-248 | the info is the title, " (", the decimal count of the series' episodes in the list, and ")" |
| `Catalogs.Catalog.Files` | opencast.rb:285-294 | the listing of the catalog directory, filtered to video entries; it fails for a missing directory and for the base class |
| `Catalogs.VideoFilesMembers` | opencast.rb:285-294 | a file is listed exactly when it is the path followed by a non-hidden entry ending in `.mp4` or `.m4v` |
| `Catalogs.VideoFilesAppend` | opencast.rb:287-290 | the files keep the enumeration order |
| `Catalogs.Catalog.Shows` | opencast.rb:143-150 | the files holding a token, pruned in place from a fresh list, each made into a show; it fails with the first show that cannot be built |
| `Catalogs.Catalog.Movies` | opencast.rb:152-159 | the files without a token, pruned in place from a fresh list, each made into a movie |
| `Catalogs.CatalogPartition` | opencast.rb:143-167 | shows and movies of one catalog split its files: each keeps the files' order, their multisets add up to the files, and a file is a show exactly when it holds a token |
| `Catalogs.TokenInEntry` | opencast.rb:161-167 | a token in a directory ending with a slash plus an entry lies in the directory or in the entry |
| `Catalogs.TokenInDirectoryFails` | opencast.rb:143-150 | with a token in the catalog directory, an episode file without its own token makes `shows` raise missing-token |
| `Catalogs.LocalShowsSucceed` | opencast.rb:143-150 | with a token-free directory ending with a slash, `shows` succeeds, and each show is built from one of the directory's video entries holding a token |
| `Catalogs.TypeInstance` | opencast.rb:132-135 | the catalog built keeps the given path |
| `Catalogs.TypeInstanceCases` | opencast.rb:132-135 | `local` in any case gives a LocalCatalog, the empty type the base Catalog, and every other type raises |
| `Catalogs.CaseFold` | opencast.rb:134 | ASCII `capitalize` and case-insensitive comparison agree on the letters of `local` |
| `Catalogs.CatalogRegistry.constructor` | opencast.rb:100 | the registry starts empty |
| `Catalogs.CatalogRegistry.Add` | opencast.rb:103-105 | appends the catalog the type names; an unknown type raises and leaves the registry unchanged |
| `Catalogs.CatalogRegistry.CollectShows` | opencast.rb:112-114 | the loop asking each catalog for its shows computes `MapResults` of the catalogs |
| `Catalogs.CatalogRegistry.CollectMovies` | opencast.rb:119-121 | the same for movies |
| `Catalogs.CatalogRegistry.Shows` | opencast.rb:111-116 | `[0]` of the map; succeeds exactly when every catalog's shows do; returns the first catalog's shows, or nil with no catalog; otherwise raises the first failing catalog's error |
| `Catalogs.CatalogRegistry.Movies` | opencast.rb:118-123 | as Shows, for movies |
| `Displays.VideoUrl` | opencast.rb:93 | the URL is the fixed base followed by a slash-free last segment, and nothing follows the base exactly when the path holds only slashes |
| `Displays.VideoUrlOfEntry` | opencast.rb:93 | the URL cast for a file in a catalog directory is the fixed base followed by the entry name |
| `Displays.AfterSendVideo` | opencast.rb:90-95 | after send_video the display is playing, keeps its power flag, and is idle exactly when it is off |
| `Displays.TickAllOrder` | opencast.rb:13-19 | one pass issues exactly one command per display that is on, in registry order: browse when playing, the off-air image otherwise |
| `Displays.Display.constructor` | opencast.rb:58-60 | a new display keeps its address and has all flags unset |
| `Displays.Display.Off` | opencast.rb:62-64 | only the power flag changes, to off |
| `Displays.Display.On` | opencast.rb:66-68 | only the power flag changes, to on |
| `Displays.Display.IsOff` | opencast.rb:70-72 | `off?` is exactly the power flag |
| `Displays.Display.IsPlayingVideo` | opencast.rb:78-80 | `playing_video?` is exactly the playing flag |
| `Displays.Display.SendImage` | opencast.rb:82-84 | the image is sent only while on |
| `Displays.Display.Default` | opencast.rb:74-76 | sends `assets/offair.jpg` while on |
| `Displays.Display.KeepPlaying` | opencast.rb:86-88 | sends a browse while on |
| `Displays.Display.SendVideo` | opencast.rb:90-95 | flags become those of `AfterSendVideo`; the URL is sent only while on |
| `Displays.Registry.constructor` | opencast.rb:33 | the registry starts empty |
| `Displays.Registry.Add` | opencast.rb:36-38 | a fresh display under the name: an existing name keeps its place, a new one is appended, names stay unique |
| `Displays.Registry.Tick` | opencast.rb:13-17 | `run_loop_iteration` over `Displays.with_all` (opencast.rb:40-45): one pass sends exactly `TickAll` of the displays' states, in registry order, and changes no display |
| `Displays.Registry.Play` | opencast.rb:190-192 | send_video on the first registered display, every other display unchanged; with no display it fails |

## Left out

- The AirPlay client is a log of commands. The result of `browse` is discarded by the source and is not modelled.
- Displays.Display.KeepPlaying: `browse[0].name` raises when `browse` finds no device; the model sends the browse and never raises there.
- `Opencast.start`, `Opencast.thread`, the `loop` and the one-second `sleep` are left out. The model covers one pass of the loop (`Registry.Tick`), not the thread that repeats it.
- The command-line block at the end of the file is left out. It registers a display and a catalog, switches displays off, and prints deduplicated infos.
- `Catalogs.all` and `Displays.all` return the registries themselves. They are fields of `CatalogRegistry` and `Registry`, not members of their own.
- `Dir.foreach` is a `Listing` parameter. File-system errors other than a missing directory are not modelled.
- `const_get` reflection is a closed mapping to the two catalog classes of the file, and `capitalize` is modelled on ASCII only.
- Media.Movie.Title and Media.Movie.Info: a path without a file name makes them `None`, where Ruby raises on `nil.split`.
- Media.Show.Episodes and Media.Show.Info take the show list as a parameter. The source reads it from the global `Catalogs.shows`, so a `nil` result there (no catalog) is not modelled.
- Media.Resolution has no contract of its own. `ResolutionCases` states it.
- `to_i` is modelled only on strings of decimal digits, the only strings the core gives it.
- Ruby strings are sequences of characters here: no encodings, and `strip` removes ASCII whitespace and NUL only.
