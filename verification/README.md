# Locality: models and proofs of its self-contained algorithms and protocols

This project models the parts of Locality that hold an algorithm or a protocol of their own, and
proves properties of them for all inputs, all runs and all interleavings.

Two kinds of module appear. Code that computes a value is a set of functions with lemmas, and where
the original runs a loop there is also a method proved equal to its function. Code that changes state
over time is a protocol (a state, events, a transition function, and theorems over every run) next
to a class with the fields of the original, whose methods are each proved to take exactly one
step of that protocol. The class carries its run as ghost history, and the contracts of its methods
draw on the theorems about runs for what the object promises at that moment.

| module | what it models |
|---|---|
| `SystemdExec`, `FuseUnitFile` | quoting and splitting of systemd command lines; the FUSE unit file that is printed and the parser that reads it back |
| `FuseUnits`, `FuseReports`, `SortedMaps` | stale, restartable, stoppable and deprecated units; merging of stale lists; reports by projection root |
| `Paths` | path components, by which paths are compared and ordered, and file names |
| `RootIds`, `Bits`, `Utf8` | the 64-bit FNV-1a hash (FNV offset basis and prime), the bounded hint, root ids and unit names |
| `Base64Url` | the unpadded base64url encoder (sections 3.2 and 5 of RFC 4648) and item identifiers |
| `Tasklist` | the CSV line splitter (section 2 of RFC 4180) |
| `SlackRefresh`, `SlackRefreshCoordinator` | the coordinator of one Slack refresh handle: cache, single flight, atomic commit with alarm, replay |
| `EnablementPolling`, `EnablementPoller` | the File Provider enablement poller: timer, late probes, generations, back-off |
| `SnapshotRefresh`, `SnapshotRefresher` | the coalescing refresh of the desktop snapshot |
| `Connections` | connecting and disconnecting across a credential store and a connection store |
| `CompactPath` | the length-bounded path compactor |
| `CreateQuoting` | shell and YAML quoting and directory names of new pages |
| `Runs` | protocols and their runs, shared by the four protocols above |
| `Text`, `Powers`, `Wrappers` | string helpers of the standard libraries, powers of two, and `Option` |

Where the expected property is false of the code in some cases, the code is kept and the exact condition is
proved:

- An empty word is written as nothing, so splitting what was quoted loses it
  (`SystemdExec.RoundTripIffNoEmptyWord`).
- A unit file does not read back for all paths. The exact condition, for any three paths whatever, is
  `FuseUnitFile.ReadsBack` (`FuseUnitFile.UnitFileRoundTrip`): no path holds a newline, the helper has a
  known name, the state root is not empty, and no path that begins with a dash is taken for a flag with
  another value. For paths without leading dashes that leaves: neither path is empty and none holds a
  newline. With them there are surprises both ways: the state root `--mountpoint=/x` loses every
  mountpoint but `/x`, and `--mountpoint=` reads back with the empty one.
- A final report (ready or unavailable) does not end polling if `onReport` throws: the poll counts as a
  failure and goes on after a second, and `onReady` is not called
  (`EnablementPolling.ReportEndsPollingIff`, `EnablementPolling.ThrowingReportDoesNotEndPolling`).
- A disconnect that stops between its two writes is the only operation that leaves an active record
  without its credential (`Connections.StepKeepsInvariantIff`), and over any run the records left so are
  exactly those where nothing was written since (`Connections.BrokenIffInterruptedLast`); repeating it
  repairs the state.
- A connect that stops after storing its secret under the id of another connector's active record leaves
  that record with a secret of the wrong connector; over any run the records left so are exactly those
  where nothing was written since (`Connections.MismatchedIffForeignLast`).
- An unnamed connect replaces an active record exactly if that has the default id of its connector, which
  a connection of another connector can have (`Connections.UnnamedConnectReplacesIff`).
- A call to refresh the snapshot can be rejected with no load begun since, and can be kept waiting for any
  number of loads; it settles at the first load end that fails or finds nothing queued
  (`SnapshotRefresh.CallSettlesAtFirstEnd`).
- The unit written for a mount registers the report of its root exactly if the first spelling of the root
  has the same root id as the mount's own and is the same path
  (`FuseReports.WrittenUnitRegistersRootIff`); for a second spelling that can fail
  (`FuseReports.SecondSpellingIsNotRegistered`).
- The CSV splitter trims every field, so it gives back exactly the lists without outer white space
  (`Tasklist.ReadInvertsWriteIffTrimmed`).
- A title with a raw control character other than tab, newline and carriage return is written into
  the YAML scalar as it is, where the grammar of YAML does not allow it (`CreateQuoting.YamlReadsTitleIffPrintable`).
- White space is trimmed from a title before dots are, so the directory name of `. a .` has a space at
  either end (`CreateQuoting.OuterSpaceStaysBehindDots`, `CreateQuoting.SpacesBehindDotsRemain`).
- The ellipsis of a compacted path stands for no component at all exactly if the normalized path is at
  least four units below the limit, so that the path was too long only for repeated or trailing separators;
  if there is room the first component is even written twice (`CompactPath.EllipsisStandsForNothingIff`,
  `CompactPath.StretchedPathIsCompacted`).
- A compacted path is not always written with its own separator: a Windows path below the home folder that
  keeps two components or more has slashes around the ellipsis and backslashes behind it
  (`CompactPath.CompactMixesSlashesIff`).
- A deprecated unit name need have nothing between prefix and suffix, not even two dots
  (`FuseUnits.DeprecatedNamesIff`).

## Model

| member | source | states |
|---|---|---|
| `SystemdExec.SequentialReplacesEscapeOnce` | crates/loc-cli/src/file_provider.rs:2394-2407 | the four `replace` passes, one after the other, escape each special character exactly once: no pass escapes what an earlier pass wrote |
| `SystemdExec.QuoteSpells` | crates/loc-cli/src/file_provider.rs:2394-2407 | a word stays as it is if and only if it consists of letters, digits and five marks, listed one by one; any other word is put between double quotes with a backslash before backslash, double quote, dollar and backtick, and before no other character |
| `SystemdExec.SplitExecArgs` | crates/loc-cli/src/file_provider.rs:2208-2250 | the splitting loop with its four variables computes the words that the character-by-character scanner defines, for every text |
| `SystemdExec.SplitReadsAnySpelling` | crates/loc-cli/src/file_provider.rs:2208-2250 | for every line, however its words are spelled, quoted in whole, in part or not at all, with any backslashes and any white space around them: each word is read as its text, and a pair of quotes with nothing in it as the empty word |
| `SystemdExec.SplitReadsUnfinished` | crates/loc-cli/src/file_provider.rs:2243-2249 | behind any such line a lone backslash stands for itself, and quotes that are never closed take in the rest of the line, as part of the last word or as a new one |
| `SystemdExec.SplitInvertsQuote` | crates/loc-cli/src/file_provider.rs:2208-2250 | for every list of words over any characters, splitting the space-joined quoted words gives back the non-empty ones, in order |
| `SystemdExec.RoundTripIffNoEmptyWord` | crates/loc-cli/src/file_provider.rs:2208-2250 | the whole list comes back if and only if no word is empty |
| `FuseUnitFile.ParsedPathsHaveNoNewline` | crates/loc-cli/src/file_provider.rs:2185-2205 | no unit file whatever makes the parser report a path that holds a newline |
| `FuseUnitFile.ParserReachesCommand` | crates/loc-cli/src/file_provider.rs:1759-1773 | whatever the mountpoint, the line the parser picks out of a generated unit is the generated `ExecStart` line and none of the lines before it |
| `FuseUnitFile.UnitFileHasLines` | crates/loc-cli/src/file_provider.rs:1759-1773 | for paths without newlines the file written has exactly these eighteen lines, each spelled out |
| `FuseUnitFile.ParserSays` | crates/loc-cli/src/file_provider.rs:2185-2205 | what the parser says of any file: nothing if no line, trimmed, begins with `ExecStart=`; otherwise the first such line decides, is read exactly if its first word names a helper, and yields the values of the two flags and whether `--mount-id` is mentioned |
| `FuseUnitFile.FlagValueIsFirst` | crates/loc-cli/src/file_provider.rs:2253-2266 | the first argument that mentions a flag decides: `flag=v` has the value v, the flag by itself the next argument, or none if it is the last |
| `FuseUnitFile.HasFlagIff` | crates/loc-cli/src/file_provider.rs:2269-2276 | a flag is present if and only if some argument is the flag or the flag, `=` and a value |
| `FuseUnitFile.HelperInDirectory` | crates/loc-cli/src/file_provider.rs:2192-2199 | behind any directory, exactly the names `locality-fuse`, `afs-fuse` and `agentfs-fuse` are taken for a helper |
| `FuseUnitFile.WholeCommandIsRead` | crates/loc-cli/src/file_provider.rs:2185-2205 | without newlines the parser sees exactly the non-empty words of the generated command, through line splitting, trimming and prefix stripping |
| `FuseUnitFile.ReadWrittenWords` | crates/loc-cli/src/file_provider.rs:2253-2276 | what the flag lookups find in the words of a written command, when the helper path or the state root may itself be taken for a flag |
| `FuseUnitFile.UnitFileRoundTrip` | crates/loc-cli/src/file_provider.rs:2185-2276 | for any helper path, state root and mountpoint whatever: parsing the generated unit gives exactly the state directory and mountpoint written and no mount id if and only if the three paths meet `ReadsBack` |
| `FuseUnitFile.UndashedRoundTrip` | crates/loc-cli/src/file_provider.rs:2185-2276 | for paths that do not begin with a dash and a helper path that ends in a known helper name: if and only if state root and mountpoint are not empty and no path holds a newline |
| `FuseUnitFile.InstalledHelperRoundTrip` | crates/loc-cli/src/file_provider.rs:2185-2276 | for each of the three helper names behind any directory, and paths that are not empty, hold no newline and do not begin with a dash, the file written parses to exactly the state root and mountpoint, without mount id |
| `FuseUnitFile.BrokenHelperLosesPath` | crates/loc-cli/src/file_provider.rs:2185-2205 | a newline in the helper path cuts the command inside its first quoted word, so that one of the two paths is never reported |
| `FuseUnitFile.DashedStateRootDecidesMountpoint` | crates/loc-cli/src/file_provider.rs:2253-2266 | for every path p, with the state root `--mountpoint=p` the parser reports p as the mountpoint whatever was written, so the unit reads back exactly for the mountpoint p, be it empty |
| `FuseUnits.StoppableIsStaleOrRestartable` | crates/loc-cli/src/file_provider.rs:1831-1856 | a unit file is stoppable exactly if it is stale or restartable, never both, and is reported with the same name and mountpoint |
| `FuseUnits.StoppableSplits` | crates/loc-cli/src/file_provider.rs:1941-1985 | for every list of unit files, one mask over the stoppable units picks out exactly the stale ones and leaves exactly the restartable ones, both in order, without overlap or loss |
| `FuseUnits.RestartableNamesIff` | crates/loc-cli/src/file_provider.rs:1941-1964 | for every list of unit files and mounts: a name is among the restartable units if and only if some unit file of that name parses for this state root without mount id and some mount with the FUSE projection has that unit name |
| `FuseUnits.StaleNamesIff` | crates/loc-cli/src/file_provider.rs:1831-1856 | a name is among the stale units if and only if some unit file of that name parses for this state root and has a mount id, or no mount with the FUSE projection has that unit name |
| `FuseUnits.RestartableIff` | crates/loc-cli/src/file_provider.rs:1941-1964 | and what exactly is listed: name and mountpoint of these unit files |
| `FuseUnits.StaleIff` | crates/loc-cli/src/file_provider.rs:1831-1856 | and for the stale: name, path, mountpoint, and legacy exactly with a mount id |
| `FuseUnits.DeprecatedIff` | crates/loc-cli/src/file_provider.rs:1894-1915 | the deprecated units are those of the parsed unit files with a name of a former kind or a state directory whose last component is `.afs`; all are legacy |
| `FuseUnits.DeprecatedNamesIff` | crates/loc-cli/src/file_provider.rs:2289-2293 | which names are of a former kind, both prefixes and the suffix spelled out: something between the two, or, as the test lets prefix and suffix share their dot, nothing but that dot |
| `FuseUnits.CurrentPrefixIsNotDeprecated` | crates/loc-cli/src/file_provider.rs:2289-2293 | no name with the current prefix is taken for a deprecated one |
| `FuseUnits.WrittenUnitIsRestartable` | crates/loc-cli/src/file_provider.rs:1941-1964 | the unit written for a configured mount, under its own name, is listed as restartable with its mountpoint and neither as stale nor as deprecated, among any other unit files: whenever the paths read back and the state root is not named `.afs` |
| `FuseReports.CombineStale` | crates/loc-cli/src/file_provider.rs:1918-1938 | one unit for every name that occurs, names strictly ascending, path of the first of that name, first known mountpoint kept, legacy or-ed |
| `FuseReports.MergeIsUnique` | crates/loc-cli/src/file_provider.rs:1918-1938 | the contract of the merge determines its result: any two lists that meet it are equal |
| `FuseReports.MergeIsIdempotent` | crates/loc-cli/src/file_provider.rs:1918-1938 | merging a merged list again changes nothing |
| `FuseReports.MergedUnitSays` | crates/loc-cli/src/file_provider.rs:1918-1938 | what the merge says of each name, in terms of the lists merged: the path of its first unit, legacy if any unit of the name is, and the mountpoint of the first that knows one |
| `FuseReports.CollectRegistered` | crates/loc-cli/src/file_provider.rs:1988-2008 | the map filled in place holds, for each name, the last unit file that can register a root |
| `FuseReports.GroupByRoot` | crates/loc-cli/src/file_provider.rs:2010-2019 | the map filled in place has roots that ascend strictly as paths and, under each, its first spelling and exactly the ids of its FUSE mounts in configuration order, however they spell the root |
| `FuseReports.GroupsCoverRoots` | crates/loc-cli/src/file_provider.rs:2010-2019 | the root of each FUSE mount is in the map, no other is, and each entry carries the spelling and the ids of its own mounts |
| `FuseReports.RootReports` | crates/loc-cli/src/file_provider.rs:1988-2044 | reports conserve mounts: one report for the root of each FUSE mount, roots strictly ascending as paths, in the spelling of its first mount, its ids sorted and with their multiplicity, registered exactly by the last fitting unit of its own name whose mountpoint is the root |
| `FuseReports.ReportSaysRegistered` | crates/loc-cli/src/file_provider.rs:1988-2041 | a root is registered exactly by the last unit file of its service name that parses for the state root without mount id, if that one names the root as its mountpoint; an earlier one does not count, and with none the root is not registered |
| `FuseReports.MountsOfCounts` | crates/loc-cli/src/file_provider.rs:2010-2019 | a mount is listed under a root as often as it is configured, if it is a FUSE mount of that root, and else not at all |
| `Paths.PathLessIsStrictTotalOrder` | crates/loc-cli/src/file_provider.rs:2010-2013 | the order of paths by their components is strict and total, so that a map keyed by paths has one order |
| `Paths.PathLessIff` | crates/loc-cli/src/file_provider.rs:2010-2013 | paths are ordered at the first component where they differ: the root before `.`, `.` before `..`, these before names, names as strings, and a path before its children |
| `SortedMaps.StringLessIff` | crates/loc-cli/src/file_provider.rs:1922-1937 | strings are ordered at the first character where they differ, by code point, and a string comes before what it is a prefix of |
| `Paths.ComponentsOfOne` | crates/loc-cli/src/file_provider.rs:2010-2013 | the components of the empty path, the root, `.`, `..`, and of a name by itself |
| `Paths.ComponentsOfChild` | crates/loc-cli/src/file_provider.rs:2010-2013 | a name behind any directory is one more component |
| `Paths.ComponentsOfParent` | crates/loc-cli/src/file_provider.rs:2010-2013 | and so is `..`, which takes none away |
| `Paths.TrailingSlashesDoNotCount` | crates/loc-cli/src/file_provider.rs:2010-2013 | paths that differ in trailing slashes only are the same key |
| `Paths.TrailingDotDoesNotCount` | crates/loc-cli/src/file_provider.rs:2010-2013 | and so are paths that differ in a `.` at the end |
| `FuseReports.WrittenUnitRegistersRootIff` | crates/loc-cli/src/file_provider.rs:2022-2044 | the unit written for a mount under its own name registers the report of the mount's root if and only if the first spelling of the root has the same root id as the mount's own and is the same path |
| `FuseReports.SecondSpellingIsNotRegistered` | crates/loc-cli/src/file_provider.rs:2022-2044 | every root has two spellings that are one key but have different root ids, so that by the row above the unit of the one never registers a report under the other |
| `Paths.FileNameOfName` | crates/loc-cli/src/file_provider.rs:2192-2198 | a bare name, such as that of the helper, is its own file name |
| `Paths.FileNameOfChild` | crates/loc-cli/src/file_provider.rs:2192-2198 | for every directory and every name: the file name of the path of the two is the name; a path that ends in `..` has none |
| `SortedMaps.PutKeepsAscending` | crates/loc-cli/src/file_provider.rs:1922-1937 | inserting into the ordered map keeps its keys strictly ascending |
| `SortedMaps.PutFind` | crates/loc-cli/src/file_provider.rs:1922-1937 | inserting changes the value of its own key and of no other |
| `SortedMaps.AscendingListsAreEqual` | crates/loc-cli/src/file_provider.rs:1937 | lists that ascend strictly and hold the same elements are equal, so that the values of an ordered map have one order only |
| `SortedMaps.SortSorts` | crates/loc-cli/src/file_provider.rs:2023-2024 | the sort of the mount ids is sorted (its being a permutation is part of `Sort` itself) |
| `Bits.XorIsInjective` | crates/loc-cli/src/file_provider.rs:2384-2391 | exclusive or with the low byte is injective in the state, and in the byte for a given state |
| `Bits.XorOfBits` | crates/loc-cli/src/file_provider.rs:2387 | exclusive or of two numbers has, bit by bit, a one exactly where the two differ |
| `RootIds.MultiplyIsInjective` | crates/loc-cli/src/file_provider.rs:2384-2391 | the wrapping multiplication with the FNV prime is injective on 64-bit words, because the prime has an inverse modulo 2^64 |
| `RootIds.FnvStepIsInjective` | crates/loc-cli/src/file_provider.rs:2384-2391 | one hash step is injective in the state and in the byte |
| `RootIds.RoundUndone` | crates/loc-cli/src/file_provider.rs:2386-2389 | multiplying a step by the inverse of the prime modulo 2^64 gives the state with the byte put in by exclusive or: the exclusive or comes first |
| `RootIds.CommonSuffixDecidesNothing` | crates/loc-cli/src/file_provider.rs:2384-2391 | appending the same bytes to two states keeps them equal or keeps them different |
| `RootIds.OneByteChangesTheHash` | crates/loc-cli/src/file_provider.rs:2384-2391 | byte strings of equal length that differ in exactly one byte have different hashes |
| `RootIds.Hex16IsInjective` | crates/loc-cli/src/file_provider.rs:2391 | sixteen hexadecimal digits determine the 64-bit hash |
| `RootIds.HexOfText` | crates/loc-cli/src/file_provider.rs:2391 | printing the number that a text of lower-case hexadecimal digits spells gives the text, leading zeros included |
| `RootIds.ComputeStableHexHash` | crates/loc-cli/src/file_provider.rs:2384-2391 | the hashing loop computes the hash the theorems are about |
| `RootIds.CheckValues` | crates/loc-cli/src/file_provider.rs:2384-2391 | the loop gives the published check values of 64-bit FNV-1a: `cbf29ce484222325` for the empty string and `af63dc4c8601ec8c` for `a` |
| `RootIds.SanitizeFixesExactlyTheSafe` | crates/loc-cli/src/file_provider.rs:2352-2363 | sanitising yields only safe characters and changes nothing exactly if all were safe, so sanitising twice is sanitising once |
| `RootIds.SanitizeKeeps` | crates/loc-cli/src/file_provider.rs:2352-2363 | sanitising keeps letters, digits and three marks, listed one by one, and puts an underscore for any other character |
| `RootIds.BoundedHint` | crates/loc-cli/src/file_provider.rs:2366-2381 | the loop with its early exit yields the longest sanitised prefix within the byte limit, less outer underscores, or `root` |
| `RootIds.HintIsSafeAndBounded` | crates/loc-cli/src/file_provider.rs:2366-2381 | a hint is never empty, never too long, and safe |
| `RootIds.HintIsTrimmedPrefix` | crates/loc-cli/src/file_provider.rs:2366-2381 | a hint is the longest sanitised prefix that fits, cut first and then less the underscores at its ends, or `root` if nothing else is left |
| `RootIds.RootIdIsBoundedAndSafe` | crates/loc-cli/src/file_provider.rs:2325-2345 | every root id is at most 70 bytes of safe ASCII and survives re-sanitising in the unit name whole |
| `RootIds.LongRootId` | crates/loc-cli/src/file_provider.rs:2325-2345 | a root of 48 or more safe characters other than underscores shows exactly its first 48 in its id, which has the full 70 characters |
| `RootIds.UnitNameOfA` | crates/loc-cli/src/file_provider.rs:2325-2345 | the whole unit name of the root `a`, spelled out |
| `RootIds.SameRootIdIffSameHintAndHash` | crates/loc-cli/src/file_provider.rs:2339-2345 | two roots share a unit name exactly if they share a root id, and a root id exactly if they share the hint and the whole 64-bit hash |
| `RootIds.OneByteChangesTheUnitName` | crates/loc-cli/src/file_provider.rs:2325-2391 | roots whose bytes differ in exactly one place always get different root ids and unit names |
| `Utf8.EncodeIsInjective` | crates/loc-cli/src/file_provider.rs:2386 | strings with the same UTF-8 bytes are equal, so that hashing and encoding see the whole string |
| `Utf8.WidthsInFigures` | crates/loc-cli/src/file_provider.rs:2386 | characters of each width have the bytes given in RFC 3629 |
| `Base64Url.DigitIsTableLookup` | crates/loc-cli/src/file_provider.rs:424 | the arithmetic digit is the character at that index of the table |
| `Base64Url.PushGroup` | crates/loc-cli/src/file_provider.rs:429-445 | one turn of the loop pushes the two, three or four digits of its group |
| `Base64Url.EncodeComponent` | crates/loc-cli/src/file_provider.rs:423-449 | the loop encodes every byte string as the group-wise definition does |
| `Base64Url.EncodedLengthAndAlphabet` | crates/loc-cli/src/file_provider.rs:423-449 | n bytes become exactly ceil(4n/3) characters, all of the alphabet |
| `Base64Url.EncodingSpellsBytes` | crates/loc-cli/src/file_provider.rs:429-445 | without a decoder: each four characters, with their places in the table as digits in base 64, spell the number that their three bytes spell in base 256, zeros standing for what is missing at the end |
| `Base64Url.DecodeIffEncoded` | crates/loc-cli/src/file_provider.rs:423-449 | an independent strict decoder (sections 3.5, 4 and 5 of RFC 4648) returns the bytes exactly for their encoding: inverse in both directions |
| `Base64Url.ItemIdentifierIsInjective` | crates/loc-cli/src/file_provider.rs:398-410 | two item identifiers are equal exactly for the same special item, or for the same ordinary item of the same mount |
| `Base64Url.ItemIdentifierReadsBack` | crates/loc-cli/src/file_provider.rs:398-410 | an ordinary item reads back: `m:`, a part without colon that decodes to the mount id, a colon, and a part that decodes to the identifier; `root` and `working-set` name themselves |
| `Tasklist.ParseLine` | crates/loc-cli/src/file_provider.rs:1373-1394 | the splitting loop with its peek ahead computes the fields the recursive reader defines |
| `Tasklist.ReadAnySpelling` | crates/loc-cli/src/file_provider.rs:1373-1394 | for every line whose quotes are closed, however its fields are spelled, quoted in whole, in part or not at all: a field ends at a comma outside quotes and is read as its text, trimmed |
| `Tasklist.UnclosedQuotesTakeRest` | crates/loc-cli/src/file_provider.rs:1373-1394 | quotes that are never closed take in the rest of the line, commas included |
| `Tasklist.ReadLineTrims` | crates/loc-cli/src/file_provider.rs:1373-1394 | for every non-empty list of fields, reading the quote-everything line gives back each field trimmed, commas, quotes and empty fields included |
| `Tasklist.ReadInvertsWriteIffTrimmed` | crates/loc-cli/src/file_provider.rs:1373-1394 | the fields come back unchanged if and only if none begins or ends with white space |
| `SlackRefresh.RunKeepsInvariant` | apps/oauth-service/src/slack-refresh-coordinator.ts:42-107 | in every interleaving: only the refresh in `inFlight` is unfinished, a stored entry has its alarm at its own expiry, every older entry has expired, and every entry held anywhere was stored |
| `SlackRefresh.AtMostOneProviderCall` | apps/oauth-service/src/slack-refresh-coordinator.ts:80-107 | in every interleaving of any number of requests at most one refresh is asking Slack, and it is the one later requests join |
| `SlackRefresh.NoProviderRefreshWhileEntryLives` | apps/oauth-service/src/slack-refresh-coordinator.ts:55-107 | once an entry is stored, no refresh starts and Slack is not asked while the clock is before its expiry, by whatever request |
| `SlackRefresh.AlarmDeletesOnlyExpired` | apps/oauth-service/src/slack-refresh-coordinator.ts:68-70 | whenever the alarm fires the stored entry, if any, has expired, also when it replaced an older one |
| `SlackRefresh.SuccessReplaysStoredEntry` | apps/oauth-service/src/slack-refresh-coordinator.ts:50-57 | every successful reply is the replay, at the moment it was made, of an entry committed earlier in the run |
| `SlackRefresh.ReplyCarriesResponse` | apps/oauth-service/src/slack-refresh-coordinator.ts:89-120 | in every run a successful reply at step j has steps h < i < j, where h shapes a response, i commits the refresh of h and j is the reply: it has exactly the fields of that response, equal but for a numeric `expires_in`, which is max(0, the original less max(0, seconds from h to j)) |
| `SlackRefresh.CommitStoresResponse` | apps/oauth-service/src/slack-refresh-coordinator.ts:92-106 | what a commit stores: the response shaped earlier in the same refresh, to expire exactly 600 seconds after that step, with the alarm at that moment |
| `SlackRefresh.StoredIsLastCommitted` | apps/oauth-service/src/slack-refresh-coordinator.ts:68-107 | in every run the storage holds the entry and the alarm of the last commit if no alarm has fired since, and else nothing; no other step touches it |
| `SlackRefresh.ReplayedIsFreshOrAwaited` | apps/oauth-service/src/slack-refresh-coordinator.ts:50-57 | in every run, what is about to be replayed was read from the cache before its expiry, or committed by the very refresh the request waited for |
| `SlackRefresh.FailureHasCause` | apps/oauth-service/src/slack-refresh-coordinator.ts:42-66 | in every run, whoever is told of a failure is told of its own: the refusal of the own request with its status and code, the own failed read or reply, or the failure of the refresh waited for |
| `SlackRefresh.RefusedOnArrival` | apps/oauth-service/src/slack-refresh-coordinator.ts:42-49 | a wrong method, an unreadable body and a missing handle are answered with 405, 500 and 400 and their codes, and these answers stay |
| `SlackRefresh.LaterReplyPromisesNoMore` | apps/oauth-service/src/slack-refresh-coordinator.ts:109-120 | in any run two replies served from one entry agree in everything but `expires_in`, which is no greater in the later one |
| `SlackRefresh.ReplyNeverOutlivesToken` | apps/oauth-service/src/slack-refresh-coordinator.ts:109-120 | even if the clock has stepped back, now plus `expires_in` never exceeds max(now, refreshed_at plus the original lifetime), and equals it when it has not |
| `SlackRefresh.OutcomeIsFinal` | apps/oauth-service/src/slack-refresh-coordinator.ts:89-107 | the outcome of a refresh never changes in the rest of the run |
| `SlackRefresh.FailureReachesEveryWaiter` | apps/oauth-service/src/slack-refresh-coordinator.ts:80-107 | a refresh that fails stores nothing at any time, and every request that ever waits for it is answered, if at all, with that error |
| `SlackRefresh.Drain` | apps/oauth-service/src/slack-refresh-coordinator.ts:80-107 | from every reachable state the refresh in flight can run to its end and clear `inFlight`, without touching a request |
| `SlackRefresh.RetrySucceeds` | apps/oauth-service/src/slack-refresh-coordinator.ts:50-107 | from every reachable state, after any failures, a request reading the cache can still get a successful reply |
| `SlackRefresh.EveryWaiterCanBeAnswered` | apps/oauth-service/src/slack-refresh-coordinator.ts:80-87 | no request is ever stuck waiting |
| `SlackRefreshCoordinator.SlackRefreshCoordinatorCore.constructor` | apps/oauth-service/src/slack-refresh-coordinator.ts:37-40 | a new coordinator is at the start of a run |
| `SlackRefreshCoordinator.SlackRefreshCoordinatorCore.Fetch` | apps/oauth-service/src/slack-refresh-coordinator.ts:42-54 | wrong method, unreadable body and missing handle are answered at once with 405, 500 and 400; any other request goes on to read the cache; nothing else changes |
| `SlackRefreshCoordinator.SlackRefreshCoordinatorCore.ReadCached` | apps/oauth-service/src/slack-refresh-coordinator.ts:72-78 | the stored entry is returned exactly while the clock is before its expiry |
| `SlackRefreshCoordinator.SlackRefreshCoordinatorCore.CoalescedRefresh` | apps/oauth-service/src/slack-refresh-coordinator.ts:80-87 | joins the refresh in flight or starts exactly one |
| `SlackRefreshCoordinator.SlackRefreshCoordinatorCore.ContinueWithCache` | apps/oauth-service/src/slack-refresh-coordinator.ts:55-56 | takes exactly the step from the storage read: replay a fresh entry, else join or start a refresh; one starts only if every entry ever stored has expired |
| `SlackRefreshCoordinator.SlackRefreshCoordinatorCore.AskProvider` | apps/oauth-service/src/slack-refresh-coordinator.ts:90-91 | takes exactly the step that asks Slack; no other refresh is asking, and every entry ever stored has expired |
| `SlackRefreshCoordinator.SlackRefreshCoordinatorCore.Seal` | apps/oauth-service/src/slack-refresh-coordinator.ts:92-100 | takes exactly the step that stamps the entry with the time of the answer and an expiry ten minutes later |
| `SlackRefreshCoordinator.SlackRefreshCoordinatorCore.Persist` | apps/oauth-service/src/slack-refresh-coordinator.ts:102-106 | takes exactly the step that stores the entry and sets the alarm at its expiry, together, before anyone is answered; an entry it replaces has expired |
| `SlackRefreshCoordinator.SlackRefreshCoordinatorCore.ClearInFlight` | apps/oauth-service/src/slack-refresh-coordinator.ts:82-84 | takes exactly the step that forgets the finished refresh, whether it succeeded or failed; no refresh is left unfinished |
| `SlackRefreshCoordinator.SlackRefreshCoordinatorCore.ContinueAfterRefresh` | apps/oauth-service/src/slack-refresh-coordinator.ts:56-65 | takes exactly the step of a waiter: replay on success, the error of the refresh on failure |
| `SlackRefreshCoordinator.SlackRefreshCoordinatorCore.ReplayResponse` | apps/oauth-service/src/slack-refresh-coordinator.ts:109-120 | overwriting `expires_in` in place gives the replay the reply theorems are about |
| `SlackRefreshCoordinator.SlackRefreshCoordinatorCore.Respond` | apps/oauth-service/src/slack-refresh-coordinator.ts:57 | takes exactly the step that replies; the reply is the replay of an entry stored earlier |
| `SlackRefreshCoordinator.SlackRefreshCoordinatorCore.FireAlarm` | apps/oauth-service/src/slack-refresh-coordinator.ts:68-70 | takes exactly the step that deletes everything stored; what it deletes has expired |
| `EnablementPolling.TurnKeepsInvariant` | apps/desktop/src/file-provider-enablement.ts:43-119 | every event turn keeps: running and visible means exactly one of timer and probe; a timer is armed only when running, visible and idle; at most one probe is unfinished |
| `EnablementPolling.PollingNeverStalls` | apps/desktop/src/file-provider-enablement.ts:43-119 | in every reachable state that is running and visible, exactly one of "the timer can fire" and "the one unfinished probe can settle" holds, and a timer that fires does begin a probe |
| `EnablementPolling.StoppedProbeIsSilent` | apps/desktop/src/file-provider-enablement.ts:58-64 | a probe unfinished when `stop` was called never calls back, whatever stops and starts follow |
| `EnablementPolling.ReportIsDeliveredIff` | apps/desktop/src/file-provider-enablement.ts:58-75 | in every run, a probe that settles with a report calls `onReport` with exactly that report, and then `onReady` exactly for ready with `onReport` returning, if and only if there was no stop since the firing that began it; a stopped or failed one calls nobody |
| `EnablementPolling.NotStoppedIffUndisturbed` | apps/desktop/src/file-provider-enablement.ts:58-64 | no stop since an unfinished probe began means the same as polling on with neither a stop nor an effective start since |
| `EnablementPolling.SettlingProbeBegan` | apps/desktop/src/file-provider-enablement.ts:54-61 | every probe that settles was begun by an earlier firing of the timer |
| `EnablementPolling.ArmedAtOnceIff` | apps/desktop/src/file-provider-enablement.ts:95-118 | a start, and becoming visible, arm the timer without delay if and only if polling is then on and visible with no probe unfinished; becoming hidden and a stop leave no timer |
| `EnablementPolling.VisibleIsLastSet` | apps/desktop/src/file-provider-enablement.ts:108-112 | in every run the visibility is the last that was set |
| `EnablementPolling.ReportEndsPollingIff` | apps/desktop/src/file-provider-enablement.ts:62-91 | a turn that reports switches polling off if and only if the report is ready or unavailable and `onReport` returned, whatever `onReady` does, and calls `onReady` exactly for ready; nothing is armed or in flight then, and otherwise polling goes on after one second |
| `EnablementPolling.RunningIffStartedForGood` | apps/desktop/src/file-provider-enablement.ts:54-107 | in every run polling is on if and only if some start has been followed by no stop and no final report that was taken in |
| `EnablementPolling.ThrowingReportDoesNotEndPolling` | apps/desktop/src/file-provider-enablement.ts:66-91 | for any ready or unavailable report there is a run that reports it through a callback that throws and is left with polling on, a timer armed and `onReady` not called |
| `EnablementPolling.NothingArmedAfterEnd` | apps/desktop/src/file-provider-enablement.ts:67-91 | after that nothing is armed until the next effective start |
| `EnablementPolling.ReadyOncePerStart` | apps/desktop/src/file-provider-enablement.ts:67-101 | between two calls of `onReady` lies an effective start |
| `EnablementPolling.FailuresAreTheStreak` | apps/desktop/src/file-provider-enablement.ts:65-82 | the failure counter is the number of failures in a row since the last report taken in, across all starts and stops |
| `EnablementPolling.DelayAfterProbe` | apps/desktop/src/file-provider-enablement.ts:76-90 | the delay armed when a probe ends is 1000 ms after a success and min(1000 * 2^(k-1), 5000) ms after k failures in a row |
| `EnablementPolling.BackoffFigures` | apps/desktop/src/file-provider-enablement.ts:82-89 | the delays are 1, 1, 2, 4 and then always 5 seconds |
| `EnablementPoller.FileProviderEnablementPoller.ScheduleTimer` | apps/desktop/src/file-provider-enablement.ts:43-52 | clears the timer and arms it only when running, visible and idle |
| `EnablementPoller.FileProviderEnablementPoller.StartPolling` | apps/desktop/src/file-provider-enablement.ts:95-102 | takes exactly the start turn; at most one probe is unfinished and polling keeps going |
| `EnablementPoller.FileProviderEnablementPoller.StopPolling` | apps/desktop/src/file-provider-enablement.ts:103-107 | takes exactly the stop turn; no timer is left, and at most one unfinished probe |
| `EnablementPoller.FileProviderEnablementPoller.ChangeVisibility` | apps/desktop/src/file-provider-enablement.ts:108-118 | takes exactly the visibility turn; while on and visible either a timer is armed or a probe unfinished, not both |
| `EnablementPoller.FileProviderEnablementPoller.FireTimer` | apps/desktop/src/file-provider-enablement.ts:48-61 | takes exactly the timer turn, also when `probe` throws at once; a probe begins only if none is unfinished |
| `EnablementPoller.FileProviderEnablementPoller.SettleProbe` | apps/desktop/src/file-provider-enablement.ts:61-91 | takes exactly the turn of a settling probe, including callbacks that throw; no probe is left, the delay armed is that of the failures in a row over the whole history, and the callbacks made are those of its outcome, in order, unless there was a stop since the probe began |
| `SnapshotRefresh.RunKeepsInvariant` | apps/desktop/src/App.tsx:1250-1268 | in every run, with any load under way ending next: loads under way belong to the current promise, there is none without it, and waiting calls wait for it |
| `SnapshotRefresh.LoadsNeverOverlap` | apps/desktop/src/App.tsx:1250-1268 | in every run at most one load is under way, and one is exactly while a promise is current |
| `SnapshotRefresh.WaitingCallHasLoad` | apps/desktop/src/App.tsx:1250-1268 | while a call waits a load is under way for its promise, whose success fulfils the call or, if another call was queued, begins the next round for it |
| `SnapshotRefresh.CallSettlesAtFirstEnd` | apps/desktop/src/App.tsx:1256-1268 | in every run: a call waits if and only if no load end that failed or found nothing queued has come after it, and from the first such end on it has the outcome of that one |
| `SnapshotRefresh.MayWaitAnyTime` | apps/desktop/src/App.tsx:1256-1261 | for every n there is a run in which n loads have succeeded and the first call still waits |
| `SnapshotRefresh.RejectedWithoutLoad` | apps/desktop/src/App.tsx:1250-1265 | there is a run in which a call is rejected and no load has begun since |
| `SnapshotRefresh.WaitingCallIsOwedLoad` | apps/desktop/src/App.tsx:1250-1268 | a call that still waits has had a load begin at or after it, or one is queued |
| `SnapshotRefresh.QueuedIffCalledSince` | apps/desktop/src/App.tsx:1250-1262 | in every run a further round is queued if and only if a call that found a load under way has come since the last load began, whatever ended since |
| `SnapshotRefresh.FulfilledCallIsCovered` | apps/desktop/src/App.tsx:1250-1268 | each call whose promise fulfils is covered: the very load whose success fulfils it began at or after the call |
| `SnapshotRefresher.Refresher.RefreshSnapshot` | apps/desktop/src/App.tsx:1250-1268 | takes exactly the step of a call: join and queue, or begin a load; a load begins exactly if none is under way |
| `SnapshotRefresher.Refresher.FinishLoad` | apps/desktop/src/App.tsx:1256-1265 | takes exactly the step of a load that succeeds: one more round if queued, else nobody is left waiting |
| `SnapshotRefresher.Refresher.FailLoad` | apps/desktop/src/App.tsx:1262-1265 | takes exactly the step of a load that fails: nobody is left waiting and nothing running, also if a round was queued |
| `Connections.ConnectionManager.RunConnect` | crates/loc-cli/src/connect.rs:383-419 | takes exactly the writes up to where it stops, credential first and record last; asks for a name exactly if an unnamed connect meets an active connection of its connector; leaves no record without its credential that had it |
| `Connections.ConnectionManager.RunDisconnect` | crates/loc-cli/src/connect.rs:1166-1197 | deletes the credential and then revokes the record, up to where it stops; an unknown id changes nothing; the credential of its own id is gone, and no other id loses its own, after any history |
| `Connections.OtherIdsAreUntouched` | crates/loc-cli/src/connect.rs:383-419 | no operation, wherever it stops, touches the credential or the record of another id |
| `Connections.CredentialIsLastWritten` | crates/loc-cli/src/connect.rs:383-392 | over every run, stopped anywhere: under `connection:` and an id stands the secret of the last write under that id if this was a connect, and nothing after a disconnect or without a write |
| `Connections.RecordIsLastSaved` | crates/loc-cli/src/connect.rs:395-419 | over every run, stopped anywhere: an id has a record if and only if some connect under it ran to its end; the record is of the connector of the last of these, and revoked if and only if a disconnect of the id ran to its end after it |
| `Connections.ProfilesAreSaved` | crates/loc-cli/src/connect.rs:393-397 | over every run: the profiles are those of the connects, named or not refused, that came so far as to save one |
| `Connections.FirstUnnamedConnect` | crates/loc-cli/src/connect.rs:1729-1758 | the default id of each connector, spelled out, and all that the stores hold after the first unnamed connect |
| `Connections.StepKeepsInvariantIff` | crates/loc-cli/src/connect.rs:1166-1197 | an operation keeps "each active record has its credential under its own id" if and only if it is not a disconnect of an active connection that stops between its two writes |
| `Connections.ActiveConnectionsHaveCredentials` | crates/loc-cli/src/connect.rs:383-419 | over every run of connects stopped anywhere and disconnects not stopped between their writes, each active record has a credential under `connection:` and its own id |
| `Connections.RunKeepsOwnReferences` | crates/loc-cli/src/connect.rs:383-419 | over every run, whatever was interrupted, each record refers to the credential named after its own id |
| `Connections.BrokenIffInterruptedLast` | crates/loc-cli/src/connect.rs:1166-1197 | over every run, whatever was interrupted: the ids that end active without a credential are exactly those whose last effective operation is an interrupted disconnect of the active record |
| `Connections.MismatchedIffForeignLast` | crates/loc-cli/src/connect.rs:383-419 | over every run, whatever was interrupted: the ids that end active with a secret of another connector are exactly those whose last write is a connect of that other connector, stopped before it replaced the record |
| `Connections.OwnerAndRecordAgreeIff` | crates/loc-cli/src/connect.rs:383-419 | over every run: an active record has a secret of its own connector if and only if its last write is neither that nor an interrupted disconnect |
| `Connections.ForeignCredentialRemains` | crates/loc-cli/src/connect.rs:383-419 | it happens: for any two connectors and any name, a connect of the one and an early stopped connect of the other |
| `Connections.InterruptedDisconnectIsRepaired` | crates/loc-cli/src/connect.rs:1166-1197 | repeating a disconnect that was cut short gives what the whole one would have given, and connecting again under the name restores the invariant |
| `Connections.UnnamedConnectReplacesIff` | crates/loc-cli/src/connect.rs:1736-1758 | an unnamed connect is refused if and only if its connector has an active connection; completed, it replaces an active record if and only if that stands under the default id, and then it is another connector's |
| `Connections.UnnamedConnectReplacesAnother` | crates/loc-cli/src/connect.rs:1736-1758 | it happens: for any two connectors, a connection of one named like the default of the other is replaced by an unnamed connect of the other |
| `CompactPath.BestCandidate` | apps/desktop/src/mounts.ts:200-209 | the loop with its early break finds the candidate with the most components among all that fit |
| `CompactPath.CompactPath` | apps/desktop/src/mounts.ts:186-212 | the whole method computes the specified compaction, for every path and every limit, negative ones included |
| `CompactPath.HomeBecomesTilde` | apps/desktop/src/mounts.ts:214-222 | `/Users/`, `/home/`, or a drive and `Users` in any case, with a user name and then nothing or a separator, becomes `~`, and what follows stays |
| `CompactPath.OnlyHomeBecomesTilde` | apps/desktop/src/mounts.ts:214-222 | any other path is left as it is |
| `CompactPath.ShortPathIsKept` | apps/desktop/src/mounts.ts:186-190 | within the limit only white space around the path is dropped and the home folder shortened |
| `CompactPath.SingleComponentIsCut` | apps/desktop/src/mounts.ts:196-198 | a too long path of one component, or none, becomes an ellipsis and its end, filling the limit; with no room for more than an ellipsis, its beginning |
| `CompactPath.PathWithoutFitIsCut` | apps/desktop/src/mounts.ts:211 | and so does a longer one none of whose tails fits |
| `CompactPath.MoreComponentsAreLonger` | apps/desktop/src/mounts.ts:241-252 | candidate lengths increase strictly with the number of components kept |
| `CompactPath.NothingLongerFits` | apps/desktop/src/mounts.ts:204-208 | past a candidate that does not fit none fits, so the early break loses nothing |
| `CompactPath.CompactFits` | apps/desktop/src/mounts.ts:186-212 | the result never exceeds a limit that is not negative |
| `CompactPath.CompactKeepsLongestTail` | apps/desktop/src/mounts.ts:186-212 | a too long path of two or more components keeps k components, where exactly the tails of up to k components fit, and is truncated only if none fits |
| `CompactPath.ElidedReadsBack` | apps/desktop/src/mounts.ts:241-252 | taking an elided path apart gives the prefix, an ellipsis, and the kept components unchanged |
| `CompactPath.NormalizedIsJoin` | apps/desktop/src/mounts.ts:193-195 | a normalized path is its components joined by the separator, behind one separator if the path begins with one: no two separators stand together and none at the end |
| `CompactPath.NormalizedIs` | apps/desktop/src/mounts.ts:192-195 | a normalized path is the components of the path itself joined by its one separator, behind a separator if the path begins with a slash of either kind and has a component |
| `CompactPath.ElidedIsJoin` | apps/desktop/src/mounts.ts:241-252 | an elided path is joined by the separator of the path throughout, but for `~/.../` in front of a path of backslashes |
| `CompactPath.CompactMixesSlashesIff` | apps/desktop/src/mounts.ts:192-252 | a too long path that keeps k > 0 components mixes both slashes if and only if k is two or more and the path, with its home folder as `~`, begins with `~` and a backslash and holds no slash |
| `CompactPath.EllipsisStandsForNothingIff` | apps/desktop/src/mounts.ts:195-212 | a too long path of two or more components that keeps the last k is compacted to the component the prefix shows, if any, the ellipsis and those k; the ellipsis stands for no component if and only if the normalized path is at least four units below the limit, and the first component is shown twice if and only if all of them fit behind the prefix |
| `CompactPath.StretchedPathIsCompacted` | apps/desktop/src/mounts.ts:195-212 | both happen: for any two words with so many slashes between them that they do not fit, exactly what they are compacted to for every limit that leaves room for the ellipsis |
| `CreateQuoting.ShellReadsQuotedPath` | crates/loc-cli/src/create.rs:618-626 | a POSIX shell tokenizer (section 2.2 of the POSIX.1-2017 Shell Command Language) reads the quoted path as exactly the one word it is, for every non-empty path; the empty one vanishes |
| `CreateQuoting.ShellReadsQuotedPathBeforeRest` | crates/loc-cli/src/create.rs:618-626 | the same inside a longer command, whatever comes before and after |
| `CreateQuoting.ShellQuoteKeepsIff` | crates/loc-cli/src/create.rs:618-626 | a path is left unquoted if and only if it consists of letters, digits and five marks, listed one by one |
| `CreateQuoting.WriteYamlDoubleQuoted` | crates/loc-cli/src/create.rs:601-616 | the pushing loop writes the escaped scalar |
| `CreateQuoting.YamlReadsTitleIffPrintable` | crates/loc-cli/src/create.rs:601-616 | a reader of double-quoted scalars (sections 5.7 and 7.3.1 of YAML 1.2.2) gives the title back if and only if it holds no control character below the space other than tab, newline and carriage return |
| `CreateQuoting.YamlWritesOneLine` | crates/loc-cli/src/create.rs:601-616 | the scalar stands on one line and holds no tab, and is the title between quotes, unchanged, if and only if the title holds none of the five escaped characters |
| `CreateQuoting.DirectoryNameIsSafe` | crates/loc-cli/src/create.rs:581-599 | every title becomes a non-empty name without separators, reserved or control characters and without dots at its ends |
| `CreateQuoting.DirectoryNameOf` | crates/loc-cli/src/create.rs:581-599 | the name of a title: white space around it dropped, then dots around what is left, and in the rest a hyphen for each of nine characters, listed one by one, and for each control character; all others stay |
| `CreateQuoting.DirectoryNameOfDots` | crates/loc-cli/src/create.rs:594-598 | dots with nothing but white space around them, and white space alone, become `Untitled` |
| `CreateQuoting.DirectoryNameKeepsExactlyCleanTitles` | crates/loc-cli/src/create.rs:581-599 | a title is its own directory name if and only if nothing in it has to be replaced or trimmed |
| `CreateQuoting.OuterSpaceStaysBehindDots` | crates/loc-cli/src/create.rs:589-592 | a name keeps white space at its ends if and only if, with all else replaced and trimmed, nothing but dots stood around it; for exactly these titles taking the directory name twice differs from taking it once |
| `CreateQuoting.SpacesBehindDotsRemain` | crates/loc-cli/src/create.rs:589-592 | an example of both |

## Left out

- Processes, systemd, fusermount, tasklist, HTTP, the file system and the daemon: input and output.
- The comparison of two paths for the same state (`same_path_for_linux_fuse_state` may resolve links) is a parameter `same`; only `WrittenUnitIsRestartable` and `WrittenUnitRegistersRootIff` ask anything of it, that the state root is the same as itself. Paths are strings of Unicode characters, so paths that are not UTF-8 and lose characters in `display()` are not captured.
- `virtual_projection_root` of a mount is a field of the mount, as its code is not part of this model.
- Bit shifts and masks are written as division, remainder and multiplication on bounded integers; the wrapping multiplication is taken modulo 2^64.
- Slack refresh: a storage read and its continuation are one step, as are the alarm and its deletion; the transaction and the clearing of `inFlight` are separate steps; eviction of the object and retries by the platform are not modelled. Encryption and decryption are taken as inverse, so an entry holds the response itself; any await may fail with any error. The clock of a run does not step back; `ReplyNeverOutlivesToken` holds for any clock. `expires_in` is a whole number.
- Enablement poller: a turn of the event loop is atomic, and callbacks may throw but do not call the poller. The exponent is computed exactly instead of in floating point, which the cap at 5000 makes the same. The label functions of that file are not modelled.
- Snapshot refresh: a turn is atomic; the gap between the last look at the queue flag and the `finally` handler, in which a call would be queued without another round, is not modelled. What a load fetches is not modelled.
- Connections: a secret is modelled with the connector it is good for, which the credential store does not keep beside it; records keep id, connector, credential reference and status; profiles keep their connector. What a probe or an OAuth exchange returns is not modelled, as no write depends on it but for the values written.
- Compact path: lower-casing in the test for a Windows home folder is that of ASCII letters, as a regular expression without the Unicode flag compares them.
- Shell and YAML: the tokenizer refuses unquoted characters with a meaning of their own and double quotes, and the reader knows one-line scalars without the hexadecimal escapes; neither occurs in what is written.
- The step methods of the classes name the step of the protocol they take and add it to the history; where a theorem about runs says something of the object at that moment, the contract repeats it. What holds across several steps is stated by the lemmas of `SlackRefresh`, `EnablementPolling`, `SnapshotRefresh` and `Connections`.
- The merge of stale with deprecated units and the list of legacy units (crates/loc-cli/src/file_provider.rs:1859-1891) combine what is modelled and add no property of their own.
- `diff.rs`, `info.rs`, `inspect.rs`, `restore.rs`, telemetry, OAuth routes and the user interface: field by field mappings and single checks.
