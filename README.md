# NPShop core, modelled in Dafny

This project models the logic at the core of NPShop, a Nintendo Switch homebrew
shop and file manager, and proves properties of that model. Nothing here
runs the program. The modules follow the program's own parts:

- `Text`, `Wrappers` and `Sorting` hold the C library behaviour the program
  relies on (`isspace`, `toupper`/`tolower`, `strcmp`/`strcasecmp`,
  `std::to_string`, `atoi`, `std::string::find`) and a sort: an insertion
  sort proved to return a sorted permutation, standing for `std::sort`.
- `DeviceAuthIni` is the small INI reader and writer of
  `NPShop/source/device_auth.cpp`: trimming, splitting into lines, the
  section and key search, `ini_gets` and `ini_puts`. It proves the round
  trip from a write to a read. `DeviceAuth` covers `BytesToHexUpper`, the
  boolean settings and the device id.
- `FsBackend`, `FileTransfer`, `FileCommands`, `FileNames` and `FileView` are the
  file browser of `NPShop/source/ui/menus/filebrowser.cpp`:
  - `FsBackend`: the storage as a tree of paths.
  - `FileTransfer`: the directory snapshot (`get_collection(s)`) and the
    reverse-order deletion.
  - `FileCommands`: the delete and paste commands.
  - `FileNames`: extensions and icons, archive names, in-archive entry
    names and the upload's read offset.
  - `FileView`: the view's listing, sort, selection and last-file restore.
- `StoreFormat` and `AppStore` are the app store of
  `NPShop/source/ui/menus/appstore.cpp`:
  - `StoreFormat`: manifest parsing, download counts with thousands
    separators, case-insensitive search, FNV-1a and the URL builders.
  - `AppStore`: the menu's category buckets, sort, filters, search and
    author views, and the entry menu's options.
- `AppCore` is the application core of `NPShop/source/app.cpp`: the widget
  stack, the touch state machine, theme colour parsing and theme
  inheritance, emuMMC classification, and the left/right menu settings.
- `Homebrew` is the homebrew list of `NPShop/source/ui/menus/homebrew.cpp`:
  star files, the multi-key comparator, and re-selection after a sort.
- `MainMenu` models the side tabs of `NPShop/source/ui/menus/main_menu.cpp`
  and the moves between them, plus the path rewrite used when an update is
  installed.

Reading from files, the clock, randomness, the network and the
console's services are outside the model. The model takes them as
parameters:
- file contents are strings, and a failed read is `None`;
- storage is a map, and each of its operations can fail;
- cancellation is a sequence of booleans, one per check.

Each imperative part of the source is a method with loop invariants or a
class whose methods update its fields. Each such method is proved equal
to a specification function, and the properties are proved as lemmas about
that function.

## Model

| member | source | states |
|---|---|---|
| Text.Lower | NPShop/source/device_auth.cpp:36 | `tolower` as `strcasecmp` applies it: an upper-case ASCII letter moves 32 places down to its lower-case form, and every other character is unchanged |
| Text.Upper | NPShop/source/ui/menus/appstore.cpp:506-511 | `toupper` as the case-insensitive search applies it: a lower-case ASCII letter moves 32 places up, and every other character is unchanged |
| Text.LexCmpEqual | NPShop/source/device_auth.cpp:240 | byte-wise comparison (`strcmp`) says equal exactly when the strings are equal |
| Text.LexCmpFlip | NPShop/source/ui/menus/homebrew.cpp:203-217 | swapping the operands of the byte-wise comparison flips its sign |
| Text.LexCmpTrans | NPShop/source/ui/menus/homebrew.cpp:203-217 | the byte-wise "less" is transitive |
| Text.CaseCmpEqual | NPShop/source/device_auth.cpp:36 | `strcasecmp(a, b) == 0` exactly when the lower-cased strings are equal (`iequals`) |
| Text.CaseCmpFlip | NPShop/source/ui/menus/homebrew.cpp:203-217 | swapping the operands of `strcasecmp` flips its sign |
| Text.CaseCmpTrans | NPShop/source/ui/menus/homebrew.cpp:203-217 | the "less" of `strcasecmp` is transitive, so the comparators built on it are strict orders |
| Text.LTrim | NPShop/source/device_auth.cpp:29-31 | `ltrim` keeps at most the whole text, and what it keeps does not start with white space |
| Text.LTrimSuffix | NPShop/source/device_auth.cpp:29-31 | what `ltrim` keeps is a suffix of the text |
| Text.LTrimSpec | NPShop/source/device_auth.cpp:29-31 | every character `ltrim` drops is white space |
| Text.RTrim | NPShop/source/device_auth.cpp:32-34 | `rtrim` keeps at most the whole text, and what it keeps does not end with white space |
| Text.RTrimPrefix | NPShop/source/device_auth.cpp:32-34 | what `rtrim` keeps is a prefix of the text |
| Text.RTrimSpec | NPShop/source/device_auth.cpp:32-34 | every character `rtrim` drops is white space |
| Text.TrimSpec | NPShop/source/device_auth.cpp:35 | `trim` (`rtrim` after `ltrim`) keeps a middle slice of the text, and what it drops at either end is white space |
| Text.TrimEnds | NPShop/source/device_auth.cpp:35 | the result of `trim` has no white space at either end |
| Text.TrimIdempotent | NPShop/source/device_auth.cpp:35 | trimming twice is the same as trimming once |
| Text.TrimNoSpace | NPShop/source/device_auth.cpp:35 | a text with no white space at either end is its own trim |
| Text.IndexOf | NPShop/source/device_auth.cpp:98 | `find(c)` returns a position holding `c`, or the length when the text holds no `c` (`npos`) |
| Text.IndexOfFirst | NPShop/source/device_auth.cpp:98 | no `c` comes before the position `find(c)` returns |
| Text.FindFrom | NPShop/source/device_auth.cpp:126-127 | `find(c, start)` returns a position from `start` on that holds `c`, or the length |
| Text.FindFromFirst | NPShop/source/device_auth.cpp:126-127 | no `c` lies between `start` and the position `find(c, start)` returns |
| Text.NatToStringInjective | NPShop/source/ui/menus/homebrew.cpp:181-183 | different numbers give different `std::to_string` texts |
| Text.AtoiNatToString | NPShop/source/ui/menus/appstore.cpp:1245-1247 | `Atoi`: `atoi` of a `std::to_string` result gives back the number |
| Sorting.KeyLessIrreflexive | NPShop/source/ui/menus/homebrew.cpp:278-284 | no sort key comes strictly before itself |
| Sorting.KeyLessTrans | NPShop/source/ui/menus/homebrew.cpp:278-284 | "strictly before" on sort keys is transitive, so it is the strict weak order `std::sort` needs |
| Sorting.KeysOf | NPShop/source/ui/menus/homebrew.cpp:278-284 | the key list has one key per element, the key of that element at the same position |
| Sorting.SortBy | NPShop/source/ui/menus/homebrew.cpp:278-284 | the sort returns a permutation of its input (equal multisets), in which no later element comes strictly before an earlier one |
| Sorting.SortedPair | NPShop/source/ui/menus/homebrew.cpp:278-284 | in the sorted list, an element whose key comes strictly before another's sits at a smaller position |
| DeviceAuthIni.Lines | NPShop/source/device_auth.cpp:122-133 | splitting the content at line feeds always gives at least one line |
| DeviceAuthIni.SplitLines | NPShop/source/device_auth.cpp:122-133 | the reading loop produces the pieces between line feeds in order, each without one trailing `\r` (the line list `Lines`) |
| DeviceAuthIni.JoinLines | NPShop/source/device_auth.cpp:195-201 | the writing loop puts the lines back together with one line feed between two lines (`Join`) |
| DeviceAuthIni.LinesNoFeed | NPShop/source/device_auth.cpp:122-133 | no line read from any content holds a line feed |
| DeviceAuthIni.JoinOfLines | NPShop/source/device_auth.cpp:122-133 | splitting content that has no `\r` before a line feed or at its end, then joining the lines, gives back the content; every line read is clean (also lines 195-201) |
| DeviceAuthIni.LinesOfJoin | NPShop/source/device_auth.cpp:159-201 | splitting joined lines gives the lines back with one trailing `\r` dropped each, and clean lines come back unchanged |
| DeviceAuthIni.FindKeyLine | NPShop/source/device_auth.cpp:76-106 | the search loop returns the key line, section start and section end that `FindKey` describes |
| DeviceAuthIni.FindKey | NPShop/source/device_auth.cpp:76-106 | the key line is -1 or a line of the file, and the section end lies within the line count |
| DeviceAuthIni.FindKeyMeaning | NPShop/source/device_auth.cpp:76-106 | blank and comment lines are skipped. The search returns the first line of the section's first run whose trimmed key matches case-insensitively, or -1 when there is none. The section start is -1 exactly when no header names the section. When the key is missing, the section end is the next header of another section, or the line count |
| Text.Truncate | NPShop/source/device_auth.cpp:117-147 | `snprintf(out, outsz, "%s", s)` keeps the longest prefix of `s` with at most `outsz - 1` characters: all of `s` when it fits |
| DeviceAuthIni.Gets | NPShop/source/device_auth.cpp:111-149 | `ini_gets` copies the trimmed text after the first `=` of the found line, or the default when the read failed or the key is missing. The copy is cut to `outsz - 1` characters |
| DeviceAuthIni.IniGets | NPShop/source/device_auth.cpp:111-149 | the method computes what `Gets` describes and returns the length of what it copied |
| DeviceAuthIni.Edit | NPShop/source/device_auth.cpp:176-193 | the new `key=value` line goes over the found key line, or in at the section end. Failing both, it goes at the end of the file, after a blank line (unless the last line is blank) and a new `[section]` header. Every other line is kept, in order |
| DeviceAuthIni.ApplyEdit | NPShop/source/device_auth.cpp:176-193 | the in-place edit of the line list produces the lines `Edit` describes |
| DeviceAuthIni.Puts | NPShop/source/device_auth.cpp:151-204 | `ini_puts` returns 0 and writes nothing for a null or empty section or key or a null value, and the same when the read fails. Otherwise it writes the edited lines and returns 1 exactly when the write succeeds. A failed write returns 0 and leaves the file empty, since the file was opened for writing before the write failed |
| DeviceAuthIni.FailedPutLosesAll | NPShop/source/device_auth.cpp:111-204 | after a failed `ini_puts`, the file holds nothing, so every later `ini_gets` of any key reads its default |
| DeviceAuthIni.IniPuts | NPShop/source/device_auth.cpp:151-204 | the method returns the code and writes the text that `Puts` describes |
| DeviceAuthIni.EditFindsKey | NPShop/source/device_auth.cpp:76-106 | in all three cases of the edit, the search run on the edited lines finds the line just written (also lines 176-193) |
| DeviceAuthIni.WrittenValue | NPShop/source/device_auth.cpp:111-204 | the text `ini_puts` writes stores the trimmed value under the section and key |
| DeviceAuthIni.PutsThenGets | NPShop/source/device_auth.cpp:111-204 | round trip: after a successful `ini_puts(section, key, value)`, `ini_gets(section, key)` reads `trim(value)` cut to the buffer. This holds for a plain section and key and a value without a line feed |
| DeviceAuthIni.PutsThenGetsExact | NPShop/source/device_auth.cpp:111-204 | a value without surrounding white space that fits the buffer reads back exactly |
| DeviceAuth.HexDigit | NPShop/source/device_auth.cpp:216 | the digit table maps each value below 16 to the upper-case hex digit of that value |
| DeviceAuth.HexUpper | NPShop/source/device_auth.cpp:215-220 | the hex text has two characters per byte, all from `0-9A-F` |
| DeviceAuth.BytesToHexUpper | NPShop/source/device_auth.cpp:215-220 | the loop fills the sized string with the high-nibble digit and then the low-nibble digit of each byte (`HexUpper`) |
| DeviceAuth.HexUpperAt | NPShop/source/device_auth.cpp:218 | position `2i` holds the digit of `p[i] >> 4`, and position `2i+1` holds the digit of `p[i] & 0xF` |
| DeviceAuth.HexRoundTrip | NPShop/source/device_auth.cpp:215-220 | decoding the hex text in pairs gives back the bytes, so the encoding loses nothing |
| DeviceAuth.IniGetBoolMeaning | NPShop/source/device_auth.cpp:237-241 | the 8-byte buffer never changes the answer: the setting is true exactly when the chosen text is `1` or case-insensitively `true` |
| DeviceAuth.IniGetBoolReadError | NPShop/source/device_auth.cpp:237-241 | when the read fails, the setting is its default |
| DeviceAuth.IniPutBoolThenGet | NPShop/source/device_auth.cpp:237-244 | a boolean stored with `IniPutBool` reads back as itself |
| DeviceAuth.GetOrCreateDeviceId | NPShop/source/device_auth.cpp:222-235 | a stored id is returned as read (into an 80-byte buffer) and nothing is written. Otherwise the id is the 32-character hex text of the 16 random bytes. It is written under `auth`/`device_id` exactly when the read succeeded |
| DeviceAuth.HexUpperPlain | NPShop/source/device_auth.cpp:215-220 | a hex id holds no line feed and no surrounding white space, so it reads back as itself |
| DeviceAuth.CreatedIdReadsBack | NPShop/source/device_auth.cpp:222-235 | once a created id is written, the next read finds it |
| DeviceAuth.DeviceIdStable | NPShop/source/device_auth.cpp:222-235 | after an id is created and written, the next call returns the same id and writes nothing |
| FsBackend.List | NPShop/source/ui/menus/filebrowser.cpp:1069-1073 | opening a directory and reading all its entries of one kind succeeds exactly on a readable directory. Every entry returned has that kind, and no name comes twice |
| FsBackend.IsDirEmpty | NPShop/source/ui/menus/filebrowser.cpp:869-871 | `IsDirEmpty` succeeds exactly on a readable directory, and says empty exactly when the directory lists nothing |
| FsBackend.DeleteFile | NPShop/source/ui/menus/filebrowser.cpp:879 | `DeleteFile` succeeds exactly on an existing file (not the root). The file is then gone, and the fault set and backend kind stay (also lines 1135 and 1167) |
| FsBackend.DeleteDirectory | NPShop/source/ui/menus/filebrowser.cpp:872 | `DeleteDirectory` succeeds exactly on an existing empty directory, fails with "not empty" on a directory that still lists something, and removes the directory (also lines 1130 and 1163) |
| FsBackend.CreateDirectory | NPShop/source/ui/menus/filebrowser.cpp:1000-1023 | `CreateDirectory` succeeds exactly when nothing is at the path and its parent is a directory, and leaves an empty directory there |
| FsBackend.Rename | NPShop/source/ui/menus/filebrowser.cpp:925-954 | a rename succeeds exactly when neither path is faulty, the source exists with the given kind, the target is free, the target's parent is a directory and the source is not a prefix of the target; on success the faulty set and native flag are kept and the target holds the source's node |
| FsBackend.Move | NPShop/source/ui/menus/filebrowser.cpp:925-954 | `Move` carries every path at or below the source to the same suffix below the target, keeps every other path, and produces nothing else |
| FsBackend.RenameFrame | NPShop/source/ui/menus/filebrowser.cpp:925-954 | `Rename` leaves every path outside the two subtrees and the two parent directories as it was |
| FsBackend.RenameParents | NPShop/source/ui/menus/filebrowser.cpp:925-954 | after `Rename` the target's parent lists the target's name, and the source's parent no longer lists the source's name; no other name changes |
| FsBackend.RenameMovesSubtree | NPShop/source/ui/menus/filebrowser.cpp:925-954 | in a consistent tree `Rename` puts every node at or below the source at the same suffix below the target |
| FsBackend.RenameClearsSource | NPShop/source/ui/menus/filebrowser.cpp:925-954 | in a consistent tree no path at or below the source remains after `Rename` |
| FsBackend.PrefixPresent | NPShop/source/ui/menus/filebrowser.cpp:925-954 | in a consistent tree every prefix of a present path is present, which keeps the moved subtree clear of existing entries |
| FsBackend.CopyFile | NPShop/source/ui/menus/filebrowser.cpp:1005-1035 | a copy succeeds exactly when the source is a readable file and the target is writable, and leaves a file of the source's size at the target on the destination backend |
| FsBackend.GetStamp | NPShop/source/ui/menus/filebrowser.cpp:966 | reading a time stamp succeeds exactly on a readable file, and gives that file's stamp |
| FsBackend.SetStamp | NPShop/source/ui/menus/filebrowser.cpp:967 | setting a time stamp succeeds exactly on a writable file, and changes only that file's stamp |
| FileTransfer.TickFacts | NPShop/source/ui/menus/filebrowser.cpp:898-899 | the `Yield`/`ShouldExitResult` pair fails, with "cancelled", exactly when the next cancellation answer is yes (also lines 1122-1123) |
| FileTransfer.GetCollection | NPShop/source/ui/menus/filebrowser.cpp:1065-1088 | a collection records its path and parent name, and holds the directory's exact file listing when files are asked for and its exact directory listing when directories are asked for. It succeeds exactly when the directory can be listed |
| FileTransfer.ViewGetCollection | NPShop/source/ui/menus/filebrowser.cpp:1109-1111 | the member overload ignores `inc_file`/`inc_dir` and always reads both the files and the directories |
| FileTransfer.GetCollections | NPShop/source/ui/menus/filebrowser.cpp:1090-1107 | the recursive walk appends to `out` exactly the collections `Snapshot` describes and returns its result code |
| FileTransfer.GetDirCollections | NPShop/source/ui/menus/filebrowser.cpp:1098-1104 | the loop over a collection's directories appends each directory's whole snapshot in listing order, stopping at the first error |
| FileTransfer.SnapshotShape | NPShop/source/ui/menus/filebrowser.cpp:1090-1107 | `Snapshot`: on success the first collection is the requested directory. Every collection lies at or below it, with a parent name that follows the same components, and each is an exact listing of its directory. `SnapshotExactlyOnce` adds that every directory below has exactly one collection |
| FileTransfer.SnapshotPreOrdered | NPShop/source/ui/menus/filebrowser.cpp:1090-1107 | when no directory lists a name twice, a directory's collection comes before the collection of anything below it (pre-order) |
| FileTransfer.SnapshotGrounded | NPShop/source/ui/menus/filebrowser.cpp:1090-1107 | each collection's parent name is the requested one or the name of a sub-directory of an earlier collection, so the walk reaches a directory only through its parent |
| FileTransfer.WellFormedReaches | NPShop/source/ui/menus/filebrowser.cpp:1090-1107 | in a consistent backend, every directory at or below `path` is reached from `path` by a chain of directories, each listed in the one before |
| FileTransfer.SnapshotCovers | NPShop/source/ui/menus/filebrowser.cpp:1090-1107 | a successful snapshot holds a collection for every directory reached from the requested one |
| FileTransfer.SnapshotDistinct | NPShop/source/ui/menus/filebrowser.cpp:1090-1107 | when no directory lists a name twice, no two collections of a snapshot share a path |
| FileTransfer.SnapshotExactlyOnce | NPShop/source/ui/menus/filebrowser.cpp:1090-1107 | `Snapshot` (`get_collections`) is complete and exact: every directory at or below the requested one has exactly one collection, and every collection is such a directory |
| FileTransfer.RunAppend | NPShop/source/ui/menus/filebrowser.cpp:1143-1151 | `Run`: two progress loops one after the other (`R_TRY` of each) behave as one loop over both step lists |
| FileTransfer.RunCancelled | NPShop/source/ui/menus/filebrowser.cpp:1122-1123 | `Run`: a cancellation before the first step stops the loop with nothing changed |
| FileTransfer.LenientRun | NPShop/source/ui/menus/filebrowser.cpp:940-956 | `Run`: a loop of directory creations and renames, whose results are ignored, ends early exactly when it is cancelled (also lines 1014-1024) |
| FileTransfer.EntrySteps | NPShop/source/ui/menus/filebrowser.cpp:1120-1141 | the deletion loop over one array takes one step per entry |
| FileTransfer.DeleteEntries | NPShop/source/ui/menus/filebrowser.cpp:1120-1141 | `delete_func` runs, in order, one deletion per entry that the mode allows, stopping at the first failure or cancellation |
| FileTransfer.DeleteAllCollections | NPShop/source/ui/menus/filebrowser.cpp:1117-1148 | the collections are visited from last to first, each one's files before its directories |
| FileTransfer.DeleteAllCollectionsWithSelected | NPShop/source/ui/menus/filebrowser.cpp:1150-1172 | the collections are deleted first, then the selected entries themselves |
| FileTransfer.TickNoCancel | NPShop/source/ui/menus/filebrowser.cpp:1122-1123 | with no cancellation ahead, the progress check succeeds, changes no backend and leaves no cancellation ahead |
| FileTransfer.DeleteOne | NPShop/source/ui/menus/filebrowser.cpp:1127-1137 | one `delete_func` step on an entry that is still there, does not fail, and (for a directory) has been emptied succeeds, and the backend then lacks exactly one more path |
| FileTransfer.RunEntries | NPShop/source/ui/menus/filebrowser.cpp:1120-1141 | the deletion loop over entries that can go one after another succeeds, with no cancellation, and removes exactly their paths |
| FileTransfer.RunLastCollection | NPShop/source/ui/menus/filebrowser.cpp:1117-1148 | the last collection of a deletable plan is deleted first and successfully, and what is left is still a deletable plan |
| FileTransfer.RunDeleteSteps | NPShop/source/ui/menus/filebrowser.cpp:1117-1148 | deleting a deletable plan back to front, with no cancellation, succeeds and removes exactly the entries of its collections (`Removed`); every directory is empty when its turn comes |
| FileTransfer.CollectionFacts | NPShop/source/ui/menus/filebrowser.cpp:1065-1088 | a collection read with both files and directories lists each entry of its directory once, each with its kind |
| FileTransfer.SnapshotPlan | NPShop/source/ui/menus/filebrowser.cpp:1090-1148 | a successful snapshot of a consistent backend with no failing path below `path` is a deletable plan: each directory's contents are deleted by a later collection |
| FileTransfer.SnapshotRemoved | NPShop/source/ui/menus/filebrowser.cpp:1090-1148 | the entries a snapshot's collections hold are exactly the paths strictly below `path` |
| FileTransfer.DeleteSnapshotSucceeds | NPShop/source/ui/menus/filebrowser.cpp:1090-1148 | `DeleteAllCollections` over `get_collections(path)`, with no cancellation and no failing path below, reports success. Exactly everything below `path` is removed, and `path` is then an empty directory, so no `DeleteDirectory` met a directory that was not empty |
| FileTransfer.DeleteStepsChildrenFirst | NPShop/source/ui/menus/filebrowser.cpp:1117-1148 | deleting a pre-ordered snapshot back to front removes every directory only after every deletion below it; that every such deletion succeeds is `DeleteSnapshotSucceeds` |
| FileTransfer.WithSelectedChildrenFirst | NPShop/source/ui/menus/filebrowser.cpp:1150-1172 | the order still holds with the selected entries deleted last, when every collection lies below the selection's directory |
| FileCommands.CollectSelected | NPShop/source/ui/menus/filebrowser.cpp:896-906 | the scan loop of both commands checks for cancellation before each selected entry and appends each selected directory's snapshot, stopping at the first error (`Gather`) (also lines 978-988) |
| FileCommands.GatherReads | NPShop/source/ui/menus/filebrowser.cpp:896-906 | the scan only reads: every backend is as it was |
| FileCommands.GatherShape | NPShop/source/ui/menus/filebrowser.cpp:896-906 | every gathered collection lies below the selection's directory, under one of the selected names, with its path below that directory as its relative name. Each is an exact listing (also lines 1090-1107) |
| FileCommands.GatherGrounded | NPShop/source/ui/menus/filebrowser.cpp:978-988 | every gathered collection hangs from a selected directory or from a directory of an earlier collection (also lines 1090-1107) |
| FileCommands.GatherPreOrdered | NPShop/source/ui/menus/filebrowser.cpp:896-906 | with distinct names in the backend and in the selection, the gathered collections are in pre-order |
| FileCommands.OnDeleteCallback | NPShop/source/ui/menus/filebrowser.cpp:860-916 | the delete command does what the function `Delete` describes: the direct single call, or the scan followed by `DeleteAllCollectionsWithSelected` |
| FileCommands.DeleteDirect | NPShop/source/ui/menus/filebrowser.cpp:864-889 | `Delete`: one selected file, or one selected directory reported empty, is deleted by exactly one backend call on the view's own backend. No cancellation answer is consumed |
| FileCommands.DeleteChildrenFirst | NPShop/source/ui/menus/filebrowser.cpp:890-915 | `Delete`: in the general case the scan changes nothing, the deletion runs the steps of `DeleteAllCollectionsWithSelected`, and every directory is removed only after everything below it (also lines 1150-1172) |
| FileCommands.GatherMissing | NPShop/source/ui/menus/filebrowser.cpp:896-906 | the scan of entries none of which is there either finds no directory to walk, with no cancellation consumed, or reports "not found" |
| FileCommands.EntriesMissingFail | NPShop/source/ui/menus/filebrowser.cpp:1120-1141 | a deletion loop whose entries are all gone fails at its first entry with "not found" |
| FileCommands.DeleteMissingFails | NPShop/source/ui/menus/filebrowser.cpp:860-916 | `Delete` of a non-empty selection none of whose entries is there any more reports "not found", whether it takes the direct path or the scan |
| FileCommands.EntriesRemoved | NPShop/source/ui/menus/filebrowser.cpp:1120-1141 | a deletion loop that succeeds leaves none of its entries behind; the backend only loses paths and keeps its failing ones |
| FileCommands.DeleteRemovesSelection | NPShop/source/ui/menus/filebrowser.cpp:860-916 | after a successful `Delete`, none of the selected entries is there |
| FileCommands.DeleteTwiceFails | NPShop/source/ui/menus/filebrowser.cpp:860-916 | deleting the same selection again after a successful `Delete` reports "not found" |
| FileCommands.OnPasteFile | NPShop/source/ui/menus/filebrowser.cpp:961-976 | `on_paste_file` does what `PasteFile` describes, given that the copy succeeded |
| FileCommands.PasteSelected | NPShop/source/ui/menus/filebrowser.cpp:990-1008 | the selection loop creates each selected directory and copies each selected file to `m_path/name`, in selection order |
| FileCommands.MakeDirsLoop | NPShop/source/ui/menus/filebrowser.cpp:1014-1024 | a collection's directories are created below `m_path/parent_name`, and their results are ignored |
| FileCommands.CopyFilesLoop | NPShop/source/ui/menus/filebrowser.cpp:1026-1037 | a collection's files are copied into `m_path/parent_name`, each handed to `on_paste_file` after its copy |
| FileCommands.PasteCollections | NPShop/source/ui/menus/filebrowser.cpp:1010-1038 | the collections are pasted in capture order, each one's directories before its files |
| FileCommands.RenameAll | NPShop/source/ui/menus/filebrowser.cpp:939-957 | the rename loop of a same-backend cut runs one rename per selected entry |
| FileCommands.OnPasteCallback | NPShop/source/ui/menus/filebrowser.cpp:918-1059 | the paste command does what the function `Paste` describes; `PasteSingleRename`, `PasteRenames` and `PasteGeneral` state what that is in each case |
| FileCommands.PasteSingleRename | NPShop/source/ui/menus/filebrowser.cpp:920-932 | `Paste`: a same-backend cut of one entry is a single rename to `<current dir>/<name>` on the view's backend. Its result is ignored, no cancellation check is made, and no other backend changes |
| FileCommands.RenameStepsAre | NPShop/source/ui/menus/filebrowser.cpp:940-956 | the cut's steps rename each selected entry, in order, to the same name under the view's directory |
| FileCommands.PasteRenames | NPShop/source/ui/menus/filebrowser.cpp:939-957 | `Paste`: a same-backend cut of several entries runs one rename per entry, in order. A failed rename does not stop it; only a cancellation does |
| FileCommands.PasteFileMoves | NPShop/source/ui/menus/filebrowser.cpp:961-1006 | a failed copy changes nothing, and a plain copy leaves the source as it was. A cut that succeeds leaves a file of the source's size at the target and deletes the source. The target carries the source's time stamp when the destination is not native |
| FileCommands.PasteEntriesCreateFirst | NPShop/source/ui/menus/filebrowser.cpp:990-1008 | the selection loop creates each selected directory under the view's directory, and copies every file into a directory that already exists |
| FileCommands.CollectionsCreate | NPShop/source/ui/menus/filebrowser.cpp:1010-1038 | pasted in capture order, the collections only ever copy into directories the view showed or the paste created before |
| FileCommands.CopyStepsCreateFirst | NPShop/source/ui/menus/filebrowser.cpp:990-1038 | every copy of the general paste lands in a directory that was created before it |
| FileCommands.PasteGeneral | NPShop/source/ui/menus/filebrowser.cpp:958-1049 | `Paste`: the general paste scans (reading only), then creates and copies everything. For a cut it then runs a dirs-only pass of `DeleteAllCollectionsWithSelected`. A scan error ends it; copies go into directories made first, and the removals go children first |
| FileNames.IsSamePathChars | NPShop/source/ui/menus/filebrowser.cpp:87-89 | two names match exactly when they have the same length and agree character by character once both are folded to lower case |
| FileNames.ListedFolded | NPShop/source/ui/menus/filebrowser.cpp:63-98 | for texts with no upper-case letter, such as the extension tables, matching one entry of a list is plain list membership |
| FileNames.IsExtension | NPShop/source/ui/menus/filebrowser.cpp:91-98 | the loop answers true exactly when some entry of the list matches the extension, ignoring case |
| FileNames.AllListed | NPShop/source/ui/menus/filebrowser.cpp:1354-1362 | `check_all_ext` answers true exactly when every selected extension is in the list |
| FileNames.IconOf | NPShop/source/ui/menus/filebrowser.cpp:258-286 | a directory gets the folder icon and nothing else does. A file gets the audio icon exactly when its extension is in the audio list. It gets the plain file icon exactly when no list and not "nro" match |
| FileNames.AudioAsWrittenMissesAac | NPShop/source/ui/menus/filebrowser.cpp:63-66 | with the audio table as written, neither an ".aac" nor an ".ac3" file gets the audio icon |
| FileNames.AudioListsAac | NPShop/source/ui/menus/filebrowser.cpp:63-66 | with the two entries separated, ".aac" and ".ac3" files get the audio icon, whatever their case |
| FileNames.LastIndexOf | NPShop/source/ui/menus/filebrowser.cpp:471 | `strrchr` finds the position of the last occurrence of the character, or reports that it does not occur |
| FileNames.SingleArchiveName | NPShop/source/ui/menus/filebrowser.cpp:469-480 | the archive for one entry is named after the entry up to its last '.', or after the whole name if it has no '.', followed by ".zip" |
| FileNames.ArchiveNameInjective | NPShop/source/ui/menus/filebrowser.cpp:484-488 | `ArchiveName`: the series "Archive.zip", "Archive (1).zip", … never repeats a name |
| FileNames.ArchiveNamesCount | NPShop/source/ui/menus/filebrowser.cpp:484-488 | the first n + 1 names of the series are n + 1 distinct names, and they are exactly those names |
| FileNames.FreeArchiveName | NPShop/source/ui/menus/filebrowser.cpp:484-494 | with finitely many names taken, one of the first (taken + 1) names of the series is free, so the search ends |
| FileNames.FindArchiveName | NPShop/source/ui/menus/filebrowser.cpp:484-494 | the search returns the first free name of the series, after at most as many tries as names are taken |
| FileNames.ExplicitArchiveName | NPShop/source/ui/menus/filebrowser.cpp:497-501 | a given output path ends with ".zip", and the suffix is added only when it was missing |
| FileNames.ExplicitArchiveNameIdempotent | NPShop/source/ui/menus/filebrowser.cpp:497-501 | adding the suffix a second time changes nothing |
| FileNames.ZipOutName | NPShop/source/ui/menus/filebrowser.cpp:467-501 | how the archive is named: after the one target, or the first free name of the series for several targets, or the given path with ".zip" ensured |
| FileNames.DropSlashesSpec | NPShop/source/ui/menus/filebrowser.cpp:533-536 | only leading '/' characters are removed, and what is left does not start with one |
| FileNames.StripRoot | NPShop/source/ui/menus/filebrowser.cpp:528-531 | the backend's root is cut off exactly when the name starts with it |
| FileNames.EntryNameInZip | NPShop/source/ui/menus/filebrowser.cpp:524-536 | an entry's name in the archive is its path with the current directory's length cut off, then the root, then the leading slashes |
| FileNames.EntryNameShape | NPShop/source/ui/menus/filebrowser.cpp:524-536 | an entry name never starts with '/' and is a suffix of the file's path |
| FileNames.UploadCursor.constructor | NPShop/source/ui/menus/filebrowser.cpp:624 | an upload starts at offset 0 with nothing handed over |
| FileNames.UploadCursor.Read | NPShop/source/ui/menus/filebrowser.cpp:630-645 | past the end of the file, or after a failed read, a request hands over 0 bytes; otherwise it hands over what was read. The offset is always the total handed over |
| FileNames.SumAppend | NPShop/source/ui/menus/filebrowser.cpp:643 | the bytes handed over in two stretches add up, so the offset after several requests is their total |
| FileView.SortKeyOrder | NPShop/source/ui/menus/filebrowser.cpp:777-797 | the size and name part of the comparator is "key strictly before" on a key built from size, order and the case-folded name |
| FileView.FolderKeyOrder | NPShop/source/ui/menus/filebrowser.cpp:768-775 | the folders-first part decides exactly when one side is a folder and the other is not, and defers otherwise |
| FileView.BeforeIsKeyLess | NPShop/source/ui/menus/filebrowser.cpp:755-800 | the whole comparator, with hidden-last and folders-first, is "key strictly before", so it is a strict weak order that `std::sort` may use |
| FileView.ShownOfSpec | NPShop/source/ui/menus/filebrowser.cpp:726-734 | the index list of entries on show holds exactly the entries whose name does not start with '.', each once, in increasing order |
| FileView.ShownOfBound | NPShop/source/ui/menus/filebrowser.cpp:726-734 | that list only names positions of the listing |
| FileView.CountSelectedUpdate | NPShop/source/ui/menus/filebrowser.cpp:119-137 | changing one entry moves the number of selected entries by what its mark did |
| FileView.MarkAllSpec | NPShop/source/ui/menus/filebrowser.cpp:117-128 | marking the entries at given positions marks exactly those and changes nothing but marks |
| FileView.Cleared | NPShop/source/ui/menus/filebrowser.cpp:726-734 | `Scan` stores every entry of the listing, in order, unselected |
| FileView.FillStep | NPShop/source/ui/menus/filebrowser.cpp:726-734 | one more entry of the listing extends the stored entries and the every-entry list by one. It extends the on-show list only when the entry is not hidden, and the count stays 0 |
| FileView.FindName | NPShop/source/ui/menus/filebrowser.cpp:833-839 | the search finds the first row on show with the remembered name, or reports that no row has it |
| FileView.LastSlash | NPShop/source/ui/menus/filebrowser.cpp:175 | `find_last_of('/')` gives the position of the last '/' |
| FileView.BackFromChild | NPShop/source/ui/menus/filebrowser.cpp:141-184 | "Back" from a directory that "Open" entered returns to the directory it was entered from, or to the root for a top-level one |
| FileView.EmptyCoherent | NPShop/source/ui/menus/filebrowser.cpp:1181-1189 | a pane with nothing listed satisfies the pane's invariant on its lists |
| FileView.RemarkCoherent | NPShop/source/ui/menus/filebrowser.cpp:131-137 | re-marking an entry keeps the invariant once the count moves with the mark |
| FileView.SelectStep | NPShop/source/ui/menus/filebrowser.cpp:117-128 | one step of the select-all loop extends the marking by the next row on show and keeps the invariant. It changes nothing when the entry already had the mark |
| FileView.ShownMarkInvariant | NPShop/source/ui/menus/filebrowser.cpp:119-137 | marks do not change which entries are on show |
| FileView.FsView.constructor | NPShop/source/ui/menus/filebrowser.cpp:106 | a new pane has no backend, no entries, no rows on show and nothing remembered |
| FileView.FsView.SetIndex | NPShop/source/ui/menus/filebrowser.cpp:385-389 | the highlighted row is set, and row 0 also scrolls to the top |
| FileView.FsView.Sort | NPShop/source/ui/menus/filebrowser.cpp:748-810 | the rows on show are a permutation of the every-entry list or of the on-show list, as the show-hidden option chooses. No row should come before one listed ahead of it |
| FileView.FsView.Fill | NPShop/source/ui/menus/filebrowser.cpp:715-734 | the loop stores the listing unselected and fills the two index lists as described by `Cleared`, `Upto` and `ShownOf` |
| FileView.FsView.Search | NPShop/source/ui/menus/filebrowser.cpp:833-839 | the loop returns the first row with the name, or -1 |
| FileView.FsView.SetIndexFromLastFile | NPShop/source/ui/menus/filebrowser.cpp:830-858 | it highlights the first row with the remembered name, or row 0. The remembered scroll offset is kept when the row and the list length are unchanged; otherwise the offset is guessed from the row |
| FileView.FsView.Highlighted | NPShop/source/ui/menus/filebrowser.cpp:696-697 | a row is remembered exactly when the path is set and the list on show is not empty (also lines 814-815) |
| FileView.FsView.Remember | NPShop/source/ui/menus/filebrowser.cpp:696-699 | a scan that is not a walk up pushes the highlighted row, when the path is set and a row is on show, onto the rows to restore |
| FileView.FsView.Show | NPShop/source/ui/menus/filebrowser.cpp:715-737 | a successful scan stores the listing unselected, sorts the rows on show and highlights row 0 |
| FileView.FsView.Enter | NPShop/source/ui/menus/filebrowser.cpp:701-745 | after the row is remembered, the scan sets the path and empties the pane. A failed read leaves it empty with the rows to restore unchanged. A successful one shows the listing and, on a walk up with a row to restore, pops and restores it |
| FileView.FsView.ClearLists | NPShop/source/ui/menus/filebrowser.cpp:1182-1186 | emptying the index lists and the list on show of an emptied pane keeps the pane's invariant |
| FileView.FsView.Load | NPShop/source/ui/menus/filebrowser.cpp:715-745 | a successful read is shown sorted. A walk up with a row to restore then highlights that row again and pops it; otherwise row 0 stays highlighted |
| FileView.FsView.Restore | NPShop/source/ui/menus/filebrowser.cpp:740-743 | a walk up highlights the last remembered row again and pops it |
| FileView.FsView.Scan | NPShop/source/ui/menus/filebrowser.cpp:691-746 | a scan sets the path and clears the selection count. A failed read empties the pane. A successful one shows the listing sorted, pushes the highlighted row when going down, and pops and restores it when walking up. The pane's invariant holds throughout |
| FileView.FsView.ScanAsWritten | NPShop/source/ui/menus/filebrowser.cpp:701-713 | as written, a failed read empties the entries but keeps the rows on show, so a pane that showed rows no longer satisfies its invariant |
| FileView.FsView.SortAndFindLastFile | NPShop/source/ui/menus/filebrowser.cpp:812-828 | the path is kept. A rescan or a re-sort follows, and then the remembered name is highlighted again |
| FileView.FsView.Refresh | NPShop/source/ui/menus/filebrowser.cpp:818-823 | it either rescans the path, with a scan's guarantees, or only re-sorts, leaving the entries, the count and the rows to restore unchanged |
| FileView.FsView.Open | NPShop/source/ui/menus/filebrowser.cpp:141-150 | "Open" on a directory row scans that child directory and remembers the row. On an empty list or a file nothing changes |
| FileView.FsView.Back | NPShop/source/ui/menus/filebrowser.cpp:173-184 | "Back" scans the text before the last '/' as a walk up, or the root when that '/' is first, and restores the remembered row. At the root nothing changes |
| FileView.FsView.ToggleHighlighted | NPShop/source/ui/menus/filebrowser.cpp:130-138 | L2 flips the highlighted entry's mark and moves the count by one in the matching direction |
| FileView.FsView.SelectAll | NPShop/source/ui/menus/filebrowser.cpp:114-129 | L2 with R2 held gives every row on show the same mark: "selected" unless the count says all of them already are. The invariant is kept |
| FileView.FsView.Attach | NPShop/source/ui/menus/filebrowser.cpp:1181-1190 | switching backends stores the new path and entry and leaves an empty pane with no rows to restore and no selection |
| FileView.FsView.Switch | NPShop/source/ui/menus/filebrowser.cpp:1181-1214 | on another backend the pane is emptied and forgets its rows to restore. With focus it then scans the new path, or the root when that is empty |
| FileView.FsView.SetFs | NPShop/source/ui/menus/filebrowser.cpp:1174-1215 | the same backend (root and type) changes nothing. Another one empties the pane and forgets the rows to restore. A focused pane then scans the new path, or the backend's root when that path is empty |
| StoreFormat.UnframeFrame | NPShop/source/ui/menus/appstore.cpp:180-190 | a name put between a prefix and a suffix can be read back out of them |
| StoreFormat.FrameUnframe | NPShop/source/ui/menus/appstore.cpp:180-190 | a text read as a framed name is exactly that frame around that name |
| StoreFormat.PackageUrl | NPShop/source/ui/menus/appstore.cpp:153-177 | a default package URL always fits its buffer. When the full URL fits, it is exactly `<base>/packages/<name><file>` |
| StoreFormat.Override | NPShop/source/ui/menus/appstore.cpp:149-165 | the lookup in `BuildIconUrl` and `BuildBannerUrl`: a non-empty URL held for the package in the map wins; otherwise the default is used. The maps themselves are filled as `FiledAsWritten` describes |
| StoreFormat.IconUrlNamesPackage | NPShop/source/ui/menus/appstore.cpp:149-156 | `IconUrl`: without an override, and when it fits, the icon URL names exactly its package |
| StoreFormat.BannerUrlNamesPackage | NPShop/source/ui/menus/appstore.cpp:158-165 | `BannerUrl` (the first definition of `BuildBannerUrl`): without an override, and when it fits, the banner URL names exactly its package |
| StoreFormat.BannerDefinitions | NPShop/source/ui/menus/appstore.cpp:158-172 | the two definitions of `BuildBannerUrl` (`BannerUrl` and `BannerUrlSecond`) agree on a package without an override whose URL fits 256 bytes. They differ on every package whose override is not the default URL |
| StoreFormat.ManifestUrlNamesPackage | NPShop/source/ui/menus/appstore.cpp:174-178 | `ManifestUrl`: the manifest URL always fits its 256-byte buffer, and names exactly its package when the whole URL fits |
| StoreFormat.FiledAsWrittenKeys | NPShop/source/ui/menus/appstore.cpp:247-255 | as written, `from_json_hb` files a record's image or banner URL under the empty name, because `e.name` is still empty when the URL is filed. Filing a listing never adds a key other than the empty one |
| StoreFormat.FiledAsWrittenMissesNames | NPShop/source/ui/menus/appstore.cpp:247-255 | as written, no package with a non-empty name ever gets its listing's icon or banner URL: after the listing is read, `IconUrl` and `BannerUrl` always give the default |
| StoreFormat.FiledAsWrittenExample | NPShop/source/ui/menus/appstore.cpp:247-255 | a one-record listing with titleid `abc` and an image URL: as written `abc` keeps the default icon, while filed by name (`Filed`) it gets the listing's URL |
| StoreFormat.FiledLastWins | NPShop/source/ui/menus/appstore.cpp:247-259 | `Filed`, the corrected filing done after `e.name` is set: the map holds a record's URL under the record's name when no later record of that name gives one |
| StoreFormat.IconUrlFromListing | NPShop/source/ui/menus/appstore.cpp:149-156 | with the corrected filing, `IconUrl` of a record's name is that record's non-empty image URL when no later record of that name gives one (also lines 247-259) |
| StoreFormat.CacheImagePath | NPShop/source/ui/menus/appstore.cpp:180-190 | `BuildIconCachePath` and `BuildBannerCachePath`: a cached image is `<cache>/<dir>/<name>.png`, from which the name can be read back |
| StoreFormat.PackageCachePath | NPShop/source/ui/menus/appstore.cpp:201-203 | a package's directory is the shared package root followed by the name |
| StoreFormat.CachePathsDistinct | NPShop/source/ui/menus/appstore.cpp:180-190 | two packages never share a cached icon or banner, and an icon never lands on a banner |
| StoreFormat.PackageFilesDistinct | NPShop/source/ui/menus/appstore.cpp:201-215 | the info, manifest and feedback files of any packages are different files, and the info file names one package |
| StoreFormat.Segments | NPShop/source/ui/menus/appstore.cpp:310 | splitting at line feeds gives at least one piece |
| StoreFormat.EntriesOf | NPShop/source/ui/menus/appstore.cpp:310-318 | an entry comes from each piece longer than three characters, so there are never more entries than pieces |
| StoreFormat.ParseManifest | NPShop/source/ui/menus/appstore.cpp:308-320 | the loop keeps exactly the entries `Manifest` describes: the first character as the command, the text from position 3 as the path |
| StoreFormat.EntriesOfAppend | NPShop/source/ui/menus/appstore.cpp:310-318 | the lines of two parts give the entries of the two parts in order |
| StoreFormat.SegmentsRender | NPShop/source/ui/menus/appstore.cpp:310 | a written manifest splits into its lines followed by one empty piece |
| StoreFormat.EntriesOfLines | NPShop/source/ui/menus/appstore.cpp:310-318 | the lines of writable entries read back as those entries |
| StoreFormat.ManifestRoundTrip | NPShop/source/ui/menus/appstore.cpp:308-320 | parsing what the manifest writer lays out gives the same entries, for commands that are not line feeds and non-empty paths without line feeds |
| StoreFormat.GroupUncomma | NPShop/source/ui/menus/appstore.cpp:475-483 | removing the thousands separators from the grouped digits gives the digits back |
| StoreFormat.GroupShape | NPShop/source/ui/menus/appstore.cpp:475-483 | counting from the right, the grouped text has a separator at positions 3, 7, 11, … and nowhere else |
| StoreFormat.NatToStringLength | NPShop/source/ui/menus/appstore.cpp:476 | `std::to_string(n)` has at most b digits exactly when n < 10^b |
| StoreFormat.DigitsOf | NPShop/source/ui/menus/appstore.cpp:475-476 | a 32-bit count has between 1 and 10 digits and at most 9 exactly when it is below 10^9 |
| StoreFormat.AppDlToStrAsWritten | NPShop/source/ui/menus/appstore.cpp:475-483 | as written, the separators are always removable and counts below 10^9 are grouped correctly. A ten-digit count gets its first separator after four digits |
| StoreFormat.AsWrittenTenDigits | NPShop/source/ui/menus/appstore.cpp:475-483 | for every ten-digit count the as-written text differs from the correctly grouped one |
| StoreFormat.AsWrittenExample | NPShop/source/ui/menus/appstore.cpp:475-483 | 1234567890 is one such count: it is shown as "1234,567,890" |
| StoreFormat.AppDlToStr | NPShop/source/ui/menus/appstore.cpp:475-483 | with the offset growing by four each time, the result is the digits with a separator before every group of three, for every count |
| StoreFormat.CommaStep | NPShop/source/ui/menus/appstore.cpp:478-481 | one insertion before the last three digits not yet grouped keeps the whole text's grouping |
| StoreFormat.SearchFrom | NPShop/source/ui/menus/appstore.cpp:507-509 | `std::search` with the `toupper` comparison returns a position between the start and the end |
| StoreFormat.SearchFromSpec | NPShop/source/ui/menus/appstore.cpp:507-509 | the position found is the first match of the term ignoring ASCII case, or the end when there is none |
| StoreFormat.FindCaseInsensitiveSpec | NPShop/source/ui/menus/appstore.cpp:506-511 | the search succeeds exactly when the term occurs ignoring case at a position inside the text. An empty term therefore matches every non-empty text and not the empty one |
| StoreFormat.FindsInfix | NPShop/source/ui/menus/appstore.cpp:506-511 | a text contains every piece of itself, unless both are empty |
| StoreFormat.FindIgnoresCase | NPShop/source/ui/menus/appstore.cpp:506-511 | terms that differ only in ASCII case find the same texts |
| StoreFormat.Fnv1a32 | NPShop/source/ui/menus/appstore.cpp:371-375 | the loop computes the FNV-1a hash of the text, each round xor-ing the byte and multiplying modulo 2^32 |
| StoreFormat.FnvPrefix | NPShop/source/ui/menus/appstore.cpp:373 | the hash of one more character is one more round on the hash so far |
| StoreFormat.Fnv1aAppend | NPShop/source/ui/menus/appstore.cpp:371-375 | hashing a text in two parts: the rounds over the second part start from the hash of the first |
| StoreFormat.Fnv1aVectors | NPShop/source/ui/menus/appstore.cpp:371-375 | the FNV-1a 32-bit values of "" and "a" are the published 0x811c9dc5 and 0xe40c292c |
| StoreFormat.Clamp | NPShop/source/ui/menus/appstore.cpp:377 | `std::clamp` lands inside its bounds and leaves values inside them unchanged |
| StoreFormat.Channel | NPShop/source/ui/menus/appstore.cpp:377 | a colour channel is a byte, and it lies in [bias, bias + span) when that range fits in 0..255 |
| StoreFormat.CoverColours | NPShop/source/ui/menus/appstore.cpp:381-388 | the placeholder's background channels lie in 40..199 and its top channels in 120..254, whatever the title |
| AppStore.FilterIndex | NPShop/source/ui/menus/appstore.cpp:1226-1242 | each filter has its own slot among the eight index lists, and slot 0 is `All` (also line 1386) |
| AppStore.FilterIndexInjective | NPShop/source/ui/menus/appstore.cpp:1226-1242 | no two filters share a slot |
| AppStore.CategoryFilter | NPShop/source/ui/menus/appstore.cpp:1228-1242 | an entry's category list is never `All`; an unknown category goes to `Misc` |
| AppStore.Bucket | NPShop/source/ui/menus/appstore.cpp:1223-1242 | a filter's list only holds positions of the listing |
| AppStore.BucketSnoc | NPShop/source/ui/menus/appstore.cpp:1223-1242 | one more entry adds its position to a filter's list exactly when the filter admits it |
| AppStore.BucketSpec | NPShop/source/ui/menus/appstore.cpp:1223-1242 | a filter's list holds exactly the positions of the entries it admits, in increasing order |
| AppStore.BucketOnce | NPShop/source/ui/menus/appstore.cpp:1223-1242 | each admitted position occurs in the list exactly once |
| AppStore.RescanListsTwice | NPShop/source/ui/menus/appstore.cpp:1219-1242 | the lists are not cleared before the scan, so a second scan of the same listing lists every admitted entry twice |
| AppStore.OneCategory | NPShop/source/ui/menus/appstore.cpp:1226-1242 | every entry is listed under `All` and under exactly one category |
| AppStore.ListStep | NPShop/source/ui/menus/appstore.cpp:1226-1242 | the scan's step for one entry extends every one of the eight lists by exactly that entry's share |
| AppStore.ScanStatusSpec | NPShop/source/ui/menus/appstore.cpp:485-504 | `ScanStatus`: an entry is Installed exactly when its NRO is there (or it has none) and `info.json` has its version. It is Update when the versions differ. It is Local exactly when the NRO is there, there is no version and the entry is not filtered out (also lines 1249-1273) |
| AppStore.AtoiDigits | NPShop/source/ui/menus/appstore.cpp:1245-1247 | `Atoi`: `atoi` reads the leading digits of the text |
| AppStore.UpdatedNumOfDate | NPShop/source/ui/menus/appstore.cpp:1245-1247 | `UpdatedNum`: on a `DD/MM/YYYY` date the date number is `YYYYMMDD` read as a number |
| AppStore.UpdatedNumShort | NPShop/source/ui/menus/appstore.cpp:1245-1247 | `UpdatedNum`: a text shorter than six characters without digits gives date number 0 |
| AppStore.UpdatedAsWrittenTies | NPShop/source/ui/menus/appstore.cpp:289 | as written every listing entry's `updated` text is the three-byte em dash, so every scanned entry has date number 0 and the Updated sort ties them all (also lines 1245-1247) |
| AppStore.AtoiNoDigits | NPShop/source/ui/menus/appstore.cpp:1245-1247 | `atoi` of a text without digits is 0 |
| AppStore.UpdatedNumOrder | NPShop/source/ui/menus/appstore.cpp:1245-1247 | `UpdatedNum`: so the date number orders dates by year, then month, then day (also lines 1311-1318) |
| AppStore.ScannedAll | NPShop/source/ui/menus/appstore.cpp:1223-1277 | the scan keeps the number of entries |
| AppStore.SortKeyOrder | NPShop/source/ui/menus/appstore.cpp:1310-1345 | within one status the comparator is "key strictly before" on a key built from the sort measure, the order and the case-folded name |
| AppStore.BeforeIsKeyLess | NPShop/source/ui/menus/appstore.cpp:1293-1348 | the whole comparator, with Update first, then Installed, then Local, is "key strictly before", so it is a strict weak order |
| AppStore.SortedInOrder | NPShop/source/ui/menus/appstore.cpp:1354 | a list sorted by the entries' keys is in the comparator's order |
| AppStore.SortIndex | NPShop/source/ui/menus/appstore.cpp:1351 | each sort type has a position in the four-name table |
| AppStore.OrderIndex | NPShop/source/ui/menus/appstore.cpp:72-75 | each order has a position in the two-name table (also line 1351) |
| AppStore.SettingsText | NPShop/source/ui/menus/appstore.cpp:1351 | the settings line is 27 characters of fixed text plus the three names, with the sort name at its place |
| AppStore.SettingsLineAsWritten | NPShop/source/ui/menus/appstore.cpp:64-70 | with the name tables as written, only filter `All` with sort `Updated` is within the tables, and that line names the sort "Alphabetical" (also lines 1350-1352) |
| AppStore.SettingsLine | NPShop/source/ui/menus/appstore.cpp:1350-1352 | with tables that name every filter and sort, the line fits the 128-byte buffer and names the sort in effect |
| AppStore.SettingsLineMislabels | NPShop/source/ui/menus/appstore.cpp:64-70 | as written, the default setting is shown differently from what is in effect (also line 1351) |
| AppStore.Selected | NPShop/source/ui/menus/appstore.cpp:1400-1427 | a query's result only holds positions of the entries |
| AppStore.SelectedSpec | NPShop/source/ui/menus/appstore.cpp:1400-1427 | a query's result holds exactly the positions of the entries it finds, in increasing order |
| AppStore.AuthorViewHasSelf | NPShop/source/ui/menus/appstore.cpp:1418-1427 | the author view of an entry lists the entry itself exactly when its author is not empty |
| AppStore.EmptyAuthorView | NPShop/source/ui/menus/appstore.cpp:1418-1427 | with an empty author the author view lists every entry whose author is not empty |
| AppStore.Menu.constructor | NPShop/source/ui/menus/appstore.cpp:913 | before the scan the menu has no entries, eight empty lists, the stored settings and no search or author view |
| AppStore.Menu.SetIndex | NPShop/source/ui/menus/appstore.cpp:1197-1204 | the index is set, row 0 also scrolls to the top, and the counter shows the position from 1 and the list's length |
| AppStore.Menu.Sort | NPShop/source/ui/menus/appstore.cpp:1288-1355 | the shown list is reordered, as a permutation, into the comparator's order, and the settings line is set to the corrected `SettingsLine`, not the one-name tables of line 1351 (see "## Findings") |
| AppStore.Menu.ShowList | NPShop/source/ui/menus/appstore.cpp:1386-1388 | the common end of the three views: the given list is shown from the top, each entry once, sorted (also lines 1408-1410 and 1430-1432) |
| AppStore.Menu.SetFilter | NPShop/source/ui/menus/appstore.cpp:1382-1389 | leaves the search and author views and shows the chosen filter's list from the top, sorted |
| AppStore.Menu.Select | NPShop/source/ui/menus/appstore.cpp:1400-1405 | the loop collects exactly the entries the query finds |
| AppStore.Menu.SetSearch | NPShop/source/ui/menus/appstore.cpp:1391-1411 | remembers where the list was unless a search view is already open, then shows from the top the entries whose title, author or description contain the term |
| AppStore.Menu.SetAuthor | NPShop/source/ui/menus/appstore.cpp:1413-1433 | the same for the author of the highlighted entry, remembered unless an author view is already open |
| AppStore.Menu.ReturnTo | NPShop/source/ui/menus/appstore.cpp:929-944 | a remembered position is highlighted again and scrolled into view |
| AppStore.Menu.LeaveAuthor | NPShop/source/ui/menus/appstore.cpp:921-934 | B in the author view goes back to the search view if one was open, else to the filter list, at the position the author view was opened from |
| AppStore.Menu.LeaveSearch | NPShop/source/ui/menus/appstore.cpp:935-944 | B in the search view goes back to the filter list at the position the search started from |
| AppStore.Menu.Back | NPShop/source/ui/menus/appstore.cpp:920-948 | B leaves the author view first, then the search view, and asks to close the menu only when neither is open |
| AppStore.Menu.Classify | NPShop/source/ui/menus/appstore.cpp:1219-1277 | every entry is appended to `All` and to its category list, on top of what the lists held, and gets its date number and status |
| AppStore.Menu.ScanHomebrew | NPShop/source/ui/menus/appstore.cpp:1206-1286 | without the SD card only the entries are replaced. Otherwise they are classified and the filter's list is shown from the top, sorted |
| AppStore.Menu.ShowFilter | NPShop/source/ui/menus/appstore.cpp:1283-1285 | the end of the scan shows the filter's list from the top, sorted |
| AppStore.OptionsForSpec | NPShop/source/ui/menus/appstore.cpp:769-890 | `OptionsFor`: the page offers the base download exactly for entries not installed that have a base URL, and the latest update exactly for installed ones with an update URL. The update and DLC lists are offered exactly for installed entries. Launch is offered, last, exactly when there is an NRO. The page is empty in exactly one case |
| AppStore.EmptyOptionsExist | NPShop/source/ui/menus/appstore.cpp:769-891 | the scan can produce an entry whose page has no option (also lines 1249-1251) |
| AppStore.EntryMenu.constructor | NPShop/source/ui/menus/appstore.cpp:517 | the page starts with its entry, no options and no A action |
| AppStore.EntryMenu.SetIndex | NPShop/source/ui/menus/appstore.cpp:895-909 | the A action becomes the selected option, which must exist |
| AppStore.EntryMenu.UpdateOptionsAsWritten | NPShop/source/ui/menus/appstore.cpp:769-891 | as written, building the options ends with selecting the first, so it needs a non-empty list |
| AppStore.EntryMenu.UpdateOptions | NPShop/source/ui/menus/appstore.cpp:769-891 | the options are those of `OptionsFor`, and the first is selected only when there is one |
| AppStore.FindOpen | NPShop/source/ui/menus/appstore.cpp:833 | `find(" (")` gives a position within the text, or its end |
| AppStore.UpdateItemsSpec | NPShop/source/ui/menus/appstore.cpp:812-825 | `UpdateItems`: every item comes from a record with a file name and a URL, and every such record gives an item labelled with the name and version |
| AppStore.FindOpenAfter | NPShop/source/ui/menus/appstore.cpp:822-833 | in a label `<file> (<version>)` the first `" ("` is the one after the file name |
| AppStore.FindOpenNone | NPShop/source/ui/menus/appstore.cpp:833-834 | without `" ("` the search gives the end and nothing is cut |
| AppStore.LabelRoundTrip | NPShop/source/ui/menus/appstore.cpp:822-835 | `UpdateLabel` and `LabelFile`: the chosen update is saved under its own file name, whatever the version, when the name holds no `" ("` |
| AppCore.WithTopFocus | NPShop/source/app.cpp:470 | changing the top widget's focus keeps the stack's length (also lines 474 and 761) |
| AppCore.PushedSpec | NPShop/source/app.cpp:466-476 | `Pushed`: a push keeps the widgets below as they were and takes focus from the old top. The new widget goes on top with focus, so at most the top stays focused |
| AppCore.TrailingPops | NPShop/source/app.cpp:744-758 | at most the whole stack is popped |
| AppCore.AfterPopsSpec | NPShop/source/app.cpp:744-758 | the update leaves a prefix of the stack. Every widget removed had asked to be popped, and the new top, if any, had not |
| AppCore.UpdatedFocus | NPShop/source/app.cpp:760-762 | `Updated`: after the update focus is on the top alone, and the new top gains it when at least one widget was popped |
| AppCore.LastMenu | NPShop/source/app.cpp:479-483 | the search finds the topmost menu (not hidden, when drawing) or reports that there is none (also lines 773-780) |
| AppCore.MarkedToMenu | NPShop/source/app.cpp:478-486 | `PopToMenu` keeps the stack's length |
| AppCore.PopToMenuThenUpdate | NPShop/source/app.cpp:478-486 | after `PopToMenu` the next update brings the topmost menu back on top. With no menu it empties the stack, which ends the application (also lines 740-763) |
| AppCore.VisibleSpec | NPShop/source/app.cpp:784-795 | the widgets listed for a stretch of the stack are exactly those not hidden, bottom first |
| AppCore.DrawnSpec | NPShop/source/app.cpp:772-796 | `Drawn`: exactly the widgets not hidden from the topmost visible menu up are drawn, bottom first, starting with the menu. Nothing is drawn without a visible menu |
| AppCore.TouchStart | NPShop/source/app.cpp:707-710 | `NextTouch`: a touch starts only with exactly one contact, as a tap at that contact, and never with a click |
| AppCore.TouchClick | NPShop/source/app.cpp:705-727 | `NextTouch`: a click is reported exactly on the poll that sees the contacts released while the touch was a tap, and on that poll only |
| AppCore.TouchScroll | NPShop/source/app.cpp:711-719 | `NextTouch`: while touching, a move of more than 20 on either axis from where the touch started turns the tap into a scroll |
| AppCore.NextTouchCoherent | NPShop/source/app.cpp:700-728 | `NextTouch`: every poll keeps the touch state coherent: a scroll only while touching and never together with a tap. An ended scroll stays ended |
| AppCore.HexRun | NPShop/source/app.cpp:860 | `strtoul` reads the longest run of hex digits |
| AppCore.StrToU32 | NPShop/source/app.cpp:860-863 | `(u32)strtoul(s, &end, 16)` gives a 32-bit value, and it reports no number exactly when no hex digit follows the skipped white space, sign and prefix |
| AppCore.StrToU32Hex | NPShop/source/app.cpp:860 | hex digits alone are read as their value taken modulo 2^32 |
| AppCore.LoadElementColour | NPShop/source/app.cpp:850-874 | a colour needs the "0x" prefix and at least one digit, and its four channels are bytes |
| AppCore.HexValueAppend | NPShop/source/app.cpp:860 | reading two runs of digits one after the other is reading the first, shifted by the second's digits, plus the second |
| AppCore.Hex2Value | NPShop/source/app.cpp:860 | a byte written as two hex digits reads back as that byte |
| AppCore.HexColour | NPShop/source/app.cpp:860 | `RRGGBB` reads as the value 0xRRGGBB |
| AppCore.HexColourAlpha | NPShop/source/app.cpp:860 | `RRGGBBAA` reads as the value 0xRRGGBBAA |
| AppCore.ChannelsOf | NPShop/source/app.cpp:871 | the channels of 0xRRGGBBAA are its four bytes, high byte first |
| AppCore.LongColour | NPShop/source/app.cpp:866-871 | more than six digits worth c give the colour c as it is |
| AppCore.ShortColour | NPShop/source/app.cpp:866-871 | six digits or fewer worth c give the colour c with alpha 0xFF below it |
| AppCore.ColourRoundTrip | NPShop/source/app.cpp:850-874 | "0x" and six hex digits read back as those channels with alpha 0xFF |
| AppCore.AlphaRoundTrip | NPShop/source/app.cpp:850-874 | "0x" and eight hex digits read back as those channels, alpha included |
| AppCore.AlphaForced | NPShop/source/app.cpp:866-869 | `WithAlpha`: six digits or fewer after the prefix always give an opaque colour |
| AppCore.ColourRejects | NPShop/source/app.cpp:853-863 | there is no colour without the prefix, or without a hex digit after it |
| AppCore.LoadElement | NPShop/source/app.cpp:876-895 | values of one character or less give nothing. A colour-only entry never gets a texture, and a texture-only entry never gets a colour. A colour is only what `LoadElementColour` reads, and it wins whenever the type allows one |
| AppCore.MetaPrefix | NPShop/source/app.cpp:264-284 | the browse stops at the first entry outside `[meta]`, so the callback sees exactly the leading `[meta]` entries |
| AppCore.MetaOf | NPShop/source/app.cpp:262-282 | the meta filled in by the callback has no path yet |
| AppCore.LoadThemeMeta | NPShop/source/app.cpp:261-295 | on success the file exists, a name, an author and a version are set, and the path is recorded. On failure no path is recorded |
| AppCore.ApplyThemeValue | NPShop/source/app.cpp:323-341 | after a file is applied, a theme element has the file's last `[theme]` value for it, or keeps what it had before |
| AppCore.IsNoneCaseEq | NPShop/source/app.cpp:307 | the `strcasecmp(inherit, "none")` test is case-insensitive equality with "none" |
| AppCore.ParentMeta | NPShop/source/app.cpp:310-317 | the parent's meta always carries the inherited path, with or without a meta section of its own |
| AppCore.Chain | NPShop/source/app.cpp:297-347 | the files read number at most six, less the current depth, and end with the theme's own file. Without romfs nothing is read |
| AppCore.ChainStep | NPShop/source/app.cpp:301-321 | one level of the chain: the parent's chain when it is followed, then the theme's own file |
| AppCore.LoadStep | NPShop/source/app.cpp:297-347 | one level of loading: the followed parent is loaded first, then the theme's own `[theme]` keys are laid over it |
| AppCore.ApplyChainSnoc | NPShop/source/app.cpp:338-346 | `ApplyChain`: one more file of the chain is applied over what the earlier ones gave, when it opens |
| AppCore.ChainFollowed | NPShop/source/app.cpp:307-321 | one level of the chain result, when the parent is followed |
| AppCore.ChainStopped | NPShop/source/app.cpp:307-321 | one level of the chain result, when the parent is not followed |
| AppCore.LoadIsChain | NPShop/source/app.cpp:297-347 | `LoadThemeInternal` and `ApplyChain`: loading a theme is applying its chain of files in order, parents first |
| AppCore.ChildOverrides | NPShop/source/app.cpp:323-346 | the theme's own keys override everything it inherits |
| AppCore.InheritStops | NPShop/source/app.cpp:307 | a theme inheriting from itself or from "none", in any case, loads its own file alone |
| AppCore.InheritsBase | NPShop/source/app.cpp:300-303 | a top-level theme without `inherit` loads the base black theme right before its own file |
| AppCore.ParentBeforeChild | NPShop/source/app.cpp:307-321 | a followed parent's file is read right before the theme's own |
| AppCore.BaseFollowed | NPShop/source/app.cpp:300-307 | the base black theme a top-level theme defaults to is followed |
| AppCore.LoadedElements | NPShop/source/app.cpp:919-921 | every theme entry gets an element, and a name the files never set gets none |
| AppCore.LoadTheme | NPShop/source/app.cpp:907-923 | one element per theme entry. Without romfs no element loads. Colour entries never get a texture and texture entries never get a colour |
| AppCore.InstallEnabled | NPShop/source/app.cpp:586-592 | the emuMMC setting applies on an emuMMC, the sysMMC one otherwise (also lines 676-679) |
| AppCore.EmummcKinds | NPShop/source/app.cpp:676-689 | the partition and file layouts exclude each other, and together they are exactly the configurations with a Nintendo folder. A file path without one still counts as an emuMMC of neither layout |
| AppCore.ChooseSide | NPShop/source/app.cpp:1272-1304 | the chosen menu goes to the side chosen for |
| AppCore.ChooseSideDistinct | NPShop/source/app.cpp:1272-1304 | the two tabs stay different, and choosing the other tab's menu swaps the two |
| AppCore.App.constructor | NPShop/source/app.cpp:968-1001 | the application starts with no widgets, not quitting, the stored tab menus and no touch |
| AppCore.App.Push | NPShop/source/app.cpp:466-476 | pushing a widget changes the stack as `Pushed` describes |
| AppCore.App.Update | NPShop/source/app.cpp:740-763 | with nothing left after the pops the application quits with an empty stack; otherwise the stack is `Updated` |
| AppCore.App.PopToMenu | NPShop/source/app.cpp:478-486 | every widget above the topmost menu is marked to pop, and nothing else changes |
| AppCore.App.DrawOrder | NPShop/source/app.cpp:772-796 | the drawing loops visit exactly the widgets of `Drawn`, in its order |
| AppCore.App.Poll | NPShop/source/app.cpp:700-738 | the touch state moves as `NextTouch` describes, and the pad is read exactly when neither touching nor clicked |
| AppCore.App.SetLeftMenu | NPShop/source/app.cpp:1272-1287 | a different choice is stored, and the right tab takes the old left one if it held the choice. A restart prompt is pushed. The same choice changes nothing |
| AppCore.App.SetRightMenu | NPShop/source/app.cpp:1289-1304 | the same with the sides exchanged |
| AppCore.LastMenuAt | NPShop/source/app.cpp:479-485 | the loop in `PopToMenu` stops at the topmost menu |
| AppCore.LastVisibleMenuAt | NPShop/source/app.cpp:773-780 | the search in `Draw` stops at the topmost visible menu |
| Homebrew.Base | NPShop/source/ui/menus/homebrew.cpp:219-273 | a star sort falls through to a plain sort, and a plain sort is its own |
| Homebrew.SlashAt | NPShop/source/ui/menus/homebrew.cpp:27 | `strrchr` finds the last '/' of an NRO path |
| Homebrew.LastSlashUnique | NPShop/source/ui/menus/homebrew.cpp:27 | the '/' with no '/' after it is the one `strrchr` finds |
| Homebrew.StarPathShape | NPShop/source/ui/menus/homebrew.cpp:25-30 | `StarPath`: a star file lies in the NRO's own directory, and its name is '.', the NRO's file name, then ".star" |
| Homebrew.UnstarredAt | NPShop/source/ui/menus/homebrew.cpp:25-30 | `Unstarred`: a name after the last '/' of the form `.<name>.star` is the star file of `<name>` in that directory |
| Homebrew.StarPathRoundTrip | NPShop/source/ui/menus/homebrew.cpp:25-30 | `Unstarred` inverts `StarPath`: the NRO can be recovered from its star file |
| Homebrew.StarPathInjective | NPShop/source/ui/menus/homebrew.cpp:25-30 | `StarPath`: two NROs never share a star file |
| Homebrew.ToggledOnly | NPShop/source/ui/menus/homebrew.cpp:158-171 | `Toggled`: "Star" or "Unstar" on one entry flips its own star file and no other entry's |
| Homebrew.Refreshed | NPShop/source/ui/menus/homebrew.cpp:187-193 | reading the stars back keeps the number of entries and their paths |
| Homebrew.RefreshedToggled | NPShop/source/ui/menus/homebrew.cpp:158-193 | after toggling an entry's star and reading the stars back, exactly the entries with that path have their star flipped, and no path changes |
| Homebrew.Timestamp | NPShop/source/ui/menus/homebrew.cpp:228-235 | the time an entry is sorted by is the settings stamp, raised to the file's modification time when that is valid and later |
| Homebrew.NameTie | NPShop/source/ui/menus/homebrew.cpp:203-217 | entries that agree, ignoring case, on name, author and path are in no order either way |
| Homebrew.TextPartCmp | NPShop/source/ui/menus/homebrew.cpp:204-216 | one text part of the key compares as `strcasecmp`, reversed for ascending order |
| Homebrew.NameKeyOrder | NPShop/source/ui/menus/homebrew.cpp:203-217 | `name_cmp` is "key strictly before" on name, author and path. "Descending" keeps the names in ascending `strcasecmp` order |
| Homebrew.MeasureKeyOrder | NPShop/source/ui/menus/homebrew.cpp:237-260 | the update-time and size comparisons are "key strictly before", with `name_cmp` breaking ties |
| Homebrew.BaseKeyOrder | NPShop/source/ui/menus/homebrew.cpp:227-272 | the plain sorts are "key strictly before" |
| Homebrew.BeforeIsKeyLess | NPShop/source/ui/menus/homebrew.cpp:199-276 | the whole comparator, star fall-through included, is "key strictly before", so it is a strict weak order `std::sort` may use |
| Homebrew.BeforeStrict | NPShop/source/ui/menus/homebrew.cpp:199-276 | no entry comes before itself, and the order chains |
| Homebrew.SortedInOrder | NPShop/source/ui/menus/homebrew.cpp:284 | a list sorted by the entries' keys is in the comparator's order |
| Homebrew.StarredFirst | NPShop/source/ui/menus/homebrew.cpp:220-226 | in a star sort every starred entry is listed ahead of every unstarred one (also lines 246-252 and 263-269) |
| Homebrew.FirstWithPath | NPShop/source/ui/menus/homebrew.cpp:293-299 | the search finds the first position whose entry has the path, or the end |
| Homebrew.FirstWithPathListed | NPShop/source/ui/menus/homebrew.cpp:293-299 | a list that holds an entry finds its path |
| Homebrew.Restarred | NPShop/source/ui/menus/homebrew.cpp:187-193 | reading the stars back keeps the listing valid |
| Homebrew.SortedListingSpec | NPShop/source/ui/menus/homebrew.cpp:186-285 | `SortedListing` (`Shown` after `Restarred`): `Sort` reads the stars back in a star sort, permutes the chosen list into the comparator's order and shows it, and leaves the other index list alone |
| Homebrew.SortedListingValid | NPShop/source/ui/menus/homebrew.cpp:278-284 | the sorted listing is valid and shows as many entries as the chosen list holds |
| Homebrew.SelectionKept | NPShop/source/ui/menus/homebrew.cpp:278-299 | every entry of the chosen list is still shown after sorting, so its path is found again |
| Homebrew.Menu.constructor | NPShop/source/ui/menus/homebrew.cpp:51-65 | the menu starts over its listing with the stored settings, at the first entry, not dirty |
| Homebrew.Menu.SetIndex | NPShop/source/ui/menus/homebrew.cpp:152-184 | the index is set, and row 0 also scrolls to the top. The subheadings show the entry's path, its position from 1 and the list's length |
| Homebrew.Menu.RefreshStars | NPShop/source/ui/menus/homebrew.cpp:187-193 | the loop gives every entry the star flag of whether its star file exists, and changes nothing else |
| Homebrew.Menu.Sort | NPShop/source/ui/menus/homebrew.cpp:186-285 | the listing becomes `SortedListing`, which is valid and shows the chosen list |
| Homebrew.Menu.FindPath | NPShop/source/ui/menus/homebrew.cpp:293-299 | the loop returns the first position whose entry has the path, or -1 |
| Homebrew.Menu.Reselect | NPShop/source/ui/menus/homebrew.cpp:291-311 | the menu goes to the top, then to the first entry with the path when there is one, guessing its scroll offset |
| Homebrew.Menu.SortAndFindLastFile | NPShop/source/ui/menus/homebrew.cpp:287-312 | the menu sorts and then selects the first entry with the path selected before. When that entry is in the list shown, the same path is selected again |
| Homebrew.Menu.ToggleStar | NPShop/source/ui/menus/homebrew.cpp:158-171 | the selected entry's star file is created or deleted. The stars read back differ only in that entry's, the listing is re-sorted, and the same path stays selected |
| Homebrew.Menu.SetSort | NPShop/source/ui/menus/homebrew.cpp:357-360 | the sort is stored and the listing re-sorted, keeping the selection |
| Homebrew.Menu.SetOrder | NPShop/source/ui/menus/homebrew.cpp:362-365 | the order is stored and the listing re-sorted, keeping the selection |
| Homebrew.Menu.SetShowHidden | NPShop/source/ui/menus/homebrew.cpp:372-375 | the choice is stored and the other index list is shown, sorted, keeping the selection |
| Homebrew.Menu.SetLayout | NPShop/source/ui/menus/homebrew.cpp:326-370 | the layout is stored and the menu goes back to the first entry |
| Homebrew.Menu.Update | NPShop/source/ui/menus/homebrew.cpp:72-79 | a change signal marks the menu dirty and a dirty menu stays dirty. A dirty menu re-sorts and keeps the selection on every update; otherwise nothing changes |
| MainMenu.FirstNamed | NPShop/source/ui/menus/main_menu.cpp:136-165 | the search finds the first entry with the name, or reaches the end when none has it |
| MainMenu.MiscEntriesDistinct | NPShop/source/ui/menus/main_menu.cpp:51-75 | the five entries have different names and different menus, so a name picks one menu and a menu has one name |
| MainMenu.LookupSpec | NPShop/source/ui/menus/main_menu.cpp:136-165 | `Lookup`: a name finds a menu exactly when some entry has that name, and then it finds that entry's menu |
| MainMenu.FindMisc | NPShop/source/ui/menus/main_menu.cpp:136-165 | the loop over the entries gives the menu of the first entry with the name, or nothing |
| MainMenu.LeftChoiceNamed | NPShop/source/ui/menus/main_menu.cpp:133-145 | `LeftChoice`: the name the left tab reports always leads back to the left tab's menu, including the file browser fallback |
| MainMenu.CreateLeftSideMenu | NPShop/source/ui/menus/main_menu.cpp:133-145 | the left tab is the entry with the configured name, reported under that name; otherwise it is the file browser, reported as "FileBrowser" |
| MainMenu.RightChoiceAsWrittenDuplicates | NPShop/source/ui/menus/main_menu.cpp:52 | `RightChoiceAsWritten`: as written, "Appstore" on both sides mounts the store twice: the guard compares against "AppStore", which no entry is called (also lines 151-158) |
| MainMenu.RightAvoidsDuplicate | NPShop/source/ui/menus/main_menu.cpp:147-168 | `RightChoice`: with the guard comparing against the store's own name, the same menu configured on both sides is never mounted twice |
| MainMenu.RightChoiceNamed | NPShop/source/ui/menus/main_menu.cpp:161-165 | `RightChoice`: a right name that differs from the left one and names an entry gives that entry's menu, which differs from the left tab's |
| MainMenu.CreateRightSideMenu | NPShop/source/ui/menus/main_menu.cpp:147-168 | the right tab is the corrected `RightChoice`: a clashing name gives the store, or the file browser when the left tab is the store. Otherwise the entry named, or the store by default |
| MainMenu.Target | NPShop/source/ui/menus/main_menu.cpp:363-370 | L or R from the centre leads to a side, and from a side back to the centre; never to the tab already shown |
| MainMenu.ShoulderActions | NPShop/source/ui/menus/main_menu.cpp:380-394 | L is bound unless the left tab is shown, and R unless the right tab is. Each is labelled with the short title of the tab it leads to |
| MainMenu.Main.constructor | NPShop/source/ui/menus/main_menu.cpp:176 | the centre shows the games list and the side tabs are picked from the configured names, the right one by the corrected `RightChoice`, not the as-written test of lines 151-158 (see "## Findings"). Start, Select, Y and the L/R actions are installed and handed to the shown tab (also lines 242-245 and 327-338) |
| MainMenu.Main.AddOnLRPress | NPShop/source/ui/menus/main_menu.cpp:380-394 | the L and R actions that lead away from the shown tab are installed, and every other action is kept |
| MainMenu.Main.OnLRPress | NPShop/source/ui/menus/main_menu.cpp:363-378 | the tab shown becomes the target. From the centre the pressed button's action is dropped first. The L/R bindings stay correct, no other action changes, and all actions are handed to the new tab |
| MainMenu.Redirect | NPShop/source/ui/menus/main_menu.cpp:104-109 | an archive entry whose path contains "npshop.nro" is written to the running executable; any other path is kept |
| MainMenu.Extracted | NPShop/source/ui/menus/main_menu.cpp:104-110 | every entry is accepted and written to its redirected path. `found_exe` ends up set exactly when some entry's path names the application |
| MainMenu.ExtractedOnlyExe | NPShop/source/ui/menus/main_menu.cpp:104-110 | no extracted path names the application except the executable's own |
| MainMenu.ExtractedIdempotent | NPShop/source/ui/menus/main_menu.cpp:104-110 | redirecting the extracted paths again changes nothing |

## Left out

- Drawing, images, fonts, sounds and every floating-point computation: these are GPU and presentation work, not logic. Each `Draw` is modelled only by the choice of which widgets it covers.
- The network: downloads, uploads, the repository, manifest and update-list fetches, the device-code flow and its polling, and the update check against GitHub. Each is wall-clock I/O; where the program acts on a fetched result, that result is a parameter.
- JSON parsing with yyjson (the store listing, `info.json`, the update list and the device-code replies) calls a foreign library. Only the decisions taken on the parsed values are modelled, with those values as inputs.
- File contents, the clock and the console's services are parameters. A read that fails is `None`, and storage is a map whose operations may each fail.
- The archive library and the worker-thread transfers (`TransferZip`, `TransferUnzipAll`, `TransferPull`, the progress box's `CopyFile`): they are not visible, so each is one atomic step that may fail. For an update install only the extract callback is modelled.
- The progress box's worker thread, `UEvent` signalling and applet hooks are concurrent; cancellation is modelled only as a sequence of yes/no answers, one per check.
- Fixed-size path buffers: a path is an unbounded string. The model cuts text to a buffer only where the program formats into a sized buffer (`snprintf` in the INI reader, the URL builders and the store's settings line).
- The IEEE-754 and 32-bit details of `Poll`: coordinates are integers, and the `s32` casts are taken to be exact for the screen's coordinate range.
- `std::sort` is not stable and its order among equal elements is unspecified. The model's sort returns one particular sorted permutation, and every property proved holds for any sorted permutation.
- Scroll offsets are whole numbers of rows. The guess made when a row is re-highlighted after a sort is modelled; how the list scrolls while it is drawn is not.
- The widget focus calls are flags on the widget records; what a widget does on gaining or losing focus is not modelled.
- `IsActivated`/`SetActivated` in `NPShop/source/device_auth.cpp` (lines 248-256) only forward to the INI reader and writer with fixed names and are not separate members. The network half of that file is not part of this model.
- MiB/KiB display text and upload progress percentages are floating point and are not modelled.
- The store menu's `SortAndFindLastFile` and `OnLayoutChange` (`NPShop/source/ui/menus/appstore.cpp`, lines 1357-1380 and 1435-1438) follow the homebrew menu's versions, which are modelled; screenshots and the lazy loading of artwork are left out.
- In the homebrew menu the list of NROs is an input: the list of NROs is given to the menu. `has_star` is read for every entry of a star sort, as the program does; the lazy star lookup outside a sort is left out.
- The repeat timing of held buttons and the reading of the pad are left out: a poll is handed the pad's state.
- Opening files, the web browser, NRO launch, installation, hashing and the USB/MTP menu are platform actions; only the choice that leads to one is modelled.
- The file browser's other commands (rename by keyboard, new folder, extract, install and the context sidebars) are outside the modelled core.
- The main menu's focus hand-off, its `Update`/`Draw` delegation to the tabs and the loop over the update's path table (which only logs) are left out.
- Indexing the highlighted entry of an empty list (`GetEntry` in the store menu, before `SetAuthor`) is undefined in the program, so `AppStore.Menu.SetAuthor` requires a highlighted row.
- A path without '/' makes `GenerateStarPath` use a null `strrchr` result, which is undefined, so `Homebrew.StarPath` requires a '/' in the path (every scanned NRO path has one).
- FileView.FsView.SortAndFindLastFile: when it only sorts and no row was highlighted, it promises only that the index lists stay consistent and the path is kept, because the program then skips the re-selection.
- Homebrew: the comparator's author and path tie-breaks use `strcasecmp`, which the model takes as byte-wise after ASCII case folding.
- DeviceAuthIni.Puts: a write that fails part-way is modelled as a write that leaves the file empty, because the file is opened for writing (truncated) before any line is written and the model does not track partial contents.
- FileView.FsView.ToggleHighlighted: the L2 handler first calls `m_menu->ResetSelection()` when a stash exists (`NPShop/source/ui/menus/filebrowser.cpp`, lines 108-111). The stash belongs to the browser menu, whose `ResetSelection` is not part of this model, so the view's own selection is all that is modelled.
- FileView.FsView.SelectAll: the same `ResetSelection` call before selecting all is not modelled, for the same reason.
- Homebrew.Menu.SetIndex: requires a position inside the list shown, because it reads `GetEntry().path` for the subheading (`NPShop/source/ui/menus/homebrew.cpp`, line 182), which indexes the list at that position; on an empty list that read is out of range.
- Homebrew.Menu.SortAndFindLastFile: requires a highlighted row and a non-empty list after the sort, because it reads `GetEntry()` before sorting and calls `SetIndex(0)` after it (lines 287-290). It also requires a positive row count, which the scroll guess divides by (line 305); the list always has one.
- Homebrew.Menu.ToggleStar: requires the same as `SortAndFindLastFile`, which it ends with, and reads the highlighted entry first.
- Homebrew.Menu.SetSort: requires the same as `SortAndFindLastFile`, which it ends with.
- Homebrew.Menu.SetOrder: requires the same as `SortAndFindLastFile`, which it ends with.
- Homebrew.Menu.SetShowHidden: requires the same as `SortAndFindLastFile` for the list it switches to.
- Homebrew.Menu.Update: requires the same as `SortAndFindLastFile`, but only when the menu is or becomes dirty and so re-sorts.
- `BuildBannerUrl` has two definitions in `NPShop/source/ui/menus/appstore.cpp` (lines 158-165 and 168-172), both inside the anonymous namespace that opens at line 37 and closes at line 513. With one signature the two cannot coexist, so the file does not compile as written. `StoreFormat.BannerUrl` models the first, which has the listing lookup and a 512-byte buffer; the second is `StoreFormat.BannerUrlSecond`, and `StoreFormat.BannerDefinitions` states where the two differ.
- AppStore.UpdatedNum: the only value `updated` is given is the three-byte em dash (appstore.cpp:289), so `atoi(e.updated.c_str() + 6)` at line 1247 reads past the string's end, which is undefined; the model reads an empty text there (`Text.From`), which gives 0.

## Findings

| source | as written | input that shows it | evidently intended | confidence | as-written member | corrected member |
|---|---|---|---|---|---|---|
| NPShop/source/ui/menus/filebrowser.cpp:63-66 | a comma is missing between "aac" and "ac3" in the audio table, so the two literals join into the single extension "aacac3" | a file `song.aac` or `song.ac3` gets the plain file icon | "aac" and "ac3" are two audio extensions | not executed | FileNames.AudioAsWrittenMissesAac | FileNames.AudioListsAac |
| NPShop/source/ui/menus/filebrowser.cpp:701-713 | when the directory cannot be opened or read, `Scan` empties `m_entries` but leaves the index lists and the list on show | a pane showing rows rescans a directory whose read fails: the list on show still holds positions of entries that are gone | the failure path empties the index lists and the list on show too | not executed | FileView.FsView.ScanAsWritten | FileView.FsView.Scan |
| NPShop/source/ui/menus/appstore.cpp:475-483 | the insertion offset grows by one more each time (3, then 4, then 5) instead of by 4 each time | 1234567890 is shown as "1234,567,890" | "1,234,567,890", a separator before every group of three digits | not executed | StoreFormat.AppDlToStrAsWritten | StoreFormat.AppDlToStr |
| NPShop/source/ui/menus/appstore.cpp:891-897 | `UpdateOptions` always ends with `SetIndex(0)`, which reads `m_options[0]` | an entry not on the card and with no base URL and no NRO (`AppStore.EmptyOptionsExist`) has no option, so the read is out of range | select the first option only when there is one | not executed | AppStore.EntryMenu.UpdateOptionsAsWritten | AppStore.EntryMenu.UpdateOptions |
| NPShop/source/ui/menus/appstore.cpp:64-70 | the filter and sort name tables used for the settings line (formatted at lines 1350-1352) hold one name each, and the sort table's one name is "Alphabetical" | the default setting (filter All, sort Updated) is shown as "Alphabetical"; any other filter or sort reads past the end of its table | one name per filter and per sort, as the options sidebar lists them | not executed | AppStore.SettingsLineAsWritten | AppStore.SettingsLine |
| NPShop/source/ui/menus/main_menu.cpp:151-158 | the duplicate test compares the left name with "AppStore", but the store's entry is named "Appstore" (line 52) | "Appstore" configured on both sides mounts the store twice | compare with the store entry's own name, so a duplicate store falls back to the file browser | not executed | MainMenu.RightChoiceAsWrittenDuplicates | MainMenu.RightChoice |
| NPShop/source/ui/menus/appstore.cpp:247-255 | `from_json_hb` files the record's `image` and `banner` URLs under `e.name` before `e.name` is set (line 255), so every URL is filed under the empty name | a listing record with `titleid` "abc" and an image URL: `abc` still gets the default icon URL (`StoreFormat.FiledAsWrittenExample`) | file the URLs after `e.name` is set, under the record's own name | not executed | StoreFormat.FiledAsWrittenMissesNames | StoreFormat.IconUrlFromListing |
| NPShop/source/ui/menus/appstore.cpp:158-172 | `BuildBannerUrl` is defined twice with the same signature in the same anonymous namespace, so the two definitions cannot coexist and the file does not compile as written: one has the listing lookup and a 512-byte buffer, the other has no lookup and a 256-byte buffer | a package whose listing gives a banner URL other than the default: the two definitions give different URLs | one definition, with the lookup `BuildIconUrl` also has | not executed | StoreFormat.BannerDefinitions | StoreFormat.BannerUrlNamesPackage |
| NPShop/source/ui/menus/appstore.cpp:289, 1245-1247 | the only value `updated` is given is "—", three bytes, and the date number reads `atoi` at offsets 0, 3 and 6, so offset 6 lies past the end (undefined) and every entry gets date number 0 | any listing entry: sorting by Updated ties all entries (`AppStore.UpdatedAsWrittenTies`) | `updated` holds a `DD/MM/YYYY` date, whose number `YYYYMMDD` orders by date | not executed | AppStore.UpdatedAsWrittenTies | AppStore.UpdatedNumOrder |
