# Nimble Commander core, modelled in Dafny

This project models five parts of the Nimble Commander file manager and proves
properties of the model:

- **Terminal screen** (`Term.dfy`, module `TermScreen`):
  - the 17 screen colours and the 5-bit colour fields of a cell;
  - grid positions (`ScreenPoint`) and their order;
  - the `ScreenBuffer` grid: on-screen rows, a growing back screen on one signed line-number axis, wrapped flags, the erase character, the occupied-line query, the row-major screen dump and the single snapshot slot.
- **Terminal diagnostics** (`TermInput.dfy`, module `TermInput`):
  - `FormatRawInput`, which escapes control bytes as `\xHH` for log lines;
  - the rendering of a command's payload and its one-line `VerboseDescription`.
- **Panel location persistence** (`Persistency.dfy`, module `PanelPersistency`):
  - a `Location`, a root-first stack of VFS host descriptors plus a directory path;
  - its JSON encoder and validating decoder, with their round trip;
  - the location of a live host chain;
  - the footprint string used for hashing;
  - both readable-path builders.
- **VFS instance bookkeeping** (`Instances.dfy`, module `VfsInstances`):
  - the manager's table of `Info` records: id, parent id, configuration, promise count and whether the host is still alive;
  - the reference-counting `Promise` handles;
  - counting up and down, with erasure and the cascade to the parent;
  - the sweep of dead records, lookups, title composition and the registration of a new host.
- **Small helpers** (`Helpers.dfy`, module `PanelHelpers`):
  - the persisted quick-search key modifier;
  - the equality of volume statistics;
  - dynamic UTIs and the extension-to-UTI cache.

`Base.dfy` holds what the modules share: `Option`, `byte`, `uint64`, a prefix test and one lemma about concatenation.

The model takes the form of the code it follows:

- Objects whose fields change in place are classes with `modifies` clauses: `ScreenBuffer`, `InstanceManager`, `Promise` and `UTIDatabase`.
- The source's loops are methods with loop invariants. Each is proved against a specification function, and the properties are proved about that function as lemmas.
- Pure code is datatypes, functions and lemmas.

Calls into code outside the model are parameters. These are the connections manager's uuid lookup, the system's UTI lookup and the liveness of a host.

## Model

| member | source | states |
|---|---|---|
| TermScreen.ColorIndex | Term/include/Term/ScreenBuffer.h:7-25 | every colour index is at most 16 and fits a 5-bit field; 16 is exactly `Default` |
| TermScreen.ColorIndexInjective | Term/include/Term/ScreenBuffer.h:7-25 | no two colours share an index |
| TermScreen.DefaultEraseChar | Term/include/Term/ScreenBuffer.h:89-91 | the default erase character has no letter, default colours and no attribute bits |
| TermScreen.PointOrderIsLexicographic | Term/include/Term/ScreenBuffer.h:34-37 | `<` and `<=`, written as negations of `>=` and `>`, are the lexicographic order on (y, x), and are `>`/`>=` with the operands swapped |
| TermScreen.PointTrichotomy | Term/include/Term/ScreenBuffer.h:34-38 | for any two points exactly one of `<`, `==`, `>` holds |
| TermScreen.PointEqualityIsValueEquality | Term/include/Term/ScreenBuffer.h:38-39 | `==` is equality of both coordinates and `!=` is its negation |
| TermScreen.PointOrderTransitive | Term/include/Term/ScreenBuffer.h:36 | `<` is transitive |
| TermScreen.Filled | Term/include/Term/ScreenBuffer.h:62 | a grid of `height` rows of `width` cells, every cell the given character |
| TermScreen.OccupiedChars | Term/include/Term/ScreenBuffer.h:113-114 | the length of a line up to its last cell with a non-zero letter: every later cell is blank, and the cell before that length is not |
| TermScreen.HasOccupiedCharsIffOccupiedLength | Term/include/Term/ScreenBuffer.h:113-117 | a line has an occupied cell iff its occupied length is positive |
| TermScreen.RenderLine | Term/include/Term/ScreenBuffer.h:104-105 | a line is rendered cell by cell, a blank cell as a space |
| TermScreen.DumpRowsLength | Term/tests/Term_IT.cpp:12-22 | a dump of a width × height grid has exactly width × height characters |
| TermScreen.DumpRowsAt | Term/tests/Term_IT.cpp:12-22 | cell (x, y) is character y × width + x of the dump |
| TermScreen.DumpRowsLayout | Term/tests/Term_IT.cpp:279-295 | the dump is row-major with width × height characters |
| TermScreen.CleanScreenDump | Term/tests/Term_IT.cpp:12-22 | a clean screen dumps as width × height spaces |
| TermScreen.ScreenBuffer.constructor | Term/include/Term/ScreenBuffer.h:62-66 | a clean width × height screen with no wrapped lines, an empty back screen, the default erase character and no snapshot |
| TermScreen.ScreenBuffer.LineFromNo | Term/include/Term/ScreenBuffer.h:68-80 | a line exists exactly for numbers in [-BackScreenLines(), -1] and [0, Height()); -1 is the most recent back-screen line; an on-screen line has Width() cells; any other number gives the null range |
| TermScreen.ScreenBuffer.LineWrapped | Term/include/Term/ScreenBuffer.h:86 | the wrapped flag is false for a number that names no line |
| TermScreen.ScreenBuffer.SetLineWrapped | Term/include/Term/ScreenBuffer.h:87 | sets the flag of one line, leaves every other line's flag and all cells unchanged, and ignores a number that names no line |
| TermScreen.ScreenBuffer.FeedBackscreen | Term/include/Term/ScreenBuffer.h:84 | the fed line becomes line -1 with its flag; every older back-screen line moves one number down; the screen is unchanged |
| TermScreen.ScreenBuffer.SetEraseChar | Term/include/Term/ScreenBuffer.h:89-90 | `EraseChar()` returns the character set last |
| TermScreen.ScreenBuffer.OccupiedCharsOfLine | Term/include/Term/ScreenBuffer.h:116-117 | the occupied length of line `n`, and 0 for a number that names no line |
| TermScreen.ScreenBuffer.OccupiedOnScreenLines | Term/include/Term/ScreenBuffer.h:93-98 | None exactly when no on-screen row is occupied; otherwise a half-open [first, last) range whose first and last rows are occupied, with nothing occupied outside it |
| TermScreen.ScreenBuffer.DumpScreen | Term/include/Term/ScreenBuffer.h:104-105 | the on-screen grid, row-major, width × height characters |
| TermScreen.ScreenBuffer.MakeSnapshot | Term/include/Term/ScreenBuffer.h:108-109 | afterwards `HasSnapshot()` holds and the snapshot is the current grid with its size |
| TermScreen.ScreenBuffer.DropSnapshot | Term/include/Term/ScreenBuffer.h:108-111 | afterwards `HasSnapshot()` is false |
| TermScreen.ScreenBuffer.RevertToSnapshot | Term/include/Term/ScreenBuffer.h:110 | restores the grid from a snapshot of the same size; otherwise changes nothing |
| TermScreen.SnapshotRoundTrip | Term/include/Term/ScreenBuffer.h:108-111 | taking a snapshot and reverting to it leaves the grid as it was |
| TermInput.HexDigit | Term/source/Parser2.cpp:92-96 | an upper-case hexadecimal digit, never a control byte |
| TermInput.HexValue | Term/source/Parser2.cpp:92-96 | the inverse of `HexDigit` |
| TermInput.FormatRawInput | Term/source/Parser2.cpp:85-102 | the loop builds exactly `Formatted(input)`: control bytes (below 32, and 127) become `\xHH`, and every other byte is copied |
| TermInput.FormattedConcat | Term/source/Parser2.cpp:89-100 | formatting distributes over concatenation |
| TermInput.FormattedLength | Term/source/Parser2.cpp:87-101 | the output length is the input length plus 3 × the number of escaped bytes |
| TermInput.FormattedHasNoControl | Term/source/Parser2.cpp:91-98 | the output holds no control byte |
| TermInput.UnformattedFormatted | Term/source/Parser2.cpp:91-98 | for input without backslashes, reading the escapes back gives the input: nothing is lost |
| TermInput.NatToString | Term/source/Parser2.cpp:29-31 | decimal text, non-empty and all digits |
| TermInput.IntToString | Term/source/Parser2.cpp:28-29 | decimal text with a leading '-' when negative |
| TermInput.ParseIntToString | Term/source/Parser2.cpp:28-29 | the decimal text reads back as the number |
| TermInput.IntToStringInjective | Term/source/Parser2.cpp:28-29 | distinct numbers have distinct texts |
| TermInput.OptionalIntToStringInjective | Term/source/Parser2.cpp:36-39 | a missing coordinate ("none") never reads like a number |
| TermInput.PayloadToString | Term/source/Parser2.cpp:20-67 | the payload text is empty exactly for no payload and for an empty title |
| TermInput.VerboseDescription | Term/source/Parser2.cpp:69-77 | the description starts with the type name |
| TermInput.DescriptionOfBareCommand | Term/source/Parser2.cpp:69-77 | the description is the type name alone exactly when the payload renders as nothing |
| TermInput.ScrollingRegionRenderingInjective | Term/source/Parser2.cpp:49-52 | distinct scrolling regions, including the missing range ("range=none"), render as distinct texts |
| TermInput.CommaSplit | Term/source/Parser2.cpp:50-51 | "top,bottom" splits back uniquely |
| PanelPersistency.Find | NimbleCommander/States/FilePanels/PanelDataPersistency.cpp:218 | member lookup: None iff no member has the key, otherwise the value of the first member with it |
| PanelPersistency.CStr | NimbleCommander/States/FilePanels/PanelDataPersistency.cpp:222 | a stored string as `GetString()` hands it on: the longest prefix without a NUL, ending where the first NUL is, and the whole string exactly when it has no NUL |
| PanelPersistency.NativeIsNotNetwork | NimbleCommander/States/FilePanels/PanelDataPersistency.cpp:78-86 | a native location (no hosts) is not a network one, and a network location starts with a network host |
| PanelPersistency.EncodeAny | NimbleCommander/States/FilePanels/PanelDataPersistency.cpp:421-475 | every host object stores its kind's "type" value; a network host stores its whole uuid text and a junction host its whole junction |
| PanelPersistency.HostTypeValueNulFree | NimbleCommander/States/FilePanels/PanelDataPersistency.cpp:235 | every stored "type" value reads back whole through the NUL-cutting `string_view` |
| PanelPersistency.HostTypeValueDistinct | NimbleCommander/States/FilePanels/PanelDataPersistency.cpp:237-275 | the six "type" values differ exactly when the kinds of host differ, so the decoder tells them apart |
| PanelPersistency.EncodeHosts | NimbleCommander/States/FilePanels/PanelDataPersistency.cpp:199-203 | one JSON object per host, in order: entry i is the encoding of host i |
| PanelPersistency.LocationJsonShape | NimbleCommander/States/FilePanels/PanelDataPersistency.cpp:195-214 | the document always holds the whole path as a string, and holds "hosts_v1" exactly when there are hosts |
| PanelPersistency.LocationToJSON | NimbleCommander/States/FilePanels/PanelDataPersistency.cpp:195-214 | builds exactly the document of `LocationJson` |
| PanelPersistency.DecodeEntry | NimbleCommander/States/FilePanels/PanelDataPersistency.cpp:231-275 | a host the decoder appends always obeys the ordering rules and holds no NUL |
| PanelPersistency.WellOrderedAppend | NimbleCommander/States/FilePanels/PanelDataPersistency.cpp:243-274 | appending a host that fits keeps a stack well ordered |
| PanelPersistency.DecodeHosts | NimbleCommander/States/FilePanels/PanelDataPersistency.cpp:229-277 | decoded hosts extend what was decoded before, and the ordering rules are kept |
| PanelPersistency.DecodeLocation | NimbleCommander/States/FilePanels/PanelDataPersistency.cpp:216-280 | rejects a non-object and a missing or non-string path; the decoded path is the stored one cut at its first NUL; decoded hosts are well ordered and hold no NUL; no "hosts_v1" gives a native location |
| PanelPersistency.JSONToLocation | NimbleCommander/States/FilePanels/PanelDataPersistency.cpp:216-280 | the loop computes exactly `DecodeLocation` |
| PanelPersistency.DecodeHostsConcat | NimbleCommander/States/FilePanels/PanelDataPersistency.cpp:229-277 | decoding a concatenation decodes the first part and carries on from there |
| PanelPersistency.UntypedEntryRejects | NimbleCommander/States/FilePanels/PanelDataPersistency.cpp:233-234 | one entry without a string "type", anywhere, rejects the whole document |
| PanelPersistency.UnknownEntrySkipped | NimbleCommander/States/FilePanels/PanelDataPersistency.cpp:237-276 | an entry with an unknown "type" is skipped as if it were absent |
| PanelPersistency.DecodeEncodedEntry | NimbleCommander/States/FilePanels/PanelDataPersistency.cpp:237-275 | decoding an encoded host that fits gives it back with its strings cut at the first NUL, so unchanged when they hold none |
| PanelPersistency.DecodeEncodedHosts | NimbleCommander/States/FilePanels/PanelDataPersistency.cpp:229-277 | decoding encoded hosts appends them with their strings cut at the first NUL, whenever the result is well ordered |
| PanelPersistency.JsonRoundTrip | NimbleCommander/States/FilePanels/PanelDataPersistency.cpp:195-280 | a location whose hosts obey the ordering rules comes back from its JSON form with every string cut at its first NUL, and unchanged when no string holds a NUL |
| PanelPersistency.DecodedIsWellOrdered | NimbleCommander/States/FilePanels/PanelDataPersistency.cpp:216-280 | every decoded location is well ordered and NUL-free, and re-encodes to a document that decodes to it again |
| PanelPersistency.GetPathFromState | NimbleCommander/States/FilePanels/PanelDataPersistency.cpp:677-683 | the stored string path cut at its first NUL, or "" when there is none |
| PanelPersistency.PathFromStateAgrees | NimbleCommander/States/FilePanels/PanelDataPersistency.cpp:677-683 | the path read directly agrees with the decoder; read from an encoded location it is the path cut at its first NUL, so the path itself when it holds none |
| PanelPersistency.CutHost | NimbleCommander/States/FilePanels/PanelDataPersistency.cpp:249-274 | a host as it reads back: of the same kind, NUL-free, and equal to the original exactly when that held no NUL |
| PanelPersistency.CutLocation | NimbleCommander/States/FilePanels/PanelDataPersistency.cpp:222-274 | a location as it reads back: NUL-free, with as many hosts, and equal to the original exactly when that held no NUL |
| PanelPersistency.CutKeepsOrder | NimbleCommander/States/FilePanels/PanelDataPersistency.cpp:237-275 | cutting the strings never changes whether hosts obey the ordering rules |
| PanelPersistency.EncodeState | NimbleCommander/States/FilePanels/PanelDataPersistency.cpp:90-121 | a descriptor exists exactly for the known tags and for network hosts with a known connection; it keeps the junction or the uuid |
| PanelPersistency.EncodeChain | NimbleCommander/States/FilePanels/PanelDataPersistency.cpp:138-145 | None iff some host cannot be encoded; otherwise one descriptor per host, in order |
| PanelPersistency.HostChain | NimbleCommander/States/FilePanels/PanelDataPersistency.cpp:129-134 | the parent walk gives the host and its ancestors, leaf first |
| PanelPersistency.WithTrailingSlash | NimbleCommander/States/FilePanels/PanelDataPersistency.cpp:147-149 | the path ends in '/', and one is appended only when missing ("" becomes "/") |
| PanelPersistency.LocationOfPath | NimbleCommander/States/FilePanels/PanelDataPersistency.cpp:127-149 | a native host gives no hosts; any location found carries the path with its trailing '/' |
| PanelPersistency.EncodeReversed | NimbleCommander/States/FilePanels/PanelDataPersistency.cpp:136-145 | encoding the reversed chain succeeds iff every host can be encoded, and the descriptors then come in reverse order |
| PanelPersistency.LocationOfHosts | NimbleCommander/States/FilePanels/PanelDataPersistency.cpp:127-146 | otherwise the hosts are the chain root first, and the location exists iff every host of the chain can be encoded |
| PanelPersistency.EncodeLocation | NimbleCommander/States/FilePanels/PanelDataPersistency.cpp:123-152 | computes exactly `LocationOf` |
| PanelPersistency.NativeFSLocationIsNative | NimbleCommander/States/FilePanels/PanelDataPersistency.cpp:127-128 | a native host always gives a native location |
| PanelPersistency.VFSTagForNetworkConnection | NimbleCommander/States/FilePanels/PanelDataPersistency.cpp:282-292 | FTP, SFTP and Dropbox connections map to their own host tags, and only they do |
| PanelPersistency.MakeFootprintString | NimbleCommander/States/FilePanels/PanelDataPersistency.cpp:294-338 | the loop computes exactly `Footprint` |
| PanelPersistency.NativeFootprint | NimbleCommander/States/FilePanels/PanelDataPersistency.cpp:297-300 | no hosts gives the native tag, two bars and the path |
| PanelPersistency.LoneNativeFootprint | NimbleCommander/States/FilePanels/PanelDataPersistency.cpp:302-333 | a lone native host prints exactly like no host |
| PanelPersistency.FootprintSeparatesPaths | NimbleCommander/States/FilePanels/PanelDataPersistency.cpp:336 | the path comes last, so different paths on the same hosts never share a footprint |
| PanelPersistency.MakeVerbosePathString | NimbleCommander/States/FilePanels/PanelDataPersistency.cpp:345-366 | the loop computes exactly `VerbosePath` |
| PanelPersistency.NativeHostsAreSilent | NimbleCommander/States/FilePanels/PanelDataPersistency.cpp:348-362 | native hosts add nothing to the readable path |
| PanelPersistency.VerbosePathEndsWithPath | NimbleCommander/States/FilePanels/PanelDataPersistency.cpp:364 | the readable path ends with the location's path |
| PanelPersistency.VerbosePathOfHostAsWritten | NimbleCommander/States/FilePanels/PanelDataPersistency.cpp:368-385 | as written: undefined exactly when every junction and the directory are empty |
| PanelPersistency.VerbosePathOfHostEmptyIsUndefined | NimbleCommander/States/FilePanels/PanelDataPersistency.cpp:383 | a native root with an empty junction and an empty directory reaches `back()` on an empty string |
| PanelPersistency.VerbosePathOfHost | NimbleCommander/States/FilePanels/PanelDataPersistency.cpp:368-385 | corrected: always ends in '/', and agrees with the code wherever the code is defined |
| PanelPersistency.MakeVerbosePathStringOfHost | NimbleCommander/States/FilePanels/PanelDataPersistency.cpp:368-385 | the two loops compute exactly `VerbosePathOfHost` |
| PanelPersistency.JoinedJunctionsSplit | NimbleCommander/States/FilePanels/PanelDataPersistency.cpp:380-381 | the root's junction comes first in the joined text |
| VfsInstances.IndexOf | NimbleCommander/Core/VFSInstanceManager.cpp:279-285 | the first row with the id, or None iff no row has it |
| VfsInstances.IndexOfFinds | NimbleCommander/Core/VFSInstanceManager.cpp:279-285 | the lookup succeeds iff some info has the id |
| VfsInstances.IndexOfUnique | NimbleCommander/Core/VFSInstanceManager.cpp:279-285 | with increasing ids, the lookup of a row's id finds that row |
| VfsInstances.ChildCounted | NimbleCommander/Core/VFSInstanceManager.cpp:187-195 | an info in the table is counted as one child of the parent it names |
| VfsInstances.ParentHeldByChild | NimbleCommander/Core/VFSInstanceManager.cpp:187-195 | in a well-formed table the parent of every info is present, and its count covers all its children, so it is at least one |
| VfsInstances.Released | NimbleCommander/Core/VFSInstanceManager.cpp:227-259 | dropping one promise keeps the table well formed, keeps only ids it had, and keeps every info whose host is alive |
| VfsInstances.IncrementThenRelease | NimbleCommander/Core/VFSInstanceManager.cpp:217-259 | taking a promise and giving it back restores the table, unless the info would become dead |
| VfsInstances.IncrementedCanRelease | NimbleCommander/Core/VFSInstanceManager.cpp:217-225 | taking a promise never removes the right to give another back |
| VfsInstances.Swept | NimbleCommander/Core/VFSInstanceManager.cpp:294-298 | exactly the infos that are not dead (host gone and no promise) survive |
| VfsInstances.SweptKeeps | NimbleCommander/Core/VFSInstanceManager.cpp:290-309 | the sweep keeps the table well formed |
| VfsInstances.SweptKeepsOrder | NimbleCommander/Core/VFSInstanceManager.cpp:294-298 | survivors keep their order |
| VfsInstances.LinkedParent | NimbleCommander/Core/VFSInstanceManager.cpp:187-195 | a new info links to the requested parent iff it is in the table, and otherwise to 0 |
| VfsInstances.NewInfoValid | NimbleCommander/Core/VFSInstanceManager.cpp:184-199 | adding the new info, after bumping the parent, keeps the table valid with the next id |
| VfsInstances.ChildTitle | NimbleCommander/Core/VFSInstanceManager.cpp:444-463 | an info's title is its parent's title followed by its own verbose junction |
| VfsInstances.SelfCopyAssignAsWrittenLosesInfo | NimbleCommander/Core/VFSInstanceManager.cpp:41-48 | with the source's order, self-assignment of the last promise on an expired info erases it |
| VfsInstances.SelfCopyAssignKeepsTable | NimbleCommander/Core/VFSInstanceManager.cpp:41-48 | with acquire before release, self-assignment leaves the table unchanged |
| VfsInstances.IncrementedValid | NimbleCommander/Core/VFSInstanceManager.cpp:217-225 | taking a promise keeps the table valid |
| VfsInstances.ReleasedValid | NimbleCommander/Core/VFSInstanceManager.cpp:227-259 | giving a promise back keeps the table valid |
| VfsInstances.SweptValid | NimbleCommander/Core/VFSInstanceManager.cpp:290-309 | the sweep keeps the table valid |
| VfsInstances.DecrementKept | NimbleCommander/Core/VFSInstanceManager.cpp:236-239 | when the info stays, dropping a promise lowers its count by one and keeps the table valid |
| VfsInstances.EraseUnfold | NimbleCommander/Core/VFSInstanceManager.cpp:239-251 | when the last promise goes and the host is gone, the row is erased, then the parent's promise is given back |
| VfsInstances.InstanceManager.constructor | NimbleCommander/Core/VFSInstanceManager.cpp:197 | an empty, valid table whose first id is 1 |
| VfsInstances.InstanceManager.InfoFromID | NimbleCommander/Core/VFSInstanceManager.cpp:279-285 | the scan returns `IndexOf`: the first row with the id, or None |
| VfsInstances.InstanceManager.IncPromiseCount | NimbleCommander/Core/VFSInstanceManager.cpp:217-225 | one more promise on the info with the id; id 0 and unknown ids change nothing |
| VfsInstances.InstanceManager.DecPromiseCount | NimbleCommander/Core/VFSInstanceManager.cpp:227-259 | the table becomes `Released`; id 0 and unknown ids change nothing |
| VfsInstances.InstanceManager.ReleaseRow | NimbleCommander/Core/VFSInstanceManager.cpp:235-255 | the same once the info is found |
| VfsInstances.InstanceManager.DecrementRow | NimbleCommander/Core/VFSInstanceManager.cpp:236-239 | the count drops by one and nothing else changes |
| VfsInstances.InstanceManager.EraseRow | NimbleCommander/Core/VFSInstanceManager.cpp:239-252 | the row is erased and the parent's promise is given back |
| VfsInstances.InstanceManager.SweepDeadMemory | NimbleCommander/Core/VFSInstanceManager.cpp:290-309 | the table becomes `Swept`: dead infos are removed and the others keep their order |
| VfsInstances.InstanceManager.HostDestroyed | NimbleCommander/Core/VFSInstanceManager.cpp:323-326 | the destroyed host's info expires, then the dead infos are swept |
| VfsInstances.InstanceManager.SpawnPromiseFromInfo | NimbleCommander/Core/VFSInstanceManager.cpp:487-491 | the info's count goes up by exactly one, and the promise names it |
| VfsInstances.InstanceManager.GetVFSPromiseByPosition | NimbleCommander/Core/VFSInstanceManager.cpp:370-376 | a promise on the row at that position, or an empty promise (table unchanged) past the end |
| VfsInstances.InstanceManager.GetParentPromise | NimbleCommander/Core/VFSInstanceManager.cpp:378-394 | a promise on the parent info, or an empty one for an unset promise, a missing info or a root |
| VfsInstances.InstanceManager.GetTag | NimbleCommander/Core/VFSInstanceManager.cpp:396-410 | the tag of the promise's info; None (a null pointer) for an unset promise or a missing info |
| VfsInstances.InstanceManager.GetVerboseVFSTitle | NimbleCommander/Core/VFSInstanceManager.cpp:444-465 | the verbose junctions from the root down to the info, joined; "" for an unset promise or a broken chain |
| VfsInstances.InstanceManager.TameNewVFS | NimbleCommander/Core/VFSInstanceManager.cpp:184-199 | the parent's count goes up if it is in the table; a new info with the next id and one promise is appended; the id counter advances; the new id is above every old one |
| VfsInstances.Promise.Empty | NimbleCommander/Core/VFSInstanceManager.cpp:10-14 | a default promise names nothing and is false |
| VfsInstances.Promise.Make | NimbleCommander/Core/VFSInstanceManager.cpp:16-19 | names the id and the manager without counting |
| VfsInstances.Promise.Copy | NimbleCommander/Core/VFSInstanceManager.cpp:34-39 | equal to the source, and the named info gets one more promise |
| VfsInstances.Promise.Move | NimbleCommander/Core/VFSInstanceManager.cpp:26-32 | takes over the handle without counting and leaves the source empty |
| VfsInstances.Promise.Destroy | NimbleCommander/Core/VFSInstanceManager.cpp:21-24 | gives the promise back: the table becomes `Released` |
| VfsInstances.Promise.CopyAssign | NimbleCommander/Core/VFSInstanceManager.cpp:41-48 | adopts the other handle, taking its promise before giving back the old one (see Findings) |
| VfsInstances.Promise.MoveAssign | NimbleCommander/Core/VFSInstanceManager.cpp:50-58 | gives the old promise back, adopts the other handle and leaves the other empty (self-move leaves it empty too) |
| VfsInstances.Promise.Tag | NimbleCommander/Core/VFSInstanceManager.cpp:75-78 | "" without a manager, otherwise the manager's `GetTag` |
| VfsInstances.Promise.VerboseTitle | NimbleCommander/Core/VFSInstanceManager.cpp:85-88 | "" without a manager, otherwise the manager's title |
| PanelHelpers.KeyModifValue | Files/PanelController.h:22-28 | every modifier is persisted as a value in 0..4 |
| PanelHelpers.KeyModifFromInt | Files/PanelController.h:30-35 | 0..4 read back as the modifier with that value; anything else is `WithAlt` |
| PanelHelpers.KeyModifRoundTrip | Files/PanelController.h:22-35 | persisting a modifier and reading it back gives the same modifier |
| PanelHelpers.KeyModifIdempotent | Files/PanelController.h:30-35 | reading back a read-back value changes nothing |
| PanelHelpers.StatFSEqual | Files/VFSHost.h:24-30 | `==` holds iff all four fields are equal (value equality, so reflexive and symmetric) |
| PanelHelpers.StatFSNotEqual | Files/VFSHost.h:32-38 | `!=` is exactly the negation of `==` |
| PanelHelpers.IsDynamicUTI | Utility/source/UTIImpl.cpp:43-47 | dynamic exactly when the UTI starts with "dyn.a"; so a dynamic UTI starts "d", with "." at position 3 |
| PanelHelpers.DynamicUTIExtended | Utility/source/UTIImpl.cpp:43-47 | whatever follows the prefix, a dynamic UTI stays dynamic |
| PanelHelpers.RepeatedLookupAgrees | Utility/source/UTIImpl.cpp:18-29 | after an answer from the cache or the system, asking again gives the same answer from the cache |
| PanelHelpers.CacheOnlyGrows | Utility/source/UTIImpl.cpp:17-31 | after any run of calls, every cached entry is still there, unchanged |
| PanelHelpers.CachedAnswerIsSticky | Utility/source/UTIImpl.cpp:17-31 | once an extension is cached, every later call returns that string, whatever the system answers by then |
| PanelHelpers.UTIDatabase.constructor | Utility/source/UTIImpl.cpp:11 | the cache starts empty |
| PanelHelpers.UTIDatabase.UTIForExtension | Utility/source/UTIImpl.cpp:15-32 | a hit returns the cached string without asking the system; a miss the system answers is stored and returned; otherwise "" with the cache unchanged |

## Left out

- Locks, threads and observers are left out. These are the memory and alive-host locks, `FireObservers`, and `dispatch_to_background` in `DecPromiseCount`. The parent's count is given back at once, in the same call, instead of on a background queue.
- VfsInstances.InstanceManager.DecPromiseCount: requires that the caller holds a promise beyond those the child infos hold. The source only asserts that the count is positive. The extra bound keeps the invariant that an info's count covers the infos linked to it.
- Hosts are not modelled. A host's liveness (`m_WeakHost.expired()`) is the `alive` flag of an info, and the destruct callback is `HostDestroyed`. `SweepDeadReferences`, the alive-host registry, `EnrollAliveHost` and the reset of expired weak pointers after the sweep are left out.
- Only the new-info branch of `TameVFS` is modelled, as `TameNewVFS`. Also left out:
  - matching an already known host;
  - registering the parents first (the recursive `TameVFS(parent)`);
  - `GetOrRestoreVFS`, `RetrieveVFS` and the observers.
  `TameNewVFS` links to parent id 0 where the source asserts that the parent is known.
- `KnownVFSCount` is not a member. It returns the number of infos, which is `|memory|` in the model.
- VFSInstanceManager.h is not part of this model. The id counter's starting value (1) is chosen so that 0 can mean "no instance".
- The bodies of `ScreenBuffer` are not part of this model. The class follows the contracts in the header's comments. `ResizeScreen`, `DumpUnicodeString` and `DumpUTF16StringWithLayout` are left out because their behaviour is not stated there. A blank cell is taken to have letter 0.
- TermScreen.ScreenBuffer.RevertToSnapshot: does nothing when the snapshot's size differs from the screen's. The header does not say what happens in that case.
- The escape-sequence parser, the interpreter and `LogCommands` are left out; only their formatting helpers are modelled. Enum names produced by `magic_enum` are opaque strings.
- `uuid` values are their canonical text. The decoder's exception on malformed uuid text is left out, so the uuid/text conversion is taken to be a bijection.
- The network connections manager is a map from uuid to connection, passed as a parameter. `MakeConnectionPath` is the connection's `connectionPath`.
- `EncodeLocation`'s host chain is unbounded in the model. The source's buffer holds 32 hosts and throws beyond them.
- PanelPersistency.MakeVerbosePathStringOfHost: the host chain is unbounded. The source keeps it in a 32-slot array and writes past the end for a deeper chain, which is undefined behaviour; the model promises its result for chains of any depth.
- PanelPersistency.VerbosePathOfHost: the same 32-host bound of `MakeVerbosePathStringOfHost` is not modelled.
- PanelPersistency.DecodeEntry: an entry of "hosts_v1" that is not an object is rejected as lacking a string "type". The source calls rapidjson's `HasMember` on it, which rapidjson defines only for objects.
- PanelPersistency.UntypedEntryRejects: covers non-object entries only by that choice; for them the source's behaviour is undefined.
- TermScreen.ScreenBuffer.DumpScreen: a non-blank cell is dumped as its letter's code point, and the dump is a sequence of integers. `DumpScreenAsANSI` has no body in the header, so the encoding of the text and what happens to a cell's second letter, colours and attributes are not modelled.
- TermScreen.RenderCell: the rendering rule for a single cell described under `DumpScreen` is the model's own. Only the blank-as-space rule follows the terminal's integration-test fixtures, which show nothing but letters and blanks.
- `CreateVFSFromState`, `CreateVFSFromLocation`, `EncodeVFSPath`, `EncodeVFSHostInfo`, the footprint hash and host matching are left out. They create or inspect live hosts.
- PanelHelpers.UTIDatabase.UTIForExtension: models the system UTI lookup (including a failed string conversion) as a function parameter returning None when there is no answer. `IsDeclaredUTI` is a system query and is left out.
- PanelHelpers.KeyModifFromInt: takes an unbounded integer, not a 32-bit `int`. The clamp does not depend on the width.

## Findings

| source | as written | input that shows it | evidently intended | confidence | as-written member | corrected member |
|---|---|---|---|---|---|---|
| NimbleCommander/States/FilePanels/PanelDataPersistency.cpp:383 | `s.back()` is read before checking that `s` is non-empty | a native host whose verbose junction is "" with directory "" | an empty text becomes "/" | not executed | PanelPersistency.VerbosePathOfHostEmptyIsUndefined | PanelPersistency.VerbosePathOfHost |
| NimbleCommander/Core/VFSInstanceManager.cpp:41-48 | copy assignment gives the old promise back before taking the new one | `p = p` where `p` is the last promise on an info whose host is gone: the info is erased, and `p` then names an id that is no longer in the table | self-assignment changes nothing | not executed | VfsInstances.SelfCopyAssignAsWrittenLosesInfo | VfsInstances.SelfCopyAssignKeepsTable |
