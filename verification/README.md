# Verified models of the loader's data structures, formats and state machines

This project models the parts of the loader that hold data structures, file formats or long-lived
state, and proves what those parts are for.

- **Configuration store** (`Text`, `ConfigStore`, `ConfigFormat`, `ConfigFiles`, `LegacyRoundTrips`,
  `Iteration`, `EscapedValues`, `LibconfigRoundTrips`, `SaveCycles`, `LoadedSets`, `RootKeys`,
  `ConfigLines`, `WoplFiles`, `ConfigSave`): the linked list of keys and values, the two text formats with their line classifier, readers and writers, and the save on a device
  that may fail at any call. The list refines a map over every run; what comes back from each format, exactly;
  the exact condition under which a saved file keeps its format over any number of cycles, and what those
  cycles do to its values; what a failed save can leave behind, and for which reasons.
- **Picture atlas** (`AtlasTree`, `AtlasSurface`, `AtlasPixels`, `Atlas`): the splitting tree and the shared surface. A
  placement fails exactly when no free leaf is large enough, area is conserved, and every picture placed
  so far is intact while the rest of the surface is still zero.
- **Negative-lookup directory index** (`ArtIndexNames`, `ArtIndexProtocol`, `ArtIndexAnswers`): one owner thread
  and any number of invalidators, step by step. "Absent" is never wrong, under any interleaving, and without any
  it is said of every name whose hash was not listed.
- **App list** (`AppLookup`, `AppDedup`): the probing table finds what a linear scan finds; the in-place
  duplicate removal keeps exactly the legacy records and the first scanned record of every kind.
- **UTF-8 decoder** (`Utf8`): the table-driven automaton against section 4 of RFC 3629, and the encoding
  of section 3.
- **ZSO container** (`Ziso`, `ZisoRoundTrip`, `ZisoIndex`, `ZisoLimits`): compress and decompress over an abstract
  codec, the bytes of the file, and images that do not come back.
- **Cheat files** (`Cheats`, `CheatFiles`), **play history** (`PlayHistory`), **display setting** (`DisplaySetting`),
  **device pages** (`BdmPresence`) and the **boot slot search** (`BootResolver`).

The laws of the main operations are stated in the characters, bytes and numbers of their inputs and results, so
they hold the functions of the specification to account as well as the methods proved equal to them.

A C string is the sequence of characters before its NUL. Code that updates objects or arrays is a class
or a method over an array, proved equal to a function of the old contents; the laws are lemmas about
those functions. Devices, clocks, random draws, the sort and the codec are parameters or are left open.

Some places where the code does not do what its comments or names suggest, each with a lemma:

- Keys of 32 characters and more are stored cut and never found again (`ConfigStore.LongKeyNeverFound`).
- The libconfig writer escapes quotes and backslashes and the reader does not undo it, so every save and load
  escapes them once more. After nine of them such a value is its part in front of the first quote or backslash,
  filled up with backslashes to 255 characters (`EscapedValues.BackIff`, `SaveCycles.ValuesSettle`).
- A libconfig file whose first written line has no identifier for a name, or that has no root line at all,
  is read back as legacy; an empty first value makes this happen on the second save
  (`SaveCycles.LibconfigNeverFlipsIff`, `SaveCycles.FlipsOnSecondSave`).
- A legacy file is read back as libconfig when its first key ends in a blank and its first value in a semicolon
  (`SaveCycles.LegacyNeverFlipsIff`, `SaveCycles.LegacyFlips`). Keys that look like comments are lost when they
  come first in it, and blanks in front of a key and a carriage return behind a value are lost everywhere
  (`LegacyRoundTrips.LegacyKeepsAllIff`, `SaveCycles.CommentKeyIsLost`, `SaveCycles.BlankKeyIsTrimmed`).
- A libconfig file cannot give back a key that looks like a comment or a brace, has a colon in it or blanks around
  it, or is a name the reader changes (`RootKeys.KeyComesBackIff`). One with a colon renames the keys behind it
  (`RootKeys.BehindAColon`, `RootKeys.ColonRenamesTheNext`).
- The generation counter of the index is not incremented atomically, so of two overlapping invalidations
  one can go unnoticed by the check meant for it (`ArtIndexProtocol.OverlappingBumpGoesUnseen`,
  `ArtIndexProtocol.UnseenBumpIsReachable`). The answer is still right, because it does not rest on that check (`ArtIndexProtocol.AbsentIsTrue`).
- A file whose name starts with a dot is called absent although the sweep read it
  (`ArtIndexProtocol.HiddenIsMissed`).
- One trailing separator does make two startups differ (`AppDedup.TrailingSeparatorIff`).
- The last compressed block of a container is read with a length that may cut it or be negative
  (`ZisoRoundTrip.BlocksComeBackIff`): for any codec, behind enough incompressible blocks a compressible one is
  written and then makes the reader stop with an exception, run for ever or find no block
  (`ZisoLimits.PlainThenPackedIs`). A position of 2^31 alignment units or more is lost
  (`ZisoRoundTrip.EntryIsPositionIff`, `ZisoLimits.LongNoiseLosesPosition`).
- Where the alignment is not 0, the length of the last block that two index entries give can be too short for it
  (`ZisoIndex.LastSizeCoversIff`).
- A comment behind blanks becomes a cheat name (`Cheats.CommentLineIff`), and a name behind 250 cheats
  sends its codes over those of the last one (`Cheats.NameTooManyOverwrites`).
- Among equally used history records it is not always the oldest that is evicted
  (`PlayHistory.TieBreakIff`, `PlayHistory.YoungerIsEvicted`).
- The page of a device whose transport is switched off comes up again for one refresh whenever the generation
  moves, when a list was published of it before (`BdmPresence.SwitchedOffShownIff`,
  `BdmPresence.SwitchedOffFlashes`).
- Choosing a display mode and then Default leaves the mode in a file of one particular length
  (`DisplaySetting.ModeThenDefaultIff`, `DisplaySetting.OneLineTooLong`).

## Model

| member | source | states |
|---|---|---|
| ConfigStore.LookupReadsMap | src/config.c:255-275 | a lookup by name reads the map the list stands for, for unique keys of at most 31 characters |
| ConfigStore.SetIsUpdate | src/config.c:486-507 | setting a valid key of at most 31 characters is a map update and keeps keys unique; an invalid key changes nothing |
| ConfigStore.WithoutIsDelete | src/config.c:573-604 | removing a key deletes it from the map and keeps keys unique |
| ConfigStore.MergeIsOverride | src/config.c:606-613 | merging is a right-biased override of the map |
| ConfigStore.RunRefinesMap | src/config.c:486-613 | over any sequence of set, remove, merge and clear with short keys, the list stays free of duplicate keys and stands for the map the same sequence builds |
| ConfigStore.LongKeyNeverFound | src/config.c:226-275 | a key of 32 or more characters is stored cut, and a lookup of it never finds that copy |
| ConfigStore.SetKeepsUniqueIff | src/config.c:486-507 | exactly when a set keeps the keys unique |
| ConfigStore.TouchesIff | src/config.c:486-507 | a set marks the file for saving exactly when the key is valid and not like a comment and did not give that value before: a new key does, a changed value does |
| ConfigStore.UnmarkedMergeIsSame | src/config.c:486-613 | a merge that leaves no mark, of keys not like comments, has changed nothing |
| ConfigStore.ConfigSet.constructor | src/config.c:400-431 | a new set is empty, unmodified and legacy |
| ConfigStore.ConfigSet.Add | src/config.c:241-253 | the new node becomes the tail; the entries gain one at the end |
| ConfigStore.ConfigSet.Item | src/config.c:255-275 | finds the first node whose stored key equals the name, or null when there is none |
| ConfigStore.ConfigSet.SetStr | src/config.c:486-507 | the chain holds exactly what the set of the specification gives, tail is the last reachable node, and modified is set when something changed |
| ConfigStore.ConfigSet.GetStr | src/config.c:510-522 | returns the value the lookup of the specification gives |
| ConfigStore.ConfigSet.RemoveKey | src/config.c:573-604 | unlinks every node with the key and keeps head, tail and chain consistent |
| ConfigStore.ConfigSet.MergeFrom | src/config.c:606-613 | applies every pair of the source in order and leaves the source as it was |
| ConfigStore.ConfigSet.Clone | src/config.c:456-471 | the copy has the same ordered pairs and shares no node |
| ConfigStore.ConfigSet.ClearAll | src/config.c:1464-1476 | the set is empty afterwards |
| ConfigFiles.IdentAt | src/config.c:110-124 | decides whether a range is an identifier |
| ConfigFiles.ClassifyLine | src/config.c:126-162 | the pointer walk gives the class of the line: blank, libconfig or legacy |
| ConfigFiles.SplitAssignmentAt | src/config.c:164-192 | skips the blanks in front, splits at the first equal sign and cuts both halves to their buffers |
| ConfigFiles.ParseLine | src/config.c:704-770 | recognises statement, group header and closing brace of a libconfig line |
| ConfigFiles.StoreScalar | src/config.c:760-797 | drops an empty value, reads true as 1 and false as 0, renames the key and stores it |
| ConfigFiles.ReadLibconfigLineInto | src/config.c:704-797 | one libconfig line changes group and set as the specification says |
| ConfigFiles.ReadLegacyLineInto | src/config.c:1011-1072 | one legacy line changes prefix and set as the specification says |
| ConfigFiles.ReadFileBuffer | src/config.c:1011-1072 | the first meaningful line latches the format, every line is read in it, and the set ends unmodified |
| ConfigFiles.WriteLibconfigLine | src/config.c:899-927 | the line is written in full: neither the escape buffer nor the line buffer ever cuts it |
| ConfigFiles.WriteLibconfig | src/config.c:955-1009 | root statements first, then one block per group that has members |
| ConfigFiles.WriteLegacy | src/config.c:1345-1359 | one key=value line per pair whose key is not empty and does not start with a hash |
| ConfigLines.LibconfigLineIff | src/config.c:110-162 | a line is classified libconfig exactly when it is blanks, a name of letters, digits, underscores, hyphens and stars that starts with a letter or a star, at least one blank, an equal sign, anything, a semicolon and blanks |
| ConfigLines.CommentLineIff | src/config.c:126-162 | a line is a comment exactly when its text starts with a hash, two slashes or a slash and a star |
| ConfigLines.BlankLineIff | src/config.c:126-162 | a line is blank exactly when it holds nothing but spaces and tabs |
| ConfigLines.PairIsRead | src/config.c:164-1065 | a legacy pair is stored under the first 31 characters in front of its equal sign, with the first 255 behind it; an indented one under the prefix, and one that is not ends the prefix |
| ConfigLines.PrefixIsRead | src/config.c:194-213 | a legacy line without an equal sign makes what stands in front of its colon the prefix; without a colon, or with nothing in front of it, it changes nothing |
| ConfigLines.GroupOpens | src/config.c:704-757 | a name of at most 31 characters and a colon open a group; a longer one opens none |
| ConfigLines.BracesAre | src/config.c:704-730 | an opening brace changes nothing, a closing one ends the group |
| ConfigLines.WrittenBareIff | src/config.c:881-927 | booleans and whole numbers are written as they are, every other value in quotes |
| ConfigLines.EscapedOne | src/config.c:899-927 | quotes and backslashes, and no other characters, are written with a backslash in front |
| LegacyRoundTrips.LegacyLineClass | src/config.c:126-162 | a written legacy line is classified libconfig exactly when its key is an identifier with blanks behind it and its value ends in a semicolon, and legacy otherwise |
| LegacyRoundTrips.LegacyRoundTrip | src/config.c:1011-1359 | saving any set in the legacy format and loading gives the exact set: every written pair in order without the blanks in front of its key and a carriage return behind its value, less the leading ones that look like comments, and the legacy format, except that a first line that looks like a libconfig statement latches libconfig |
| LegacyRoundTrips.LegacyKeepsAllIff | src/config.c:1011-1359 | all written pairs and the format come back exactly when the first of them neither looks like a comment nor is taken for libconfig, the keys are unique, none has a blank in front and no value ends in a carriage return |
| LegacyRoundTrips.ReloadedIsClean | src/config.c:1011-1359 | after one save and load of values that end in one carriage return at most, only leading keys like comments can still be lost |
| EscapedValues.ComesBackIff | src/config.c:899-927 | a value that is escaped and cut comes back exactly when it has no quote or backslash, or is full and ends in backslashes only from the first of them on |
| EscapedValues.BackIff | src/config.c:772-927 | the same for a whole save and load, which also reads true and false as 1 and 0 |
| EscapedValues.BackslashesComeBackWhenFull | src/config.c:899-927 | one backslash comes back as two, 255 of them as they were |
| EscapedValues.RunGrows | src/config.c:899-927 | over the cycles the part in front of the first quote or backslash stays, and a doubling run of backslashes grows behind it until the value is full |
| EscapedValues.ValueSettles | src/config.c:772-927 | after nine cycles every value is its clean part filled up with backslashes, or itself when it was clean |
| LibconfigRoundTrips.RightSideReadsBackIff | src/config.c:750-786 | the reader finds the written value itself exactly when it holds no quote and no backslash |
| LibconfigRoundTrips.StatementClass | src/config.c:126-162 | every statement the writer produces is classified libconfig when its name is an identifier |
| LibconfigRoundTrips.TablesAreInverse | src/config.c:854-879 | the two renaming tables undo each other, in both directions |
| LibconfigRoundTrips.LibconfigRoundTrip | src/config.c:704-1072 | saving as libconfig and loading gives an exact list: the root pairs, then the pairs of each group, without hash keys and empty values, quotes and backslashes escaped and cut |
| LibconfigRoundTrips.LibconfigReadAsLibconfigIff | src/config.c:1011-1072 | a written libconfig text is read as libconfig exactly when the first written pair is a root pair with an identifier for a name |
| LibconfigRoundTrips.LibconfigKeepsTheMap | src/config.c:704-1072 | under every key, the loaded set gives what the saved one gave, less empty values, true and false as 1 and 0, quotes and backslashes escaped and cut |
| LibconfigRoundTrips.ValueComesBackIff | src/config.c:704-1072 | exactly when a key gives the same value after a save and a load |
| SaveCycles.LegacyNeverFlips | src/config.c:1341-1359 | a legacy file whose first line is not taken for libconfig, before and after one save and load, keeps its format over any number of cycles and its pairs from the second one on |
| SaveCycles.LegacyNeverFlipsIff | src/config.c:1341-1359 | a legacy file keeps its format over every number of cycles exactly when its first written line that does not look like a comment is not taken for libconfig, now and after one save and load |
| SaveCycles.LegacyFlips | src/config.c:573-1359 | a legacy file that holds such a line behind another one, and flips when that one is removed |
| SaveCycles.CommentKeyIsLost | src/config.c:573-1359 | a legacy file that holds a key like a comment behind another one, and loses it when that one is removed |
| SaveCycles.LegacyFlipsOnSecondSave | src/config.c:1011-1359 | a legacy set that is legacy after one cycle and libconfig after two |
| SaveCycles.PrefixedKeyIsStored | src/config.c:194-224 | an indented line that opens a prefix and an indented pair behind it store a key with a blank in front |
| SaveCycles.BlankKeyIsStored | src/config.c:194-1072 | the two lines that store such a key |
| SaveCycles.BlankKeyIsTrimmed | src/config.c:1011-1359 | and what the next save and load makes of it |
| SaveCycles.LibconfigCycles | src/config.c:704-1359 | the exact list after n cycles: the root pairs, then the groups, every value escaped n times |
| SaveCycles.LibconfigNeverFlipsIff | src/config.c:1341-1359 | a libconfig file stays libconfig over every number of cycles exactly when its first written pair, and the first one that has a value, is a root pair with an identifier for a name |
| SaveCycles.FlipsOnSecondSave | src/config.c:772-1009 | a concrete set whose format is libconfig after one cycle and legacy after two |
| SaveCycles.MapAfter | src/config.c:704-1359 | what a key gives after n cycles: its value escaped n times, unless it is empty |
| SaveCycles.ValuesSettle | src/config.c:704-1359 | from the ninth cycle on a key gives its settled value: what it was, or its clean part filled up with backslashes |
| SaveCycles.LoadedSettles | src/config.c:704-1359 | from the ninth cycle on the whole file is loaded unchanged |
| LoadedSets.LoadedIsClean | src/config.c:704-1072 | every set loaded from any text as libconfig, when none of its keys fills its buffer, is one the libconfig round trip and cycles are proved for |
| LoadedSets.OnlyLibKeysAreFound | src/config.c:704-1072 | no text read as libconfig gives back a key of up to 30 characters that looks like a comment or a brace, has a colon or blanks around it, or is renamed by the reader |
| LoadedSets.LoadedFileNeverFlipsIff | src/config.c:704-1359 | a file read as libconfig stays libconfig over every number of cycles exactly when its first root pair is stored under the name of an identifier |
| RootKeys.RootsComeBack | src/config.c:704-1009 | any root pairs behind a first line that settles the format, whatever their keys: the exact list that is loaded |
| RootKeys.RootMapComesBack | src/config.c:704-1009 | and the exact map: under every key, the value of the last pair whose line is read under that name |
| RootKeys.KeyComesBackIff | src/config.c:704-1009 | exactly which keys come back from a save and load, anywhere among the root pairs where no group is open |
| RootKeys.BehindAColon | src/config.c:704-797 | all root pairs written behind a key with a colon are read in the group that colon opens |
| RootKeys.ColonRenamesTheNext | src/config.c:704-797 | title, a:b and c are saved, title and a_c are loaded |
| WoplFiles.NamesAre | src/config.c:800-879 | both renaming tables are exactly the 27 pairs of names |
| WoplFiles.BooleansAreNumbers | src/config.c:704-797 | in any group, a line with true, quoted or not, stores 1 and one with false stores 0 |
| WoplFiles.OthersStand | src/config.c:704-797 | every other value is stored as it stands, without its quotes |
| WoplFiles.NameInAGroup | src/config.c:772-852 | a name is what the table has for group and key, and otherwise the two joined by an underscore |
| WoplFiles.BooleanInGroup | src/config.c:704-1072 | a whole file with a boolean in any group: the number is stored under our name of the setting |
| WoplFiles.WrittenFile | src/config.c:899-1009 | a title and a setting of a group, as they are written, character by character |
| WoplFiles.WrittenLegacyFile | src/config.c:1345-1359 | the same of a legacy file |
| ConfigSave.WriteBuffer.Put | src/util.c:486-509 | everything queued is either in the buffer or was handed to the device in order; a short write is remembered |
| ConfigSave.WriteBuffer.Captured | src/config.c:1362-1374 | the capture is everything that was queued, and there is none exactly when that is nothing, is longer than the buffer, or there is no memory |
| ConfigSave.WriteBuffer.CloseBuffer | src/util.c:511-528 | success means that the file holds exactly what was queued, and failure that the device refused or broke off a write or the close |
| ConfigSave.Snapshot | src/config.c:1310-1327 | a snapshot is the whole file, taking it changes nothing, and there is none exactly when the file cannot be opened, its size is not 1 to 256 KiB, there is no memory, or the read comes up short |
| ConfigSave.ReadBack | src/config.c:1397-1416 | a positive read-back means that the file holds exactly the intended bytes, and a negative one that the file could not be opened, has another size or other bytes, or that there is no memory |
| ConfigSave.Restore | src/config.c:1432-1444 | when the file is seen to be no shorter it is left alone; otherwise it is restored, or the restore itself failed |
| ConfigSave.Save | src/config.c:1257-1457 | for any device behaviour: a clean set is written only when its file looks absent; success clears modified and means that the whole text is on the device or nothing had to be written; a failure keeps modified, means that a step of writing failed and nothing proves the text to be there all the same, and leaves nothing shorter than before unless there could be no snapshot or the restore failed; a raw partition path is never opened; a memory card is opened once at most |
| ConfigSave.SpecialPaths | src/config.c:1257-1312 | which paths are on the raw partition table or on a memory card, character by character |
| AtlasTree.PlaceFailsIff | src/atlas.c:50-83 | a placement fails exactly when no free leaf anywhere is large enough: pruning loses nothing |
| AtlasTree.PlaceIsFirstFit | src/atlas.c:50-83 | a placement takes the top left corner of the first free leaf, in tree order, that is large enough, and of no other |
| AtlasTree.PlaceLeavesStrips | src/atlas.c:43-83 | in the list of free leaves that leaf is replaced by the strips beside it: the one along the longer rest keeps the full side of the leaf, the other one what the picture leaves of it |
| AtlasTree.LongStripIsFree | src/atlas.c:43-83 | after a placement the longer strip is a free leaf at full height or width |
| AtlasTree.NextFitsLongStrip | src/atlas.c:43-83 | a second placement that fits the longer strip succeeds |
| AtlasTree.SecondBesideFirst | src/atlas.c:43-83 | in an atlas of 128 by 128, behind 9 by 11, a picture of 117 by 127 is placed beside it |
| AtlasTree.PlaceKeeps | src/atlas.c:43-83 | the tree stays well formed over the same rectangle |
| AtlasTree.PlaceAvoids | src/atlas.c:50-83 | a rectangle no free leaf touched stays untouched by free leaves and by the new placement |
| AtlasTree.PlaceMovesArea | src/atlas.c:43-83 | the free area shrinks by exactly the reserved area |
| AtlasTree.AnyRunIsGood | src/atlas.c:50-120 | over any sequence of placements the reserved rectangles stay inside and pairwise disjoint, and reserved area plus free area is the area of the atlas |
| AtlasSurface.PictureIntact | src/atlas.c:156-177 | every picture placed so far is on the surface byte for byte |
| AtlasPixels.PixelIntact | src/atlas.c:156-177 | pixel by pixel in the two buffers: what is behind px and py in the data of a picture is as far behind its corner on the surface |
| AtlasSurface.NothingDamaged | src/atlas.c:156-177 | no later picture covers a byte of an earlier one |
| AtlasSurface.ElsewhereZero | src/atlas.c:116-177 | every byte outside the pictures is zero |
| AtlasSurface.GutterUncovered | src/atlas.c:179-194 | the column and the row behind every picture belong to no picture |
| Atlas.Alloc.PlaceIn | src/atlas.c:50-83 | the recursive walk over the nodes changes the tree as the specification says and creates exactly the split-off nodes |
| Atlas.CopyData | src/atlas.c:156-177 | paints exactly the rectangle of the picture and nothing else |
| Atlas.Atlas.constructor | src/atlas.c:85-120 | a fresh atlas is one free leaf over a zeroed surface |
| Atlas.Atlas.PlacePicture | src/atlas.c:179-194 | keeps the whole invariant of tree, reservations and surface; a failed placement changes nothing |
| ArtIndexNames.ComputeHash | src/artindex.c:84-97 | FNV-1a of the upper-cased name, so names equal but for case hash alike |
| ArtIndexNames.SameNameIff | src/artindex.c:80-97 | names hash alike when they differ in nothing but the case of letters, which is what equal names are |
| ArtIndexNames.KnownHashes | src/artindex.c:84-97 | three known values of FNV-1a |
| ArtIndexNames.SplitIff | src/artindex.c:111-137 | a path is split into exactly the directory and base that make it up, cut at the last slash or behind a colon, and refused exactly when there are none that fit |
| ArtIndexNames.Collect | src/artindex.c:198-222 | the hashes of every entry that is not hidden, or nothing on overflow |
| ArtIndexNames.MissedHashMissesName | src/artindex.c:198-289 | a hash that is not in the sorted index belongs to a name that was not listed, under any capitals |
| ArtIndexNames.Search | src/artindex.c:276-289 | binary search of a sorted buffer finds a hash exactly when it is there |
| ArtIndexProtocol.StepKeeps | src/artindex.c:142-315 | every step of the owner and of any invalidator keeps the invariant of slots, owner, invalidators and generation |
| ArtIndexProtocol.RunOk | src/artindex.c:142-315 | the invariant holds after every interleaving |
| ArtIndexProtocol.AbsentIsTrue | src/artindex.c:248-315 | for a name without a dot in front, an absent answer means that no name equal but for case was in the last complete sweep of that directory by that slot, of at most 4096 kept entries, opened after the start of every invalidation that had returned before the probe began |
| ArtIndexProtocol.HiddenIsMissed | src/artindex.c:198-298 | for every name with a dot in front, a run in which it is called absent by a sweep that read it |
| ArtIndexProtocol.NeverMissedIffListed | src/artindex.c:198-315 | the names of which absent is never wrongly said are exactly those without a dot in front |
| ArtIndexProtocol.BumpIsNoticed | src/artindex.c:270-298 | as long as no increment is lost and the counter does not wrap, the last check says go and look exactly when the generation was written meanwhile |
| ArtIndexProtocol.OverlappingBumpGoesUnseen | src/artindex.c:301-309 | two overlapping invalidations can leave the generation as a probe sampled it |
| ArtIndexProtocol.UnseenBumpIsReachable | src/artindex.c:270-309 | there is a run from the start in which that happens |
| ArtIndexAnswers.CallIs | src/artindex.c:248-270 | a call from another thread than the owner, before there is one, or with an empty path, one with a backslash or one that starts with smb is answered go and look at once, as is a path without two halves; every other one goes on to sample with its halves |
| ArtIndexAnswers.FreshProbeAnswers | src/artindex.c:142-299 | an undisturbed probe of a directory that no slot has is answered absent exactly when no listed name without a dot in front has its hash |
| ArtIndexAnswers.UnlistableAnswersLook | src/artindex.c:142-257 | a directory that cannot be opened is answered go and look |
| ArtIndexAnswers.TooLargeAnswersLook | src/artindex.c:198-299 | and so is one with more than 4096 entries that are not hidden, once so many have been read |
| ArtIndexAnswers.KeptProbeAnswers | src/artindex.c:236-299 | an undisturbed probe of a directory that a slot holds is answered from that slot, whatever the device would list by now |
| ArtIndexAnswers.InvalidationEmpties | src/artindex.c:301-315 | an undisturbed invalidation counts the generation up by one and leaves all three slots invalid and without a name, so every directory is read anew |
| ArtIndexAnswers.InvalidationIsNoticed | src/artindex.c:291-309 | a probe that is about to compare generations when such an invalidation counts up goes and looks |
| AppLookup.HashStartup | src/appsupport.c:228-238 | the 32-bit hash of the startup |
| AppLookup.KnownHashes | src/appsupport.c:228-238 | three known values of the hash |
| AppLookup.MaskWraps | src/appsupport.c:490-514 | masking with a power of two less one keeps a slot and wraps the one past the last |
| AppLookup.InsertIndexes | src/appsupport.c:484-494 | filling the first free slot of a chain indexes that record and keeps every other chain free of gaps and of later records |
| AppLookup.ProbeFindsFirst | src/appsupport.c:500-516 | the first stop of a probe is the first match of the list, or a free slot when there is none |
| AppLookup.FreeFrom | src/appsupport.c:490-494 | linear probing in a table that is not full ends at the first free slot of the chain |
| AppLookup.ProbeFrom | src/appsupport.c:505-516 | a probe in a table that is not full ends, at the first slot that is free or holds the query |
| AppLookup.NewTable | src/appsupport.c:460-498 | a power of two of at least twice the records, indexing all of them |
| AppLookup.ArtLookup.Build | src/appsupport.c:460-498 | afterwards the table, if there is memory for one, indexes the new list |
| AppLookup.ArtLookup.Find | src/appsupport.c:500-526 | returns exactly what a first-match linear scan returns, for every list and every query |
| AppDedup.KeyEqual | src/appsupport.c:248-286 | the pointer walk decides whether both are non-empty and have the same normal form, which is what SameIff and PlainSameIff speak of |
| AppDedup.SameIff | src/appsupport.c:248-286 | two startups are equal exactly when neither is empty and their characters agree one by one, letters of either case, separators of either kind, runs of separators taken as one |
| AppDedup.CaseAndKindDoNotMatter | src/appsupport.c:262-286 | changing the case of letters or exchanging slash and backslash gives an equal startup |
| AppDedup.RepeatsDoNotMatter | src/appsupport.c:262-286 | lengthening a run of separators gives an equal startup |
| AppDedup.PlainSameIff | src/appsupport.c:248-286 | of startups without capitals, backslashes and doubled separators only the same strings are equal |
| AppDedup.TrailingSeparatorIff | src/appsupport.c:271-282 | a trailing separator makes no difference exactly when the startup already ended in one |
| AppDedup.DedupStep | src/appsupport.c:306-327 | one pass drops or moves up one record in place |
| AppDedup.DedupList | src/appsupport.c:299-329 | the compacted front of the array is what folding the step over the old contents gives |
| AppDedup.DedupKeepsSurvivors | src/appsupport.c:288-329 | what is left is exactly, in order, every legacy record and every scanned record without an equal one before it, with the argument its first dropped double donated if its own was empty |
| AppDedup.LegacyKeepsIndex | src/appsupport.c:291-297 | the leading legacy records keep their index and everything but an empty argument |
| AppDedup.NothingLost | src/appsupport.c:288-329 | every record with a startup still has an equal one in the list |
| AppDedup.NoScannedRepeat | src/appsupport.c:288-329 | no scanned record is left behind an equal one |
| Utf8.TargetIs | include/utf8.h:21-47 | the 400-entry table is the nine-state automaton over byte ranges |
| Utf8.Decoder.Decode | include/utf8.h:38-49 | one step moves the state by that automaton and accumulates the code point |
| Utf8.DecoderReadsText | include/utf8.h:21-49 | the decoder ends in ACCEPT exactly on well-formed text of section 4 of RFC 3629, and on every byte string it delivers the code points in front of the first bad byte |
| Utf8.RejectIsFinal | include/utf8.h:21-49 | it is in REJECT exactly when no continuation would make well-formed text |
| Utf8.EncodeDecodes | include/utf8.h:38-49 | encoding any scalar value gives one well-formed sequence with that value |
| Utf8.EncodedIsRead | include/utf8.h:38-49 | text that was encoded is accepted and read back code point by code point |
| Utf8.ReadIsEncoded | include/utf8.h:38-49 | all accepted text is the encoding of the code points read from it |
| Utf8.ReadAll | src/fntsys.c:549-551 | a renderer that skips what is not yet accepted sees the code points in front of the first bad byte |
| Ziso.UnLeOfLe | pc/ziso.py:107-118 | packing and unpacking a little-endian number is the identity |
| Ziso.SetAlign | pc/ziso.py:210-216 | pads to the next position whose alignment bits are zero |
| Ziso.CompressFile | pc/ziso.py:219-317 | the file is header, index and padded blocks, or the error the script stops with; ZisoIndex says what its bytes are |
| Ziso.TrimAndDecode | pc/ziso.py:62-71 | cuts bytes off the end until the codec accepts; an empty rest that is refused is the endless loop |
| Ziso.DecompressFile | pc/ziso.py:130-192 | block by block what the index and the header say, or the error the script stops with |
| ZisoRoundTrip.EntryIsPositionIff | pc/ziso.py:295-304 | an index entry shifted back is the true write position exactly when that fits in 31 bits, and its flag says whether the block is plain |
| ZisoRoundTrip.ShortOutputIsWritten | pc/ziso.py:227-311 | an output no longer than the input is always written, with every position in range |
| ZisoRoundTrip.InnerIsRead | pc/ziso.py:159-191 | a block in front of another one comes back, its padding trimmed |
| ZisoRoundTrip.LastIsRead | pc/ziso.py:159-191 | the last block comes back when it is plain or the header reaches it or the length for it is -1; a smaller length stops the reader, and any other one loses the block |
| ZisoRoundTrip.BlocksComeBack | pc/ziso.py:130-317 | with every position in range the container gives back all blocks when the last one is plain, the total reaches its end, or the total is one byte in front of it |
| ZisoRoundTrip.BlocksComeBackIff | pc/ziso.py:130-317 | and exactly then, for a codec that refuses a cut block |
| ZisoRoundTrip.BlocksAreImage | pc/ziso.py:235-287 | the blocks are the image up to its last full block |
| ZisoRoundTrip.RunLengthIsLawful | pc/ziso.py:50-71 | the laws asked of the codec can be met: a run-length codec meets them for every block size |
| ZisoRoundTrip.SmallFileIsWritten | pc/ziso.py:219-317 | a file that ends inside the range of its alignment is always written, with every position in range |
| ZisoRoundTrip.RoundTrip | pc/ziso.py:130-317 | an image of whole blocks comes back byte for byte from an output no longer than it |
| ZisoRoundTrip.ImageComesBackIff | pc/ziso.py:130-317 | with every position in range an image comes back exactly when it is made of whole blocks and the last one is plain, reached or read with length -1 |
| ZisoIndex.WrittenIff | pc/ziso.py:219-317 | a file is written exactly when the numbers of its header and every index entry fit their fields and no entry of a packed block looks flagged |
| ZisoIndex.HeaderIs | pc/ziso.py:107-233 | the header of a written file, byte by byte: magic number, its own length, image length, block size, version, alignment |
| ZisoIndex.ImageBlockIs | pc/ziso.py:219-306 | block k of the image is where its entry says, flagged and as it is when its encoding has at least the given percentage of the block size, and encoded otherwise |
| ZisoIndex.LastEntryIsLength | pc/ziso.py:308-311 | the last entry, shifted back, is the length of the file rounded down to the alignment, and without alignment that length itself |
| ZisoIndex.InnerSizeCovers | modules/isofs/zso.c:63-80 | the length that two entries give for a block in front of another one covers the stored bytes of that block |
| ZisoIndex.LastSizeCoversIff | modules/isofs/zso.c:63-80 | the length they give for the last block covers it exactly when the file ends at an aligned position, and is its own length without alignment |
| ZisoIndex.ReadIff | pc/ziso.py:130-143 | which files are read at all, by the numbers of their header and their length, and with which error the others are refused |
| ZisoIndex.NegativeAlignmentIsRefused | pc/ziso.py:107-171 | and a file whose alignment byte is negative for the reader fails at its first block |
| ZisoLimits.PlainThenPackedIs | pc/ziso.py:159-317 | for every lawful codec, every image below 2 GiB of n blocks stored plain and one packed into p bytes: it comes back when a block has 4n+32+p bytes or more, or 4n+31; below that read refuses, and in between the reader never ends or finds no block |
| ZisoLimits.NoiseThenQuietIs | pc/ziso.py:159-317 | such images for the run-length codec, which packs the last block into two bytes; there the ones in between all hang |
| ZisoLimits.MegabyteIsTheLimit | pc/ziso.py:159-317 | with the run-length codec and blocks of 2048 bytes, 503 of them come back, behind 504 the reader never ends, behind 505 it stops |
| ZisoLimits.LongNoiseLosesPosition | pc/ziso.py:210-304 | an image of incompressible blocks just under 2 GiB is written with the position of its last block lost |
| Cheats.ChunksAreLines | src/cheatman.c:314-367 | lines that fit are cut exactly at their line feeds |
| Cheats.IsCheatCode | src/cheatman.c:157-172 | sixteen hexadecimal digits and white space, nothing else |
| CheatFiles.CodeLine | src/cheatman.c:120-340 | eight hexadecimal digits, blanks or none, and eight digits, with blanks around them and a comment behind: the first eight are the address, the others the value, and a line of zeros is nothing |
| CheatFiles.HexOfEight | src/cheatman.c:120-150 | eight digits are a number, the highest digit first |
| CheatFiles.DigitIs | src/cheatman.c:120-150 | the digits are 0 to 9 and A to F in either case, with their values |
| CheatFiles.TokenOfText | src/cheatman.c:195-340 | any other visible text, blanks around it and a comment behind it cut off, is a name, of 128 characters at most |
| CheatFiles.UnseenIsSkipped | src/cheatman.c:231-327 | a line without a character from 33 to 126 is skipped |
| CheatFiles.OneSeenIsName | src/cheatman.c:231-341 | any such character alone, other than a hash, is a name |
| CheatFiles.TableComesBack | src/cheatman.c:302-370 | a table of at most 250 cheats with 510 codes each comes back from its written file: every name, address and value |
| CheatFiles.ListHoldsTable | src/cheatman.c:302-530 | and the list holds its pairs, word by word, the address first, and zeros behind the last one or the 254th |
| CheatFiles.SwitchedOffIsAbsent | src/cheatman.c:494-530 | a cheat that is switched off is as good as not there |
| Cheats.CommentLineIff | src/cheatman.c:327-341 | a line with nothing visible in front of its comment is skipped exactly when the comment is at its very start; otherwise its blanks become a name |
| Cheats.IndentedCommentIsName | src/cheatman.c:327-341 | one line of either kind |
| Cheats.ParseBuf | src/cheatman.c:302-370 | the scan ends without passing the end of the text and folds every line into the table |
| Cheats.ParsedIsMeant | src/cheatman.c:335-361 | within 250 cheats the table is a cheat for every name followed by a code, with its first 510 codes |
| Cheats.NameTooManyOverwrites | src/cheatman.c:335-361 | a name behind 250 cheats sends its codes over those of the last one |
| Cheats.ListIsMeant | src/cheatman.c:335-530 | within 250 cheats the list is that of the table without any limit on codes |
| Cheats.MeantKeepsCodes | src/cheatman.c:335-361 | no code behind the first name is lost, doubled or moved |
| Cheats.FlatListEnds | src/cheatman.c:494-530 | whatever is enabled, the list has at most 254 pairs with addresses, then zeros |
| Cheats.FileToList | src/cheatman.c:302-530 | from the text of the file: with at most 250 cheats, all enabled, and no zero address, the list is the codes behind the first name in file order, cut at 254, and zeros, however many a cheat has |
| Cheats.SetCheatsList | src/cheatman.c:494-530 | the array holds exactly that list |
| PlayHistory.Launch | src/OSDHistory.c:189-214 | one launch of a record; a free bit can always be drawn when one is needed |
| PlayHistory.LaunchIs | src/OSDHistory.c:189-214 | one launch in plain numbers: the count goes up to 127, or to 63 once all six bits are drawn; another bit is drawn at 14 and at every tenth count from there on |
| PlayHistory.ScanFindsMinimum | src/OSDHistory.c:168-183 | the scan ends at a record with the smallest count |
| PlayHistory.AddRecord | src/OSDHistory.c:126-264 | the update in place is one of the outcomes the specification allows |
| PlayHistory.KnownIsLaunched | src/OSDHistory.c:185-216 | a name that is there is launched, and no other record changes |
| PlayHistory.NewIsAdded | src/OSDHistory.c:224-260 | a new name goes into a blank record, or over a record that is given up, with count 1, the first bit and its date; only when no record is blank and all have shift 7 it goes nowhere |
| PlayHistory.FullIff | src/OSDHistory.c:190-213 | the mask is full exactly from count 54 on; before that a free bit exists |
| PlayHistory.LaunchKeeps | src/OSDHistory.c:189-214 | a launch counts up to 63, stays there and then has shift 7 |
| PlayHistory.EveryRunIsGood | src/OSDHistory.c:126-264 | from an empty history, over any additions of names of 1 to 15 characters, names stay distinct and every record fits its count |
| PlayHistory.EvictedIsLeastUsed | src/OSDHistory.c:224-250 | only a full list without the name evicts, and then a record with the smallest count |
| PlayHistory.SaturatedStays | src/OSDHistory.c:232-240 | once every record has shift 7 no new name is ever taken |
| PlayHistory.TieBreakIff | src/OSDHistory.c:168-183 | among equal counts the victim is the oldest exactly when one of them is older than every record that had the smallest count before, or the first of them is the oldest |
| PlayHistory.YoungerIsEvicted | src/OSDHistory.c:126-264 | a list in which an older date stands behind a larger count evicts the younger of two equally used records |
| PlayHistory.StaleDateMisleads | src/OSDHistory.c:168-183 | there is such a list among the full lists of 21 consistent records |
| DisplaySetting.CopyOthers | src/cuesupport.c:294-311 | the copy of the other lines never reaches its no-room branch for a file it accepts |
| DisplaySetting.Decide | src/cuesupport.c:254-357 | untouched, removed or rewritten, as the specification says |
| DisplaySetting.WrittenLines | src/cuesupport.c:294-328 | the result is the other non-blank lines in their order, then the line of the mode |
| DisplaySetting.KeptInOrder | src/cuesupport.c:294-311 | lines are kept or dropped one by one and stay in their order |
| DisplaySetting.KeptOfOne | src/cuesupport.c:294-311 | one carriage return at the end of a line goes; a line that is empty then, or that starts with display: in letters of either case, goes altogether |
| DisplaySetting.FileBecomes | src/cuesupport.c:254-357 | a file of 511 characters or without room is untouched; otherwise it is what is kept, and then display:240, display:480 or nothing |
| DisplaySetting.KeyIsReplaced | src/cuesupport.c:254-357 | a file with the key behind another line, as an editor on a PC leaves it |
| DisplaySetting.AbsentIff | src/cuesupport.c:254-357 | there is no file afterwards exactly on Default when nothing is kept, unless it was there and empty |
| DisplaySetting.IdempotentIff | src/cuesupport.c:254-357 | applying a setting twice is applying it once exactly when no kept line ended in two carriage returns or the result is too long to be touched again |
| DisplaySetting.ModeThenDefaultIff | src/cuesupport.c:254-357 | exactly when a mode followed by Default is Default alone |
| DisplaySetting.OneLineTooLong | src/cuesupport.c:254-357 | every file of one line of 498 characters keeps the mode behind Default |
| DisplaySetting.RemovedOnlyWhenOwn | src/cuesupport.c:330-346 | a file is removed only on Default and when it held no other line |
| BdmPresence.Device.UpdateDeviceData | src/bdmsupport.c:2604-2827 | one poll changes the record as the specification says |
| BdmPresence.Device.NeedsUpdate | src/bdmsupport.c:1288-1440 | one refresh polls, hides or leaves alone as the specification says |
| BdmPresence.ShownIff | src/bdmsupport.c:2686-2780 | a hidden page comes up on a poll exactly when its device answers and either a list was published of it before, or its driver is known now and switched on and block devices are not off as a whole, which only spares the network device |
| BdmPresence.FirstSightIsKept | src/bdmsupport.c:2700-2785 | a device that is seen for the first time is remembered, shown or not |
| BdmPresence.SwitchedOffShownIff | src/bdmsupport.c:1288-2700 | exactly when a refresh leaves the page of a scanned device shown although its transport is off: when the device answers and the generation has moved |
| BdmPresence.SwitchedOffFlashes | src/bdmsupport.c:1288-2700 | and the refresh behind it hides the page again |
| BdmPresence.RefreshLeaves | src/bdmsupport.c:1288-1440 | what a refresh leaves behind for each of its answers: visibility, driver, folders and misses |
| BdmPresence.FailedPollIs | src/bdmsupport.c:2785-2820 | the fifth failed poll in a row gives a shown network device up, the second any other one, and the ones before only count |
| BdmPresence.GoneOnlyAfterMisses | src/bdmsupport.c:2785-2820 | over any run, a page is given up only when the last two polls, five for the network device, all failed |
| BdmPresence.HiddenOnlyAfterMisses | src/bdmsupport.c:1288-2820 | over any run, a refresh or a poll takes a page with its transport on out of sight only when the last two polls, five for the network device, all failed |
| BdmPresence.HiddenInTime | src/bdmsupport.c:1351-1361 | once a miss is counted, a device that stays away is hidden within its threshold of refreshes, whatever the generation does, and stays hidden |
| BootResolver.RewrittenParses | src/bdmsupport.c:2995-3005 | a rewritten path names the chosen slot and keeps the folder, with a slash in front |
| BootResolver.PathAsksFor | src/bdmsupport.c:83-182 | which device name asks for which family, by name; any other one is no block device; the folder is what stands behind the colon; only mass with one or two digits names a slot outright |
| BootResolver.PathHints | src/bdmsupport.c:148-3227 | the search starts with the slot the path names, if there is such a slot, and otherwise with the first |
| BootResolver.OrderIsPermutation | src/bdmsupport.c:3231-3235 | the visiting order is a permutation of the slots that starts with the hinted one |
| BootResolver.OrderGoesUp | src/bdmsupport.c:3231-3235 | behind the hinted one, the slots are visited in ascending order |
| BootResolver.ScanSlots | src/bdmsupport.c:3228-3263 | the first slot in visiting order with proof, otherwise the first with only the folder |
| BootResolver.NothingThere | src/bdmsupport.c:3228-3263 | nothing is found exactly when no slot of the family holds the ELF, or the folder where it counts |
| BootResolver.Search | src/bdmsupport.c:3214-3322 | the first proof decides; an untyped search loads the next transport only when the time of those before it is over; a folder alone is taken only after every transport had its time and the last round proved nothing; the search ends within the summed budgets |
| BootResolver.ResolveLiteral | src/bdmsupport.c:3030-3108 | an explicit slot is the only one asked, within the summed budgets, and only an answer replaces the type |
| BootResolver.ResolveBootDir | src/bdmsupport.c:3133-3323 | a path changes only on success and an explicit massN: never; the slot it is moved to was proven, or is the first with the folder after the search was exhausted, and no earlier round had a proof; what an explicit massN: last answers decides; a failure keeps the family the path named and means an exhausted search without a guess |
| BootResolver.JustifiedShows | src/bdmsupport.c:3228-3322 | the slot a path is moved to is of the family asked for and holds the ELF, or holds the folder, where that counts, while no slot of the family holds the ELF |

## Left out

- ConfigFiles.ReadFileBuffer: works on lines; the buffered line reader of src/util.c, the byte order mark and lines longer than its buffer are not part of this model.
- ConfigStore.ConfigSet.Clone: the type, uid and file name of a set are not part of this model.
- ConfigSave.Save: the error numbers kept for the message and muting the music are not modelled; the text is queued in pieces that end at line feeds.
- ConfigSave.Device: what succeeds on the device can be relied on; a device that reports success for bytes it lost is not modelled.
- LegacyRoundTrips.LegacyRoundTrip: speaks of keys and values without a line feed.
- SaveCycles.LegacyNeverFlipsIff: speaks of values that end in one carriage return at most, of which every load takes one away.
- LibconfigRoundTrips.LibconfigRoundTrip: speaks of values without a line feed and of the keys a libconfig file can give back. RootKeys.KeyComesBackIff proves which keys those are, RootKeys.RootsComeBack what any other root key does, and LoadedSets.LoadedIsClean that every loaded set has no others, unless one fills its buffer.
- RootKeys.RootsComeBack: pairs of the groups of the schema are not among its pairs; LibconfigRoundTrips.LibconfigRoundTrip has them.
- AtlasTree.AnyRunIsGood: sizes are mathematical integers, since atlas sides are far below 2^31; a pixel format is its number of bytes per pixel.
- ArtIndexProtocol.AbsentIsTrue: directory and name writes are single steps; a second path form tried when the first cannot be opened is one answer of the device.
- AppLookup.ArtLookup.Find: the doubling of the table size stays within machine integers, as a list has far fewer than 2^30 records.
- AppDedup.DedupList: a record keeps its title, startup, argument and origin only.
- Ziso.DecompressFile: a header made by hand with a large alignment gives positions or lengths beyond a machine word, which seek and read refuse with an exception; here nothing is read there, or everything up to the end of the file.
- Ziso.CompressFile: the parallel branch, progress output, the codec itself and a padding byte that encodes to several bytes are left out; an exception that ends the script is an error result. For an empty image the script fails in its last progress line, after everything was written; here that counts as written.
- ZisoRoundTrip.BlocksComeBackIff: asks of the codec that it refuses an encoded block with bytes added or cut off; BlocksComeBack asks only the first.
- Cheats.ParseBuf: characters above 127 are neither visible nor blank, as in the C locale.
- Utf8.Decoder.Decode: masks and shifts are written as remainders and products.
- PlayHistory.EveryRunIsGood: reading and writing the history file is left out; the mask is the set of its bits.
- DisplaySetting.Decide: a read or write that fails half-way is left out.
- BdmPresence.Device.NeedsUpdate: ends where the game folders are examined; sounds, menus and module loading are left out.
- BootResolver.Search: loading a transport cannot fail visibly; a slot shows whatever the device parameter says.
- Publication of the last good list of PS1 games, and the list of visible app ids: small and without interplay.
- Dialogs, rendering, texture and graphics-chip calls, game launch assembly, network file systems, and all device calls behind the parameters above.
