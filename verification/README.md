# Verified models of parts of Chromium base

This project models five parts of `base/` and proves what they are for:

- the descriptor shuffle (`Shuffle.dfy`): moves `source -> dest` carried out in place on a descriptor
  table, with temporaries for cycles and with close duties handed from arc to arc;
- the path algebra (`Paths.dfy`, `PathLaws.dfy`, `FilePaths.dfy`, `Extensions.dfy`): stripping, `DirName`, `BaseName`,
  `Append`, components, relative paths and extensions, for every combination of drive letters and
  separators;
- the command line (`Quoting.dfy`, `Switches.dfy`, `CommandLines.dfy`, `CommandLineLaws.dfy`,
  `PrintParse.dfy`): `argv_` split into switches and arguments, the map of switches that agrees with it,
  the Windows quoter against the CommandLineToArgvW rules, and printing against parsing;
- files and directories (`Trees.dfy`, `FileSystems.dfy`, `Enumerators.dfy`, `Enumerations.dfy`,
  `Deletion.dfy`, `Directories.dfy`, `Copying.dfy`): `FileEnumerator`, `ComputeDirectorySize`, recursive
  `Delete`, `CreateDirectory` and `CopyFile`;
- the compare-exchange retry loops (`Atomics.dfy`) and their users, reference counts and sequence numbers.

Code that changes objects in place is a class with methods and loops, proved against functions; the laws
are lemmas about those functions. The retry loops are a state machine: any number of threads, each a
program counter, take steps in the order of a schedule, and a statement for all schedules is one for all
interleavings. System calls are classes whose methods succeed exactly when the call is legal, and may
also fail unless everything is permitted; listing orders, short reads, partial writes, the descriptor
that `dup` hands out and the directories that other processes create meanwhile are left open.

`PathLaws.dfy` and `CommandLineLaws.dfy` say in characters, builds and positions what the functions of
those parts compute, independently of how they compute it: components by splitting at "/", a path as
directory, separators, name and separators, GetArgs and lookup by a scan of the tokens.

## Findings

Where the code falls short of what is asked of it, the members named here state exactly when, and give an
input.

- Shuffle: an identity arc followed by an arc from the same source, with a close request at either or
  later, closes its own destination (`Shuffle.ExpectedDelivers`, `Shuffle.SpoiledExample`). Besides, `dup`
  may hand out the destination of a later arc for a temporary, if that descriptor is not open at the start,
  and it is then closed with the temporaries. A map can be relied on, whatever `dup` hands out, if and
  only if no identity is spoiled so and no such destination is exposed while a temporary is made
  (`Shuffle.WorstRun`, `Shuffle.PerformInjectiveMultimap`, `Shuffle.DupHitsDestination`).
- Components: only two leading separators mark the alternate root "//" (`base/file_path.h:78-90` cites
  the rules of pathname resolution), but a path that begins with three of them and a name gets it too, as
  in "///a"; no other path does (`PathLaws.AlternateRoot`, `PathLaws.ComponentsBySplitting`).
- Extensions: `base/file_path.h:220-223` promises that `RemoveExtension` and `Extension` always add up to
  the path. They do exactly when there is no extension or no trailing separator to strip
  (`Paths.ExtensionSplit`, `Paths.ExtensionSplitFails`).
- `InsertBeforeExtension` changes the extension of names such as "a..gz", and exactly of those described by
  `GrowsExtension` (`Extensions.InsertBeforeExtensionKeeps`, `Extensions.ExtensionGrows`). With trailing
  separators it puts the suffix in the wrong place unless the extension has exactly one part
  (`Extensions.TrailingSeparators`).
- Quoting: the quoter looks for spaces, backslashes and quotes. An empty argument vanishes, and one with a
  tab but none of those splits (`Quoting.QuoteRoundTrip`, `Quoting.QuoteLosesArguments`).
- On POSIX nothing is quoted when a command line is printed, so that different ones print alike
  (`CommandLineLaws.BuiltOnPosix`).
- Command line: a switch name with '=' breaks the agreement of `switches_` and `argv_`, and no other name
  does (`CommandLines.AgreeInsert`). If program and switch names need no quotes, printing and parsing gives
  back the command line if and only if every value and argument survives quoting and no switch token is
  "--=", which is printed as the terminator (`PrintParse.PrintParseRoundTrip`,
  `PrintParse.BareTerminatorIsLost`).
- Enumeration: `base/file_util.h:483-486` calls the search breadth-first; pending directories are taken from
  a stack. What the header explains the word by does hold: no entry comes after one from further down on
  the same branch, and the entries of one directory come together. Level order is certain if and only if
  the tree is slim: of two directories that hold something, the less deep one is above the other
  (`Enumerations.EnumerateAll`, `Enumerations.WorstListings`, `Enumerations.TwoDeepIsNotSlim`).
- `Delete` of ".", ".." or a root empties it and then fails (`Deletion.Delete`).
- Appending "." to "." is absorbed, so `AppendRelativePath` loses a leading "." component there
  (`Paths.ComponentsOfAppendAll`); "./" has a component "." that "." has not (`Paths.ComponentsOfStrip`).

## Model

| member | source | states |
|---|---|---|
| Shuffle.ClosedDestination | base/file_descriptor_shuffle.cc:52-67 | a destination is among the sources closed exactly when its arc is an identity whose source a later arc reads and someone wants closed |
| Shuffle.ExpectedDelivers | base/file_descriptor_shuffle.cc:24-68 | the table asked for holds at every destination the initial value of its source if and only if no identity is spoiled so |
| Shuffle.SpoiledExample | base/file_descriptor_shuffle.cc:52-67 | two arcs for which the close check loses a destination |
| Shuffle.OutcomeDelivers | base/file_descriptor_shuffle.cc:70-73 | the final table delivers if no identity is spoiled and no temporary is a destination, and with at most sixteen temporaries only then |
| Shuffle.CycleKeepsKeys | base/file_descriptor_shuffle.h:10-23 | moves among open descriptors without close requests keep exactly the open descriptors open |
| Shuffle.Delegate.Duplicate | base/file_descriptor_shuffle.cc:82-85 | succeeds with a descriptor that was not open, now a copy of one that is; on failure nothing changes |
| Shuffle.Delegate.Move | base/file_descriptor_shuffle.cc:87-89 | overwrites the destination with an open source, or fails and changes nothing |
| Shuffle.Delegate.Close | base/file_descriptor_shuffle.cc:91-94 | removes an open descriptor and nothing else, and the close is logged |
| Shuffle.ReadFromCopy | base/file_descriptor_shuffle.cc:36-50 | a later arc that reads what is about to be overwritten reads a copy of it from then on, made once per arc |
| Shuffle.HandOverClose | base/file_descriptor_shuffle.cc:52-58 | the duty to close goes to the next arc with the same source, or lapses at an arc that writes the source |
| Shuffle.PassOver | base/file_descriptor_shuffle.cc:35-59 | after the inner loop every later arc reads a copy or is as before with the duty handed to the first heir only, and the table has at most one temporary more |
| Shuffle.RewritingIsNeed | base/file_descriptor_shuffle.cc:33-37 | as long as no copy went into a destination, a temporary is made exactly for an arc that is no identity and whose destination a later arc reads |
| Shuffle.FreshIsNoDest | base/file_descriptor_shuffle.cc:37-42 | while no destination is exposed, no temporary is a destination |
| Shuffle.PerformArc | base/file_descriptor_shuffle.cc:24-68 | one pass keeps the invariant that the remaining arcs still find the initial values, that done destinations hold theirs, that exactly the due sources are closed and that temporaries were made as needed |
| Shuffle.LastReaderCloses | base/file_descriptor_shuffle.cc:52-67 | a source that some arc wants closed is still marked when its last reader is moved |
| Shuffle.ClosableIs | base/file_descriptor_shuffle.cc:52-67 | a source that is no destination is closed exactly if some arc asks for it |
| Shuffle.CloseExtras | base/file_descriptor_shuffle.cc:70-71 | closes each remembered temporary once, all of them open |
| Shuffle.SixteenClosed | base/file_descriptor_shuffle.cc:16-42 | exactly the first sixteen temporaries are remembered for closing, all of them if there are no more |
| Shuffle.PerformArcs | base/file_descriptor_shuffle.cc:24-68 | the outer loop takes the invariant to the end, or stops at the first failed call |
| Shuffle.PerformInjectiveMultimapDestructive | base/file_descriptor_shuffle.cc:16-74 | fails only if a call fails; else the table is the one asked for, every due source is closed exactly once, after its last move, and then the first sixteen temporaries, which are all there are if the map has at most seventeen arcs; other descriptors are untouched in any case |
| Shuffle.PerformInjectiveMultimap | base/file_descriptor_shuffle.cc:76-80 | every successful run delivers if no identity is spoiled and no destination exposed, and one temporary is made for each arc that needs one; a delegate that hands out an exposed destination loses it |
| Shuffle.WorstRun | base/file_descriptor_shuffle.cc:16-74 | for every map some delegate's run succeeds and delivers if and only if no identity is spoiled and no destination is exposed |
| Shuffle.DupHitsDestination | base/file_descriptor_shuffle.cc:82-85 | a run of two arcs that succeeds and loses a destination |
| Paths.StripIdempotent | base/file_path.cc:1199-1219 | stripping twice is stripping once, on every platform |
| Paths.StripFixpoints | base/file_path.cc:1199-1219 | exactly the paths that end in a separator past the root change, a lone pair of root separators excepted |
| Paths.StripEnd | base/file_path.cc:1199-1219 | what stripping leaves is a prefix with the same drive letter and no separator to strip |
| Paths.AppendShape | base/file_path.cc:466-484 | the result is the stripped path, a separator unless one is there or the path is a drive letter, and the component |
| Paths.BaseNameOfAppend | base/file_path.cc:342-363 | BaseName undoes Append of a file name, on every platform |
| Paths.DirNameOfAppend | base/file_path.cc:306-340 | DirName undoes Append of a file name, up to trailing separators |
| Paths.DirNameFixpoints | base/file_path.cc:306-340 | DirName stands still exactly at ".", a drive letter with up to two separators, and one or two separators; elsewhere it ascends |
| Paths.DirNameAscends | base/file_path.cc:306-340 | any other path has a strictly shorter directory, or "." |
| Paths.DirNameStripped | base/file_path.cc:335-339 | a directory is never empty and has no separator to strip |
| Paths.ComponentsOfAppend | base/file_path.cc:219-252 | appending a name adds exactly that name to the components, on every platform; only "." onto "." is excepted |
| Paths.DirAndBaseTogether | base/file_path.cc:306-363 | appending its base name to its directory names the same place for every path that is no root, drive letter or ".", unless the directory is "." and the base name "." or begins with a drive letter |
| Paths.ComponentsOfStrip | base/file_path.cc:231-242 | trailing separators do not change the components, except after a lone "." |
| Paths.ComponentsAreNames | base/file_path.cc:231-242 | every component but the first is a name without separators |
| Paths.BaseNameShape | base/file_path.cc:352-360 | a base name is a name without separators, or nothing but separators |
| Paths.ComponentsOfAppendAll | base/file_path.cc:294-298 | appending a list of names extends the components by that list exactly unless a leading "." is absorbed |
| Paths.RelativePathFromStart | base/file_path.cc:258-300 | the relative path extends any start path by exactly the child's remaining components unless absorbed |
| Paths.RelativePathReachesChild | base/file_path.cc:258-300 | from the parent itself the relative path leads back to the child |
| PathLaws.SeparatorsAre | base/file_path.cc:32-36 | "/" is the separator on POSIX, "/" and "\\" on Windows |
| PathLaws.DriveLettersAre | base/file_path.cc:54-65 | a drive letter is an ASCII letter and a colon, on builds that have them |
| PathLaws.StripOnPosix | base/file_path.cc:1199-1219 | exactly the paths that end in "/" change, "/" and "//" excepted, and only "/" are taken off |
| PathLaws.StripBehindDrive | base/file_path.cc:1199-1219 | behind a drive letter one separator, or exactly two, stay |
| PathLaws.AppendWithSeparator | base/file_path.cc:466-484 | "/" joins on POSIX and "\\" on Windows, where nothing joins to a bare drive letter |
| PathLaws.CurrentDirectoryIs | base/file_path.cc:306-363 | a name alone lies in ".", and appending it to "." gives it back |
| PathLaws.DirNameKeepsHead | base/file_path.cc:306-340 | a directory has the drive letter of the path, and begins with a separator behind it exactly if the path does |
| PathLaws.TakenApart | base/file_path.cc:306-363 | every path that is no root, drive letter or "." is its directory, separators, its base name and separators, on every platform |
| PathLaws.ComponentsShape | base/file_path.cc:219-252 | the components are the drive letter, one or two separators exactly if the path is rooted, and names, on every platform |
| PathLaws.DriveComesFirst | base/file_path.cc:239-249 | the drive letter comes first, and the root behind it second |
| PathLaws.RootOnPosix | base/file_path.cc:239-242 | the first component is "/" or "//" exactly if the path begins with "/"; only "" and "." have no components |
| PathLaws.ComponentsBySplitting | base/file_path.cc:219-252 | on POSIX the components of every path are its root and what stands between its "/", without a leading "." |
| PathLaws.AlternateRoot | base/file_path.cc:306-340 | the root component is "//" exactly for two leading separators, or three before a name |
| PathLaws.ParentOfAppend | base/file_path.cc:254-256 | a stripped path is the parent of what a name is appended to it, "." excepted; "/" is the parent of "/a" |
| PathLaws.DoubleExtensionsAre | base/file_path.cc:47-47 | the common second extensions are gz, z and bz2, in any case |
| Paths.ExtensionShape | base/file_path.h:218-220 | a non-empty extension starts with exactly one dot and holds no separator |
| Paths.SameDot | base/file_path.cc:121-160 | searching the whole path finds the dot that searching the base name finds |
| Paths.ExtensionSplit | base/file_path.h:220-223 | RemoveExtension and Extension add up to the path if and only if there is no extension or nothing to strip |
| Paths.ExtensionSplitFails | base/file_path.cc:365-383 | a path for which they do not |
| Extensions.ExtensionIsByParts | base/file_path.cc:114-160 | the extension is the last of the parts between dots, with the one before it if that has one to four characters, is not the first, and the last is gz, z or bz2 in any case |
| Extensions.PositionMoves | base/file_path.cc:121-160 | with a suffix inserted, the same dot starts the extension if and only if the name does not grow one with that suffix |
| Extensions.InsertBeforeExtensionKeeps | base/file_path.cc:385-397 | for a stripped path the suffix ends the stem, the directory stays, and the extension stays if and only if it does not grow |
| Extensions.TrailingSeparators | base/file_path.cc:385-397 | a path with trailing separators is treated like the stripped one if and only if its extension has exactly one part |
| Extensions.NoPlaceToInsert | base/file_path.cc:385-391 | an empty suffix changes nothing, and any other gives the empty path exactly if the base name is "", "." or ".." |
| Extensions.ExtensionGrows | base/file_path.cc:146-157 | a file name whose extension grows |
| FilePaths.SamePathAsDirName | base/file_path.cc:68-84 | ignoring the case of drive letters makes no path equal to its directory that is not |
| FilePaths.SamePathIs | base/file_path.cc:68-84 | equal paths differ at most in the case of the drive letter |
| FilePaths.FilePath.StripTrailingSeparatorsInternal | base/file_path.cc:1199-1219 | the index loop leaves the closed form of stripping |
| FilePaths.FilePath.StripTrailingSeparators | base/file_path.cc:504-509 | a stripped copy; the original stays |
| FilePaths.FilePath.DirName | base/file_path.cc:306-340 | cutting a copy in place gives the directory the laws are about |
| FilePaths.FilePath.BaseName | base/file_path.cc:342-363 | cutting a copy in place gives the base name the laws are about |
| FilePaths.FilePath.Append | base/file_path.cc:453-485 | extending a copy in place gives the path the laws are about |
| FilePaths.FilePath.Equals | base/file_path.cc:192-198 | equal up to the case of the drive letter |
| FilePaths.FilePath.GetComponents | base/file_path.cc:219-252 | the loop ends and yields in order the components of the laws: drive letter, root, names, on POSIX what stands between the "/" |
| FilePaths.FilePath.AppendRelativePath | base/file_path.cc:258-300 | true exactly if the parent's components are a non-empty proper prefix of the child's; then the rest is appended, else nothing |
| FilePaths.FilePath.IsParent | base/file_path.cc:254-256 | true exactly if the parent's components are a non-empty proper prefix of the child's, which are those of the laws |
| Quoting.QuoteForCommandLineToArgvW | base/command_line.cc:98-138 | the index loops produce the quoted form that the parsing laws are about |
| Quoting.AppendRun | base/command_line.cc:109-127 | a run of backslashes is copied, doubled before a quote or the end |
| Quoting.ParseBody | base/command_line.cc:106-135 | inside quotes, body and closing quote parse to the argument itself, for any runs of backslashes and quotes |
| Quoting.ParseQuoted | base/command_line.cc:98-138 | a quoted argument parses to itself even in the middle of a word |
| Quoting.ParseQuoteAll | base/command_line.cc:98-138 | a quoted list parses to the readings of its arguments one by one |
| Quoting.QuotesAround | base/command_line.cc:101-135 | quotes are put around exactly what holds a space, a backslash or a quote |
| Quoting.QuoteRoundTrip | base/command_line.cc:98-138 | a list comes back if and only if no argument is empty and none holds a tab without a space, backslash or quote |
| Quoting.QuoteLosesArguments | base/command_line.cc:101-104 | the two ways an argument gets lost |
| Switches.Trim | base/string_util.cc:214-243 | the result neither starts nor ends in whitespace, and a string that does not already is unchanged |
| Switches.TrimIs | base/string_util.cc:214-243 | trimming takes exactly the whitespace off both ends |
| Switches.FiledValues | base/command_line.cc:313-313 | the map holds for each key the value of the last switch with it, and no other keys |
| Switches.EntryReadsBack | base/command_line.cc:304-321 | the entry made of a '='-free name is a switch with that name's key and the value |
| Switches.LowerKeeps | base/command_line.cc:87-93 | lower-casing changes no prefix, separator or whitespace, and nothing the second time |
| CommandLineLaws.SpacesAre | base/string_util.cc:119-160 | the ASCII whitespace is the same on both builds, and only Windows has more |
| CommandLineLaws.SwitchesBegin | base/command_line.cc:26-48 | a switch begins with "-", or on Windows with "/"; "--" is the prefix of length two |
| CommandLineLaws.LoweredOnWindows | base/command_line.cc:87-93 | only Windows lowers names, and only ASCII capitals |
| CommandLineLaws.SplitAtEquals | base/command_line.cc:56-59 | the first "=" separates name and value |
| CommandLineLaws.NamesAndEntries | base/command_line.cc:304-321 | a name is filed lowered and without prefix; its entry has "--" unless it brought a prefix, and "=" before a value only |
| CommandLineLaws.ArgsAreOperands | base/command_line.cc:341-350 | GetArgs of a built command line: the trimmed tokens before the first "--" that do not begin with "-", nor with "/" on Windows, then all after it |
| CommandLineLaws.AbsolutePathIsArgument | base/command_line.cc:30-35 | "/tmp/x" is an argument on POSIX and a switch on Windows |
| CommandLineLaws.FiledIsAsked | base/command_line.cc:64-84 | looking up a name in a built command line finds the value of the last switch token of that name before the first "--" |
| CommandLineLaws.EntriesBeforeDivider | base/command_line.h:157-161 | what stands between program and divider begins like a switch, and the map holds its key |
| CommandLineLaws.CopiedAre | base/command_line.cc:332-339 | copying adds exactly the switches named that the source has, with their values, for names without prefix |
| CommandLineLaws.PrintedOnPosix | base/command_line.cc:231-253 | on POSIX an entry is printed as it is, except that a bare "=" at the end of a switch is dropped |
| CommandLineLaws.BuiltOnPosix | base/command_line.cc:225-255 | on POSIX a built command line is printed as its entries with single spaces between them |
| CommandLines.StablePartition | base/command_line.cc:64-84 | switches are the switch tokens before the first terminator, arguments the rest, each in order |
| CommandLines.ArgsOfBuilt | base/command_line.cc:341-350 | GetArgs of a built command line: the non-switch tokens before the first terminator, then all after it |
| CommandLines.IndexAgreementStep | base/command_line.cc:304-321 | filing one more switch keeps map and entries in agreement if and only if its name has no '=' |
| CommandLines.AgreeInsert | base/command_line.cc:312-320 | inserting at the divider keeps agreement if and only if the name has no '=' |
| CommandLines.CommandLine.NoProgram | base/command_line.cc:143-146 | an empty program, no switches, in agreement |
| CommandLines.CommandLine.FromProgram | base/command_line.cc:148-152 | the trimmed program, no switches, in agreement |
| CommandLines.CommandLine.FromArgv | base/command_line.cc:160-164 | argv sorted into program, switch entries and arguments, in agreement |
| CommandLines.CommandLine.InitFromArgv | base/command_line.cc:218-223 | argv and divider are rebuilt; the switches are added to those there were, so agreement needs none before |
| CommandLines.CommandLine.SetProgram | base/command_line.cc:261-263 | replaces the first entry only, trimmed |
| CommandLines.CommandLine.LookupAgrees | base/command_line.cc:265-293 | looking up a name finds the value of the last switch entry of argv with that name, case aside on Windows |
| CommandLines.CommandLine.AppendSwitchNative | base/command_line.cc:304-321 | the entry goes in at the divider, the value under its key; agreement survives exactly if the name has no '=' |
| CommandLines.CommandLine.AppendArgNative | base/command_line.cc:365-367 | the argument goes to the end, and agreement survives |
| CommandLines.CommandLine.AppendSwitchesAndArguments | base/command_line.cc:64-84 | switch entries before the divider, arguments at the end, as the stable partition says, and agreement survives |
| CommandLines.CommandLine.CopySwitchesFrom | base/command_line.cc:332-339 | exactly the named switches that the source has are appended with their values, and agreement survives |
| CommandLines.CommandLine.AppendArguments | base/command_line.cc:369-374 | another argv is sorted in, with its program if asked, and agreement survives |
| CommandLines.CommandLine.GetArgs | base/command_line.cc:341-350 | everything after the divider without the first terminator |
| CommandLines.CommandLine.GetCommandLineString | base/command_line.cc:225-255 | the loop produces the line that the round trip is about |
| CommandLines.CommandLine.ParseFromString | base/command_line.cc:389-403 | blank input changes nothing; else argv, divider and switches are those of the parsed line |
| CommandLines.CommandLine.FromString | base/command_line.cc:203-207 | a fresh command line in agreement, rebuilt from the parsed line |
| PrintParse.PrintedReads | base/command_line.cc:231-253 | what any printed entry is read back as: itself where it was quoted, else the words between its tabs |
| PrintParse.PrintLineReads | base/command_line.cc:225-255 | parsing the printed line gives the program and the words of all entries; trimming takes off only what empty arguments leave |
| PrintParse.QuotableSurvives | base/command_line.cc:218-255 | if every value and argument survives quoting and no token is "--=", the parser reads exactly argv, and building from it gives the same argv, divider and switches |
| PrintParse.SurvivorsAreQuotable | base/command_line.cc:218-255 | the first entry that does not survive changes argv or the divider, whatever follows it |
| PrintParse.PrintParseRoundTrip | base/command_line.cc:218-255 | if program and switch names need no quotes, argv, divider and switches survive printing and parsing if and only if every value and argument survives quoting and no switch token is "--=" |
| PrintParse.BareTerminatorIsLost | base/command_line.cc:231-238 | a token "--=" loses divider and switches on the way |
| Trees.AncestorsAreDirectories | base/file_util_posix.cc:737-776 | in a tree, everything between a directory and something below it is a directory |
| Trees.LocateAppend | base/file_util_posix.cc:757-757 | the path of an entry names the directory's key and the file name |
| Trees.ValidNamesAre | base/file_util_posix.cc:757-761 | a valid name is not empty, has no "/" and is neither "." nor ".." |
| Trees.KeptIs | base/file_util_posix.cc:758-770 | exactly the entries that are not "." or ".." and are of a wanted kind are kept |
| Trees.PushedIs | base/file_util_posix.cc:765-766 | exactly the subdirectories become pending, each once |
| Trees.ReadOutstanding | base/file_util_posix.cc:755-771 | reading a directory splits what it leads to between its entries and its subdirectories, losing and repeating nothing |
| Trees.ReadShrinks | base/file_util_posix.cc:741-772 | fewer directories are unread afterwards, so the loop ends |
| Trees.OutstandingPlace | base/file_util_posix.cc:737-776 | what is outstanding is in the current directory or in one that is neither it nor above it |
| FileSystems.FileSystem.Unlink | base/file_util_posix.cc:215-216 | removes exactly the non-directory named, or nothing |
| FileSystems.FileSystem.Rmdir | base/file_util_posix.cc:217-218 | removes exactly the directory named, which is empty and no root, "." or "..", or nothing |
| FileSystems.FileSystem.ReadDirectory | base/file_util_posix.cc:814-853 | lists every child once with its kind, in any order, perhaps with "." and ".." |
| FileSystems.FileSystem.Mkdir | base/file_util_posix.cc:565-565 | asks that the parent is a directory; creates a directory, while others may create some too |
| Enumerators.SkipsDots | base/file_util.cc:388-391 | an entry is skipped exactly if it is "." or "..", wherever it lies |
| Enumerators.FileEnumerator.constructor | base/file_util_posix.cc:703-713 | before the first call everything wanted below the root is outstanding |
| Enumerators.FileEnumerator.Sort | base/file_util_posix.cc:755-771 | the loop over the entries keeps and pushes as specified |
| Enumerators.FileEnumerator.ReadPending | base/file_util_posix.cc:745-771 | moving to the next pending directory loses nothing outstanding if it can be read, and makes progress |
| Enumerators.FileEnumerator.Next | base/file_util_posix.cc:737-776 | returns one outstanding path and takes exactly it off, or "" when none is left; the current directory is finished first |
| Enumerators.FileEnumerator.Place | base/file_util_posix.cc:741-776 | nothing is outstanding in the directories above the current one |
| Enumerators.FileEnumerator.GetFindInfo | base/file_util_posix.cc:778-787 | the entry returned last, if there is one |
| Trees.SlimLevels | base/file_util.h:483-486 | in a slim tree every such enumeration is in level order |
| Enumerations.EnumerateAll | base/file_util_posix.cc:737-776 | every wanted descendant exactly once, no entry after one from further down its branch, siblings together, after finitely many calls; in level order if the tree is slim |
| Enumerations.WorstListings | base/file_util_posix.cc:745-771 | for every tree some listings give level order if and only if the tree is slim |
| Enumerations.TwoDeepIsNotSlim | base/file_util_posix.cc:745-771 | a tree whose enumeration is not in level order for all listings |
| Enumerations.TotalSizeSplit | base/file_util.cc:307-309 | a total does not depend on the order of counting |
| Enumerations.SizeOfTwoDeep | base/file_util.cc:298-313 | a tree with files of sizes 5 and 7 has size 12 |
| Enumerations.ComputeDirectorySize | base/file_util.cc:298-313 | the sum of the sizes of all entries below the root that are no directories |
| Deletion.NextPath | base/file_util_posix.cc:226-227 | the next path keeps the traversal complete: whatever is left below the root is stacked or still to come |
| Deletion.Handle | base/file_util_posix.cc:228-234 | a directory is stacked, anything else unlinked, and the enumeration is not disturbed |
| Deletion.UnlinkFiles | base/file_util_posix.cc:220-235 | afterwards only the stacked directories are left below the root, each after those above it |
| Deletion.TopIsEmpty | base/file_util_posix.cc:237-241 | the directory on top of the stack is empty when its turn comes |
| Deletion.RemoveDirectories | base/file_util_posix.cc:237-241 | removes all stacked directories; if all is permitted only a root, "." or ".." stops it, at the very end |
| Deletion.Delete | base/file_util_posix.cc:205-243 | missing counts as deleted; recursively, success means the whole subtree is gone and nothing else; if all is permitted it succeeds exactly if rmdir accepts the name |
| Directories.StepUp | base/file_util_posix.cc:554-558 | each step up drops the last component, or only separators |
| Directories.TopIsRoot | base/file_util_posix.cc:554-558 | the climb ends at the current directory or a root |
| Directories.Subpaths | base/file_util_posix.cc:549-558 | the first loop ends and collects the path and all directories above it |
| Directories.ParentExists | base/file_util_posix.cc:561-565 | whenever mkdir is needed, the parent is already a directory |
| Directories.AscentIsClear | base/file_util_posix.cc:549-558 | the paths climbed through stand in the way exactly if the path or something above it does |
| Directories.EnsureDirectory | base/file_util_posix.cc:563-572 | true exactly if the directory is there afterwards, whoever created it |
| Directories.CreateDirectory | base/file_util_posix.cc:547-575 | true only with the directory there and nothing else changed but directories added, by itself only missing ones on the way up; if all is permitted, true exactly if the path and everything above it is a directory or a name that can be created |
| Copying.WriteAll | base/file_util_posix.cc:1029-1041 | partial writes add up to the bytes read, in order |
| Copying.CopyFile | base/file_util_posix.cc:1005-1050 | the copy is always a prefix of the source; true exactly if no call fails, and then it is the whole source; both files are closed once |
| Atomics.AttemptKeeps | base/atomicops_internals_arm_gcc.h:36-43 | a kernel compare-exchange that succeeds commits what the atomic operation does at that instant, and one that fails changes nothing |
| Atomics.StepKeeps | base/atomicops_internals_arm_gcc.h:32-75 | every step of every thread keeps the invariant |
| Atomics.Linearizable | base/atomicops_internals_arm_gcc.h:32-75 | in every state of every interleaving the word and all results are those of the committed operations done one at a time |
| Atomics.CallOf | base/atomicops.h:55-78 | each call that returned has exactly one commit, of the same operation and result, between invocation and return |
| Atomics.RealTimeOrder | base/atomicops.h:55-78 | of two calls that do not overlap, the earlier takes effect first |
| Atomics.AlwaysSeen | base/atomicops_internals_arm_gcc.h:49-68 | what a thread has loaded was the word at some point since its call began |
| Atomics.OvertakenByCommit | base/atomicops_internals_arm_gcc.h:36-73 | a compare-exchange that must fail although its expected value was loaded has been overtaken: another thread's operation took effect since the load |
| Atomics.AloneFinishes | base/atomicops_internals_arm_gcc.h:32-75 | in any state a thread in a call that goes on alone is through after at most three accesses, if the kernel does not fail without cause |
| Atomics.TurnReturns | base/atomicops.h:55-78 | a turn that commits sets the word and returns as its operation is meant to, for the word at that instant; any other leaves the word |
| Atomics.ReturnsWhatWasLeft | base/atomicops.h:55-78 | in every interleaving an exchange, a load or a compare-and-swap returns the value left by the last operation that set the word, so a compare-and-swap returns its old value exactly if it sets the new one; an increment returns the sum modulo 2^32 |
| Atomics.OpsAreCalled | base/atomicops.h:55-78 | no operation takes effect that no thread has called |
| Atomics.ExchangeConservation | base/atomicops_internals_arm_gcc.h:46-53 | with exchanges only, the first value and the values given are the results and the last word, in this order: none is lost or doubled |
| Atomics.IncrementConservation | base/atomicops_internals_arm_gcc.h:61-75 | the word is its first value plus all increments that took effect, modulo 2^32, and each result is that sum at its instant |
| Atomics.NextValue | base/atomic_sequence_num.h:25-28 | GetNext returns the first value plus the number of calls that took effect before it |
| Atomics.SequenceNumbersDistinct | base/atomic_sequence_num.h:25-28 | up to 2^32 calls of GetNext return pairwise different values |
| Atomics.CountIsKnown | base/atomic_ref_count.h:22-40 | the count is what the calls and returns tell of the references held, or claimed, and what the operations in progress hide |
| Atomics.OneHolder | base/atomic_ref_count.h:32-54 | the discipline lets the holder of the only reference look at the count and then drop it |
| Atomics.DisciplineSuffices | base/atomic_ref_count.h:22-40 | if callers drop only references they hold and use the count only while holding one, every operation takes effect at a positive count and leaves it in range, in whatever order they take effect |
| Atomics.LastReference | base/atomic_ref_count.h:32-40 | under that discipline of calls and returns exactly the decrement that drops the last reference returns false, and nothing takes effect after it |

## Left out

- PrependWrapper and the process-wide singleton: the first puts tokens without prefix among the switches, the second only holds one object.
- CommandLines.CommandLine.CopySwitchesFrom: when a command line copies from itself, only agreement is stated, not which entries are added.
- CommandLines.CommandLine.AppendArguments: appending a command line to itself is excluded; the loop reads the argv it is extending and would not end.
- CommandLines.CommandLine.ParseFromString: the special rule of CommandLineToArgvW for the program name is not modelled; the round trip asks for a program name that is read the same under both rules.
- Quoting.QuoteRoundTrip: the rules are those the source refers to; the doubled quote inside quotes that newer runtimes treat specially is not produced by the quoter and not modelled.
- PrintParse.PrintParseRoundTrip: for programs and switch names that need no quotes; a quote in a name, which is printed as it is, can change how all later entries are read.
- FilePaths.FilePath.AppendRelativePath: without drive letters and with "/" as separator; the comparison of drive letters by prefix is not modelled.
- Extensions.InsertBeforeExtensionKeeps: base names that are file names, and suffixes without separator and, with drive letters, without colon; Extensions.TrailingSeparators covers paths that are not stripped.
- CommandLineLaws.CopiedAre: for names given without prefix, as callers give them; CommandLines.CommandLine.CopySwitchesFrom covers all.
- PathLaws.ComponentsBySplitting: without drive letters; PathLaws.ComponentsShape and PathLaws.TakenApart hold on every platform.
- Paths.ComponentsAreNames: without drive letters; with them a second component may be the root behind the drive letter.
- Paths.ComponentsOfAppendAll: without drive letters, as are Paths.RelativePathFromStart and Paths.RelativePathReachesChild; the latter starts from a stripped parent.
- AddExtension, ReplaceExtension, MatchesExtension, comparison ignoring case and the HFS tables: further operations on extensions, or tables of characters.
- Encodings: strings are sequences of characters, and the conversions between wide and narrow strings are taken as the identity; pickling is left out.
- Enumerators.FileEnumerator.Next: patterns, ".." on request, failing stat calls and symbolic links that are followed are not modelled; a link is an entry that is no directory, and where links would be followed the tree has none.
- Trees.LocateAppend: a path names its components; ".." and directory links create no aliases.
- Deletion.Delete: nothing else changes the tree meanwhile, and the root is no symbolic link.
- Directories.CreateDirectory: other processes only create directories; a link to a directory is not one.
- Enumerations.ComputeDirectorySize: sizes are added without overflow.
- Copying.CopyFile: interrupted calls are retried below this level; a write may take no bytes only finitely often.
- Atomics.Linearizable: steps are sequentially consistent; memory barriers and weak orders are not modelled. Signed overflow wraps around.
- Atomics.OvertakenByCommit: that every call returns is not stated, as a kernel that keeps failing without cause, or threads that keep overtaking, can hold a thread in its loop.
- The Windows, Mac and x86 variants of the atomics and of the file functions: single instructions or system calls.
- Temporary files, memory-mapped files, path services, shortcuts and logging: thin wrappers around system calls.
