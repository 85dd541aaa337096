# ymp in Dafny

ymp is a package manager written in Vala and C. This project models the algorithms at its core and proves
what they promise. Each module follows a part of the program; loops that update variables are methods with
loops, objects are classes, and every such method is proved against a function whose properties are lemmas.

Packages and transactions

- `Catalogue`: names, packages, what is available and installed, and the two dependency graphs.
- `Resolver`, `DependencyEngine`: the two depth-first searches over package names, as functions, and as the
  recursive loops over global arrays that compute them.
- `Reachability`, `InstallOrder`: what the searches find, on any graph, and in which order.
- `Quarantine`, `Validation`: validation of the unpacked files, one job for each list, interleaved step by step,
  and what every interleaving guarantees.
- `Leftovers`, `Transaction`, `PackageManager`: what an upgrade leaves behind; install and remove as transactions
  over the package database and the file system, and step by step.
- `Safety`, `Agreement`: what every history of runs keeps. Dependencies stay met; the file system agrees with
  the database.
- `Promises`: what the searches and a run of install or remove promise, said without them.
- `JobPool`, `PoolSafety`: the worker pool, with its counter that is read and written in two steps, and what it
  guarantees.
- `TombstoneArray`, `ArrayRefinement`: the growing array under everything else, with values in slots and holes
  for removed ones, and the list it stands for.

Texts

- `Text`, `YamlParser`, `YamlReading`: splitting, stripping, dedenting, the indentation-based parser, and which
  lines its readers go by.
- `Fields`, `PackageData`, `Comments`, `MetadataPrinter`, `MetadataRoundTrip`, `FinishedFile`, `FinishedFields`,
  `FinishedRoundTrip`: printing, finishing and reading package metadata.
- `RepositoryIndex`, `IndexAddress`, `IndexRoundTrip`, `PublishedChoice`: printing and loading the repository
  index, the address line, and choosing a version.
- `SafeDir`, `PercentCoding`: the path cleaner and the percent-encoding of RFC 3986.

Programs

- `Brackets`, `BfInterpreter`, `BfCompiler`, `BfEquivalence`: the brainfuck interpreter, which scans for
  brackets, the compiler, which emits nested loops, and the proof that they agree.

## How to read the model

- The array keeps its values in slots 1 to `size`, and its lookup stops one slot short, as in the program. So
  an array that was only added to never finds the value added last. The searches are proved with this lookup:
  a name may be visited twice and a result may hold repeats.
- Interleavings are schedules: sequences that name the job or worker that moves next. A step makes at most one
  access to shared data. Theorems hold for every schedule.
- A run of install or remove is a `Request`. It carries what the run finds outside the two state maps: the
  repositories, the expansion of groups and regex rules, the listing of the database, the order in which
  extraction jobs finish, the schedule of the validation jobs, and whether anything else stopped it.
- Checksums, the matching of restricted paths, number parsing and what is read through a link are parameters.
  Nothing is assumed about them.
- Where the program ends itself on errors, a method returns no result and the state is unchanged.
- `Uncut` says that the depth limit is not below twice the number of names. With the default limit of 1000000
  it holds for up to 500000 names.
- Results that are false of the code in general are stated with their exact condition: removal and short link
  lines, moved files, values that end in a bar or hold a comment sign, `safedir` on some relative paths,
  the address line in an index not indented by two spaces, additions after removals, insertion without a hole.
  The comments and documentation in the source do not mention these cases; the model follows the code.

## Model

| member | source | states |
|---|---|---|
| Safety.DependenciesStayMet | src/data/dependency.vala:15-93 | After every history of install, upgrade and remove runs, on any dependency graph, cycles and group roots included, every dependency of every installed package is installed. |
| Safety.InstallMeets | src/operations/package-manager/install.vala:18-64 | One install run, committed or aborted, keeps all dependencies met: what it commits is closed under missing dependencies. |
| Safety.RemoveMeets | src/operations/package-manager/remove.vala:10-46 | One remove run keeps all dependencies met: what it takes away is closed under dependants. |
| Safety.ToInstallIsClosed | src/operations/package-manager/install.vala:18-24 | Whatever a package to be installed depends on is to be installed as well or already there, also for the list of an upgrade. |
| Agreement.AgreementIsKept | src/operations/package-manager/install.vala:59-70 | After every history, a path with an owner is in the file system exactly when its owner is installed and lists it, with the recorded checksum or target; paths without an owner are never touched. |
| Agreement.FreshDiskInOrder | src/operations/package-manager/install.vala:18-64 | A system without packages, and without files at managed paths, is where every such history may start. |
| Agreement.InstallAgrees | src/operations/package-manager/install.vala:49-70 | An install or upgrade keeps this agreement for every order of the extraction jobs and every interleaving of the validation jobs. |
| Agreement.RemoveAgreesIff | src/operations/package-manager/remove.vala:52-97 | A remove run keeps the agreement exactly when no removed package has a link line of at most 3 characters, which the code skips. |
| Agreement.ShortLinkLeftBehind | src/operations/package-manager/remove.vala:55-61 | Such a package: database and file system agree before it is removed, its link is left behind, and they no longer agree. |
| Agreement.RemainingFiles | src/operations/package-manager/remove.vala:52-97 | After a remove run the files that remain are those no removed package erases, unchanged, whatever the order of the removals. |
| Agreement.MovedFilesAreLost | src/operations/package-manager/install.vala:59-70 | After a commit a path is in the file system exactly when it was there or in the quarantine, and no installed package of the run used to list it and no longer does; the quarantined file counts. So a file that moves between packages is lost, and a path must keep its owner. |
| Agreement.FileMovesAway | src/operations/package-manager/install.vala:59-70 | Such a run: validation passes, a link moves from one package to another, and after the commit its new owner is installed and lists it, and it is gone. |
| Agreement.ValidatedMatches | src/data/quarantine.vala:85-167 | What passed validation matches its lists, line by line. |
| Leftovers.LeftoverMembers | src/operations/package-manager/install.vala:131-158 | A leftover is a path of the old version that is not a path of the new one. |
| Leftovers.AllLeftoversMembers | src/operations/package-manager/install.vala:160-178 | All leftovers together: the paths some package of the run used to list and no longer does. |
| Leftovers.CalculateLeftoverSingle | src/operations/package-manager/install.vala:131-158 | The array of old paths, added and then removed from, holds the leftovers of the package. |
| Leftovers.CalculateLeftover | src/operations/package-manager/install.vala:160-178 | The leftovers of all packages, put together in the order of the packages, in whatever order the jobs finish. |
| PackageManager.System.InstallMain | src/operations/package-manager/install.vala:1-76 | The whole new database and file system of an install run, and, with the depth limit out of reach, in plain terms (see Promises.InstallDoes): what is asked for and missing or outdated is installed with its files, or nothing changes at all. |
| PackageManager.System.PackagesToInstall | src/operations/package-manager/install.vala:18-24 | The result of the resolver, for an upgrade followed by that for the upgradable packages; nothing when there were errors. |
| PackageManager.System.GetUpgradable | src/data/dependency.vala:160-173 | The installed packages with a newer release on offer. |
| Transaction.UpgradableMembers | src/data/dependency.vala:160-173 | A name is in that list exactly when it is installed, offered, and the offered release is higher. |
| Transaction.UpgradableGrows | src/data/dependency.vala:160-173 | They stand in the order of the listing. |
| PackageManager.System.QuarantineInstall | src/data/quarantine.vala:171-213 | Every quarantined file is in place, every entry replaced, all else as before, in whatever order the files are found. |
| PackageManager.System.RemoveMain | src/operations/package-manager/remove.vala:1-50 | The whole new database and file system of a remove run, and, with the depth limit out of reach, in plain terms (see Promises.RemoveDoes): exactly what reaches a root is gone with its files, or nothing changes at all. |
| PackageManager.System.RemoveSingle | src/operations/package-manager/remove.vala:52-97 | One package: its entry goes, its files go, its links with more than 3 characters in the line go, nothing else. |
| Reachability.DependenciesExact | src/data/dependency.vala:15-93 | On any graph the result of the forward search is exactly the names reachable from the roots that have to be installed, and there are errors exactly for reachable names that cannot be resolved. |
| InstallOrder.DependenciesFirst | src/data/dependency.vala:230-250 | On an acyclic graph, in front of every occurrence of a package stands every package it needs, directly or not, that has to be installed. |
| Reachability.ReverseDependenciesExact | src/data/dependency.vala:186-226 | The result of the reverse search is exactly the installed names that reach a root along dependencies. |
| Reachability.RemovalSetIsLeast | src/data/dependency.vala:254-271 | The removal set is contained in every set that holds what is installed of the roots, the members of groups and rules included, and is closed under installed dependants. |
| Reachability.RemovalSetIsSuch | src/data/dependency.vala:254-271 | The removal set is such a set itself, group roots included. |
| Reachability.RemovalSetIsClosed | src/data/dependency.vala:186-226 | It holds every root that is installed, and with a package every installed dependant of it. |
| Resolver.SearchesAreShort | src/data/dependency.vala:19-24 | Both searches end after at most two visits a name, on graphs with arbitrary cycles and groups, and name no more packages than they make visits. |
| Resolver.VisitsBounded | src/data/dependency.vala:189-194 | A cache in which no name was seen when it was added has at most twice as many entries as there are names. |
| DependencyEngine.HasIsSeen | src/ccode/array.c:112-126 | On an array that was only added to, the lookup in slots finds what the searches take it to find: all but the last value. |
| DependencyEngine.Engine.ResolveProcess | src/data/dependency.vala:15-93 | The recursive loop over the global arrays computes the forward search. |
| DependencyEngine.Engine.ProcessPackage | src/data/dependency.vala:42-90 | One package: satisfied, missing, or its dependencies and then the package itself. |
| DependencyEngine.Engine.ResolveReverseProcess | src/data/dependency.vala:186-226 | The recursive loop over the global arrays computes the reverse search. |
| DependencyEngine.Engine.ProcessDependants | src/data/dependency.vala:216-224 | The loop over the installed packages resolves the dependants one at a time. |
| DependencyEngine.ResolveDependencies | src/data/dependency.vala:230-250 | The result of the forward search, or none when there were errors. |
| DependencyEngine.ResolveReverseDependencies | src/data/dependency.vala:254-271 | The result of the reverse search, or none when there were errors. |
| Promises.DependenciesAre | src/data/dependency.vala:40-91 | With the depth limit out of reach, a name is in the result of the forward search exactly when it is asked for, directly or through groups and packages to be installed, and on offer and missing or lower in release, or a reinstall was asked for; a name that is neither on offer nor installed, or an unknown group, is an error. |
| Promises.RemovalIs | src/data/dependency.vala:186-226 | A name is in the result of the reverse search exactly when it is installed and is named or depends, directly or not, on an installed package that is. |
| Promises.StopsAtTheLimit | src/data/dependency.vala:37-39 | With a depth limit of zero both searches give the name itself and nothing it leads to. |
| InstallOrder.RepeatsAreAdjacent | src/data/dependency.vala:41-91 | On an acyclic graph no package stands in the result twice, except right behind itself. |
| Promises.InstallDoes | src/operations/package-manager/install.vala:18-70 | An install run from the command line to the disk. It goes through when nothing unknown is asked for, nothing else stopped it, everything is on offer and validation passed. Then every name asked for, or outdated in an upgrade, or needed by one of these, that is missing or lower in release has the entry on offer, all others keep theirs, and a path is there exactly when it was there or unpacked and is not left over, with the content of the last archive that carries it. Otherwise nothing changes. |
| Promises.UpgradesAreTaken | src/operations/package-manager/install.vala:18-24 | Every listed package with a newer release on offer is in the result for the upgradable ones. |
| Promises.ValidatedIff | src/data/quarantine.vala:85-167 | Validation passes only if every listed file was unpacked and has the recorded checksum, every listed link its recorded target, and no rule that is not empty matches their paths; run to its end, with no path listed twice, it passes exactly then. |
| Promises.FileIsInPlace | src/data/quarantine.vala:171-213 | After a run that went through, every listed file of its packages is in place with its recorded checksum, unless another package of the run gave up the path. |
| Promises.LinkIsInPlace | src/data/quarantine.vala:171-213 | So is every listed link, with its recorded target. |
| Promises.RemoveDoes | src/operations/package-manager/remove.vala:1-97 | A remove run from the command line to the disk: exactly the installed packages that are named or depend on one that is are gone, with the files they list and the links whose line has more than 3 characters; nothing changes when an unknown group is met or the package manager would go. |
| Promises.LongLinksGo | src/operations/package-manager/remove.vala:55-61 | A link whose path and target, with the space between them, have more than 3 characters goes with its package. |
| Validation.ConflictIsCaught | src/data/quarantine.vala:96-104 | Under every interleaving: when a job looks up a path that a finished line has entered, and another path was entered since, validation does not pass. |
| Validation.PassedIsGood | src/data/quarantine.vala:54-167 | Under every interleaving of the validation jobs: if validation passes, every listed file exists with its recorded checksum, every listed link is a link to its recorded target, and no listed path is restricted. |
| Validation.PassedIffGood | src/data/quarantine.vala:54-167 | When no path is listed twice, a validation run to its end passes exactly when every line is good, so the interleaving does not matter. |
| Validation.StepsMakeProgress | src/data/quarantine.vala:85-167 | No job waits for another: every step of a job that is not done brings the validation closer to its end. |
| Validation.ValidationFinishes | src/data/quarantine.vala:54-75 | Whatever the jobs have done so far, in whatever order, they can all be run to their ends. |
| Validation.HasIsSeen | src/ccode/array.c:112-126 | On an array that was only added to, the lookup in slots finds what the validation jobs take it to find: all but the last value. |
| JobPool.Jobs.Add | src/ccode/job.c:36-48 | A job is appended unless the pool is full; the total never exceeds the maximum. |
| PoolSafety.NeverTwice | src/ccode/job.c:18-28 | At every point of every interleaving no job has been called twice and `finished` does not exceed the callbacks that have returned. |
| PoolSafety.ExactlyOnce | src/ccode/job.c:50-64 | When all workers are out, every job has been called exactly once and has returned. |
| PoolSafety.StepsMakeProgress | src/ccode/job.c:18-28 | Every step of a worker that is not out brings the pool closer to its end. |
| PoolSafety.FinishedMayLoseCounts | src/ccode/job.c:25-25 | The counter itself may lose increments: an interleaving of two workers after which two callbacks have returned and `finished` is 1. |
| ArrayRefinement.HistoryIsList | src/ccode/array.c:38-110 | After any adds, with any number of growths, and any removes, the live slots are the added values in order without the removed ones, and all slots the readers look at are inside the buffer. |
| TombstoneArray.AddAppends | src/ccode/array.c:38-54 | As long as nothing was removed an add appends, whether the buffer grows or not. |
| TombstoneArray.AddKeepsAllIff | src/ccode/array.c:38-54 | After removals an add keeps every value exactly when the slot it picks is a hole. |
| ArrayRefinement.AddLosesValue | src/ccode/array.c:38-54 | A history in which a value is lost: three adds, the removal of the first, one more add. |
| TombstoneArray.RemoveClears | src/ccode/array.c:98-110 | A remove clears the slots that hold the value, where they are, and touches no other; size and removed balance. |
| TombstoneArray.RemoveKeepsWellFormed | src/ccode/array.c:98-110 | A remove takes out every copy of the value and nothing else, and the counters stay in balance. |
| ArrayRefinement.WithoutAllMembers | src/ccode/array.c:98-110 | What is left after removals: the values that were not removed. |
| ArrayRefinement.HasMissesLast | src/ccode/array.c:112-126 | On an array that was only added to, the lookup finds every value except the one added last. |
| TombstoneArray.InsertPlaces | src/ccode/array.c:160-189 | Whether there is a hole or not, the value is in its slot, and one more is counted. |
| ArrayRefinement.InsertIsInsertion | src/ccode/array.c:160-189 | With a hole at or above the index, an insert puts the value in front of everything live from there on. |
| ArrayRefinement.InsertStaysVisible | src/ccode/array.c:160-189 | All values stay visible to the readers exactly when the index is at most one past size plus removed. |
| ArrayRefinement.InsertNeedsHole | src/ccode/array.c:175-187 | The list grows by one exactly when there is a hole; without one the last value falls off. |
| TombstoneArray.CArray.constructor | src/ccode/array.c:20-32 | A new array of 1024 empty slots. |
| TombstoneArray.CArray.Add | src/ccode/array.c:38-54 | The whole new state: the buffer grown by 1024 slots when the last one would be reached, the value in slot size + 1. |
| TombstoneArray.CArray.Adds | src/ccode/array.c:91-96 | The values added in turn. |
| TombstoneArray.CArray.Set | src/ccode/array.c:56-67 | The array holds exactly the new values. |
| TombstoneArray.CArray.Remove | src/ccode/array.c:98-110 | Every slot with the value is cleared and counted. |
| TombstoneArray.CArray.Has | src/ccode/array.c:112-126 | Whether one of the first size + removed slots holds the value. |
| TombstoneArray.CArray.Insert | src/ccode/array.c:160-189 | The slots from the index up to the first hole move up by one. |
| TombstoneArray.CArray.Get | src/ccode/array.c:210-227 | The list of live values. |
| TombstoneArray.GetString | src/ccode/array.c:69-89 | The live values joined, with every slot access inside the buffer. |
| BfEquivalence.CompilerCorrect | src/ccode/brainfuck.c:68-107 | The emitted text is read back with its declarations and started from the values they give. For a balanced text whose run keeps the pointer on the tape and tests no cell that is a non-zero multiple of 256, the emitted program is well-formed, never leaves its memory, terminates exactly when the interpreter does, and leaves the same pointer, remaining input, output and, as unsigned characters, tape. Runs that do not end: the interpreter passes through every state in which the program tests a loop, and whatever it writes the program writes. |
| BfEquivalence.CorrectInRange | src/ccode/brainfuck.c:16-61 | The case of cells in 0..255: the final tapes are equal. |
| BfCompiler.CompilesIffBalanced | src/ccode/brainfuck.c:77-105 | The emitted text reads as a C program exactly when the brackets balance: with `stdio.h` and `stdlib.h`, an `int ptr` of 0, 1048576 unsigned cells, and the loops of the text as statements. |
| BfCompiler.BfCompile | src/ccode/brainfuck.c:68-107 | What the compiler writes, headers and declarations first, character by character. |
| BfInterpreter.Brainfuck | src/ccode/brainfuck.c:8-62 | The interpreter with its two scanning loops runs the steps of the model. |
| BfInterpreter.SkipLoop | src/ccode/brainfuck.c:31-41 | Where the forward scan stops. |
| BfInterpreter.RewindLoop | src/ccode/brainfuck.c:44-55 | Where the backward scan stops. |
| BfInterpreter.ScansFindPartner | src/ccode/brainfuck.c:30-56 | In a balanced text both scans stop exactly at the matching bracket and leave the counter at zero. |
| BfInterpreter.BalancedRunsStayInText | src/ccode/brainfuck.c:16-61 | A run of a balanced text never leaves the text, and the counter is zero between rounds. |
| BfInterpreter.InstructionsDo | src/ccode/brainfuck.c:21-61 | What each instruction does to cells, pointer, input and output. |
| BfInterpreter.StopsAre | src/ccode/brainfuck.c:16-20 | A run stops behind the last character, and with an error when the pointer has left the tape before one. |
| BfInterpreter.RunAfterSteps | src/ccode/brainfuck.c:16-61 | A run goes on from where its first steps end. |
| Brackets.BalancedIffTree | src/ccode/brainfuck.c:30-56 | A text is balanced exactly when it spells a tree of blocks. |
| Brackets.MatchUnique | src/ccode/brainfuck.c:30-56 | A bracket has at most one partner. |
| Text.TrimUndoesIndent | src/ccode/string.c:68-90 | Trimming a text with n spaces before each line gives the text back, blank lines and a final line end included, exactly when the text does not start with a space. |
| Text.TrimUndoesShift | src/ccode/string.c:68-90 | An indented list of lines gives the lines back. |
| Text.TrimCuts | src/ccode/string.c:68-90 | Trimming takes as many characters off every line as the first line has spaces in front, whatever they are. |
| Text.ShortLineIsEaten | src/ccode/string.c:77-88 | A line that is too short for that takes characters of the next line with it, and the line end between them. |
| Text.StripIs | src/util/yamlparser.vala:114-122 | Stripping takes the spaces off both ends, and nothing else. |
| Text.TrimText | src/ccode/string.c:68-90 | The copy shortened in place is the text without the indentation of its first line. |
| Text.CountTabs | src/ccode/string.c:26-33 | The number of leading spaces. |
| Text.Ssplit | src/util/string.vala:19-33 | The non-empty pieces between the separators. |
| Text.LinesOfText | src/util/string.vala:19-33 | Splitting undoes joining, for lines that are not empty. |
| YamlParser.YamlFile.GetAreaSingle | src/util/yamlparser.vala:159-194 | The area is the run of indented lines behind the first header, trimmed. |
| YamlParser.YamlFile.GetArea | src/util/yamlparser.vala:147-157 | Nested areas, outermost first. |
| YamlParser.YamlFile.GetAreaList | src/util/yamlparser.vala:53-77 | The bodies of all headers with the name, in order, blank lines and empty bodies left out, each trimmed. |
| YamlParser.YamlFile.GetValue | src/util/yamlparser.vala:95-125 | The value behind the first line with the name, or the block under it. |
| YamlParser.YamlFile.GetArray | src/util/yamlparser.vala:129-143 | The entries of the dashed lines of an area. |
| YamlParser.YamlFile.HasAreaIn | src/util/yamlparser.vala:41-49 | Whether a line starts with the name and a colon. |
| YamlReading.ValueIs | src/util/yamlparser.vala:95-125 | The value is what follows the name and its colon on the first such line, without the spaces around it. |
| YamlReading.BlockIs | src/util/yamlparser.vala:106-117 | When that line ends in a bar, the value is the indented block behind it. |
| YamlReading.NoValue | src/util/yamlparser.vala:95-125 | Without such a line the value is empty. |
| YamlReading.AreaIs | src/util/yamlparser.vala:159-194 | An area is the indented lines behind the first header with its name, without the indentation. |
| YamlReading.NoArea | src/util/yamlparser.vala:159-194 | Without such a header the area is empty. |
| YamlReading.DottedArea | src/util/yamlparser.vala:147-157 | A dotted path leads from area to area, outermost first. |
| YamlReading.ItemIs | src/util/yamlparser.vala:136-140 | An entry is what follows a dash and a space, without the spaces around it. |
| YamlReading.AreaListIs | src/util/yamlparser.vala:53-77 | Every header with the name gives one area: the lines up to the next header that are not blank, without their indentation; none when all are blank. |
| YamlReading.OtherAreas | src/util/yamlparser.vala:59-67 | Headers with other names are passed over with their lines. |
| YamlReading.NoAreas | src/util/yamlparser.vala:53-77 | Lines without a header hold no area. |
| Fields.ValueOfField | src/util/yamlparser.vala:114-122 | Among the lines of other fields a printed value is found exactly when it does not end in a bar. |
| Fields.ArrayOfField | src/util/yamlparser.vala:129-143 | Among the lines of other fields every list is found again, item by item. |
| Fields.FieldPresent | src/util/yamlparser.vala:41-49 | A key is found exactly when its field was printed. |
| Comments.ReadFile | src/util/file.vala:40-69 | The text without its comments and blank lines. |
| Comments.CommentIsCut | src/util/file.vala:51-67 | A line is cut short before its first comment sign, and goes when only spaces are left. |
| Comments.ReadFileKeepsIff | src/util/file.vala:40-69 | Reading a text of whole lines keeps it exactly when it has no comment sign. |
| MetadataPrinter.CreateMetadataInfo | src/util/builder_target/ymp.vala:123-226 | The text written for a source: its fields in order, each the value found under its name, lists and the unsafe mark only when there is something to say; nothing when name, version, release or architecture is missing. |
| MetadataPrinter.FieldsArePrinted | src/util/builder_target/ymp.vala:135-222 | The lines of a value, of a list and of a mark, indented by four and five spaces; an empty list and a mark that is not set print nothing. |
| MetadataPrinter.CollectDepends | src/util/builder_target/ymp.vala:168-192 | The base dependencies, then those of the use flags. |
| MetadataPrinter.PrintedDependencies | src/util/builder_target/ymp.vala:168-192 | Printed as dependencies are the base dependencies and, when the source knows any flags, those of every flag in use; the setting for the package replaces the general one, and `all` stands for every flag the source knows. |
| MetadataPrinter.BaseComesFirst | src/util/builder_target/ymp.vala:168-192 | The base dependencies stand first. |
| FinishedFile.CreateDataFile | src/util/builder_target/ymp.vala:270-277 | The file read without comments, with three more lines. |
| MetadataRoundTrip.MetadataComesBackIff | src/data/package.vala:38-62 | What is printed is loaded as a binary package whose area gives back every field, exactly when no value ends in a bar; values are single lines without spaces at their ends. |
| FinishedFile.DataFileIff | src/util/builder_target/ymp.vala:272-277 | The finished file is the print of the fields of both steps exactly when no value holds a comment sign. |
| FinishedFile.DataFileTextIs | src/util/builder_target/ymp.vala:270-277 | Whatever the values hold, the finished file is a text with one package area: the lines of the first step up to their comment signs, then those of the second. |
| FinishedFields.FinishedFieldsIff | src/data/package.vala:138-156 | From an area with those lines exactly the fields survive whose values do not end in a bar and, in the first step, hold no comment sign; the values of the other fields do not matter. |
| FinishedRoundTrip.FinishedFileComesBackIff | src/data/package.vala:38-62 | The finished file is loaded as a binary package in any case. A field comes back exactly when its value does not end in a bar and, in the first step, holds no comment sign, whatever the other fields hold; so all come back exactly when this is so for each. |
| FinishedRoundTrip.FieldsByName | src/data/package.vala:138-156 | Description, lists and the unsafe mark are found under their names, each exactly when it survives. |
| FinishedRoundTrip.FileFieldsByName | src/data/package.vala:148-156 | So are archive and file checksums, sizes, architecture and address. |
| FinishedRoundTrip.ObjectComesBack | src/data/package.vala:110-134 | A package object loaded from a finished file has the printed dependencies exactly when none holds a comment sign, the printed name and version exactly when these hold none and do not end in a bar, and then the release that was printed, as a number. |
| MetadataRoundTrip.LoadUndoesNested | src/data/package.vala:38-62 | Loading takes the two headers of a package or source text off again. |
| PackageData.LoadIs | src/data/package.vala:38-59 | Of the area `ymp`, or of the whole text when there is none, `package` is read, or else `source`; a text with neither is broken. |
| PackageData.SourceDependencies | src/data/package.vala:110-134 | A source depends on its base dependencies, on what it is built with, and on what its flags in use bring. |
| PackageData.SourceBaseFirst | src/data/package.vala:110-134 | The base dependencies stand first, then what a source is built with. |
| PackageData.PackageObject.LoadFromData | src/data/package.vala:38-62 | The object holds what its area says, or loading fails for broken metadata. |
| PackageData.PackageObject.ReadValues | src/data/package.vala:110-134 | Name, version, dependencies and release are those of the area; a source also depends on what it is built with and what its use flags need. |
| PackageData.PackageObject.Get | src/data/package.vala:148-156 | The value of a key, or the empty string. |
| PackageData.PackageObject.Gets | src/data/package.vala:138-144 | The list of a key, or the empty list. |
| RepositoryIndex.CreateIndexSingle | src/data/repository.vala:330-382 | The lines of one package file in the index. |
| RepositoryIndex.RunIndexJobs | src/data/repository.vala:422-437 | Every slot holds the text of its file, in whatever order the jobs are run. |
| RepositoryIndex.CreateIndexData | src/data/repository.vala:392-442 | The index text depends on the name and the files, not on the order of the jobs; there is none without a name. |
| RepositoryIndex.UpdateRepo | src/data/repository.vala:298-305 | Exactly the texts that begin with an index header are kept, and they gain one line, whether or not they end in a line end. |
| IndexAddress.AddressIsAdded | src/data/repository.vala:298-305 | In an index that is one area, indented by any number of spaces: without an address of its own, the added address is found exactly when the indentation is two spaces and the address does not end in a bar; an address of its own is found as before if what is left of the added line does not join its block. |
| IndexAddress.OwnStaysIff | src/data/repository.vala:298-305 | For an address and an indentation that condition holds exactly when the own address of every index stays. |
| IndexAddress.OtherKeysStay | src/data/repository.vala:298-305 | Every other key, its value and its list of areas is as before, if what is left of the added line without the indentation of the index is empty, or a header without another key. |
| IndexAddress.OthersStayIff | src/data/repository.vala:298-305 | For an address and an indentation that condition holds exactly when all other keys stay in every index. |
| RepositoryIndex.Repository.Load | src/data/repository.vala:27-45 | Name, address and the areas of packages and sources. |
| RepositoryIndex.Sindex | src/util/string.vala:6-14 | All indices of a string in a list, in order. |
| RepositoryIndex.FindBest | src/data/repository.vala:83-103 | The first version of the highest release above zero, or none exactly when no version has a release above zero. |
| RepositoryIndex.GetPackageFromRepository | src/data/repository.vala:181-202 | Over all repositories: the first version of the highest release above zero. |
| RepositoryIndex.GetRepos | src/data/repository.vala:126-144 | One loaded repository for each kept index that has a name, and the name asked for when one is. |
| PublishedChoice.FindPackage | src/data/repository.vala:181-202 | From the kept texts of any list of published indexes whose packages have names and releases without comment signs and final bars: the first published package of the highest release above zero over the repositories used, or none exactly when there is none; its object has the name, the release, and the printed dependencies exactly when none holds a comment sign. An index whose name ends in a bar is not used. |
| PublishedChoice.ChoiceIsPublished | src/data/repository.vala:181-202 | What is chosen in loaded repositories is the first of the highest release among the packages that were published. |
| PublishedChoice.ChosenObject | src/data/package.vala:110-134 | The object made from an area of the index has the printed dependencies, name, version and release, each exactly when it survives. |
| IndexRoundTrip.PackagesComeBack | src/data/repository.vala:392-442 | For any list of finished package files the index text is accepted by the update, and from the text kept with its address loading finds the name and the address, each exactly when it does not end in a bar, no sources, and one area a package, in order; each area gives back exactly the fields whose values do not end in a bar and, in the first step of the metadata, hold no comment sign. |
| IndexRoundTrip.IndexComesBack | src/data/repository.vala:27-45 | For packages and sources: name and address as above, and the areas of both kinds are, in order, the lines of the indexed areas with the lines of their files. |
| IndexRoundTrip.PackageEntryIsGood | src/data/repository.vala:371-381 | Every package file the builder finishes is one of the files this is about, comment signs or not. |
| IndexRoundTrip.PackageComesBackIff | src/data/repository.vala:371-381 | The area of a package in the index gives back exactly the fields, of its metadata and of the file, that survive in the finished file. |
| SafeDir.SafeDirectory | src/ccode/file.c:219-272 | The cleaning loops over the buffer terminate and compute the cleaned path. |
| SafeDir.Squeeze | src/ccode/file.c:238-255 | Every occurrence of the pattern is cut, first occurrence first. |
| SafeDir.SafedirIsSafe | src/ccode/file.c:231-268 | The result starts with a slash, is all printable, and has neither two dots nor two slashes in a row. |
| SafeDir.ReplacedByDots | src/ccode/file.c:231-236 | Characters outside 0x20 to 0x7e count as dots, all others as themselves. |
| SafeDir.CutAnywhere | src/ccode/file.c:238-255 | Whichever occurrence is cut first, the result of the loop is the same. |
| SafeDir.SafedirCuts | src/ccode/file.c:238-255 | Two dots read as one, then two slashes as one, and then `./` behind a slash is passed over. |
| SafeDir.FixedIffClean | src/ccode/file.c:231-268 | A path is left alone exactly when it is clean. |
| SafeDir.IdempotentIff | src/ccode/file.c:231-268 | A second application changes nothing exactly when the input does not start with dots, or characters that are not printable, followed by a slash. |
| SafeDir.TwiceIsEnough | src/ccode/file.c:231-268 | The second application always gives a fixed point. |
| PercentCoding.RoundTrip | src/ccode/string.c:112-156 | Decoding undoes encoding exactly for strings without a NUL, that is for all C strings. |
| PercentCoding.EncodeUndoesDecodeIff | src/ccode/string.c:159-193 | Encoding undoes decoding exactly for strings of unreserved characters and upper-case escapes of other bytes. |
| PercentCoding.EncodedIsCanonical | src/ccode/string.c:179-190 | The encoder writes nothing else (sections 2.1 and 2.3 of RFC 3986). |
| PercentCoding.EncodedLiterally | src/ccode/string.c:179-190 | Letters, digits and the four marks are written as they are, every other byte as a percent sign and two upper-case digits. |
| PercentCoding.DecodedLiterally | src/ccode/string.c:137-153 | An escape is decoded alike in either case. |
| PercentCoding.OtherBytes | src/ccode/string.c:137-153 | A percent sign without two digits behind it is left out; every other byte stays. |
| PercentCoding.UrlEncode | src/ccode/string.c:179-192 | The encoded string. |
| PercentCoding.CountDecoded | src/ccode/string.c:113-127 | The first pass counts the decoded bytes, malformed escapes included. |
| PercentCoding.WriteDecoded | src/ccode/string.c:137-153 | The second pass fills exactly the counted size and puts the final NUL behind it. |
| PercentCoding.UrlDecode | src/ccode/string.c:112-156 | The decoded string, up to its first NUL. |

## Left out

- InstallOrder.RepeatsAreAdjacent: stated for acyclic graphs, like the order.
- InstallOrder.DependenciesFirst: for cyclic graphs no order exists, so the order is stated for acyclic ones; which names are found is stated for all graphs.
- Agreement.InstallAgrees: needs one owner for each path over all versions and archives that carry exactly what they list; MovedFilesAreLost says what happens otherwise.
- Validation.PassedIffGood: for paths listed twice nothing is promised, because the check for a conflict and the entry in the cache are two steps.
- BfEquivalence.CompilerCorrect: `int` cells are unbounded, so overflow of a cell at 2^31 is not modelled.
- PercentCoding.UrlEncode: the output is a growing sequence; the size computed in the first pass is not part of this model.
- TombstoneArray.AddKeepsAllIff: says when an add after a remove loses a value; no list is promised for such histories beyond that.
- RepositoryIndex.RunIndexJobs: the jobs are run one at a time, in any order; their steps are not interleaved. Each writes its own slot. A pool drops jobs beyond 1048576, so this holds up to that many files.
- DependencyEngine.Engine.ResolveProcess: `|` alternatives, package files and URLs as names, and the ignore settings are not part of this model.
- DependencyEngine.Engine.ProcessPackage: package files, URLs, the refusal of packages marked unsafe, and the ignore settings are not part of this model.
- IndexAddress.AddressIsAdded: a fetched text that begins with the header but is not one area, indented throughout, is not part of this model.
- Validation.PassedIsGood: every list is taken to have its job, which holds for runs of at most 524288 packages; a pool drops jobs beyond 1048576.
- PublishedChoice.FindPackage: binary packages only, whose name and release survive (others are found under what is left of their name, if at all); `no-emerge`, and the second time repositories are asked for, are not part of this model.
- Leftovers.CalculateLeftover: every package is taken to have its job, as long as there are at most 1048576; the jobs run one at a time, in any order, and each writes its own slot.
- PackageManager.System.InstallMain: source builds, `|` alternatives, package files and URLs as arguments, `--sync-single`, `--ignore-*`, `--unsafe` and the refusal of packages marked unsafe, `--max-depth`, and going on after errors in the shell are not part of this model.
- PackageManager.System.RemoveMain: `--ask`, `--ignore-dependency`, `--ignore-safety` and `--unsafe` are not part of this model.
- PackageManager.System.RemoveSingle: the file system holds files and links only; the removal of directories that became empty, and `--without-files` and `--without-metadata`, are left out. The jobs of a run remove different keys of two maps, so they are run one after the other.
- Lines of file and link lists are taken as already split into checksum and path, or path and target; spaces inside paths and targets are not part of this model.
- A package has one dependency list, in the index and in its archive.
- The text of error messages, and the name a missing package is required by.
- Warnings about multiple versions in `create_index_single`, `--move`, and signature checks in `update_repo`.
- `array_reverse`, `array_uniq`, `array_pop`, sorting, and `array_length` after removals.
- `safedir` of a null pointer; memory from `malloc` is zero, as in the program's own allocator.
- Network, archives, signatures, processes, sandbox, terminal, locale, the HTTP server, Debian conversion, settings, help texts, and the script interpreter.
