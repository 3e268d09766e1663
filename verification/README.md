# Verification of bb_clientd's output paths and virtual file system

bb_clientd keeps the outputs of builds in a virtual file system and lets build
clients manage them through the Bazel Output Service. This project models the
parts of it that hold the intricate state, and proves what they promise.

* **State files.** An output path is flattened into one file, children before
  parents, each directory referred to by offset and size, with a header that is
  written last. `Wire` and `Messages` are a concrete codec for the messages
  ('Base 128 Varints' and 'Length-Delimited Records' of the Protocol Buffers
  encoding guide, field numbers as in the bytes of
  `pkg/outputpathpersistency/file_writer_test.go`). `FileWriter`, `FileReader`,
  `OutputPathState` and `PersistentOutputPath` write, read, save and restore.
  `FileFormat` spells out the bytes, and `Unicode` defines UTF-8 independently of the
  check that is modelled. `Reloading` says of the output path itself what survives,
  and which messages can be restored.
  The main result is that restoring a saved output path yields precisely the
  part of it that a state file can hold; next to it stand termination and a
  nesting bound on arbitrary bytes, tiling of the file, and conservation of the
  leaves that restoring obtains.
* **The store.** `Store` is a state machine over the individual file system calls
  of a write session, each of which may fail, with a crash possible between any
  two of them. A visible state file is always a complete image written earlier.
  `Recovery` combines this with the round trip.
* **Age limit.** `MaximumAge` has the arithmetic of epochs, with the exact
  moments at which it bounds the age of what is reloaded, and runs of builds,
  saves and restarts.
* **The registry of output paths.** `OutputPathViews` says what every lock-held
  section of the Bazel Output Service does to the registry as a value and what
  follows for whole runs, including paged listing while it changes.
  `OutputPathRegistry` is the registry on the heap, two maps and a circular
  doubly linked list, with every section proved to act as `OutputPathViews` says.
* **Clean.** `CleanProtocol` interleaves the steps of Clean with builds, saves,
  restarts and other calls to Clean, and says exactly when the next build starts
  empty.
* **Filtering.** `FilterMissing` is the batched removal of children of which the
  Content Addressable Storage lacks something.
* **Directories of the Content Addressable Storage.** `CasDirectory` relates
  lookup by binary search to paged listing, `TreeHandles` relates identifiers to
  nodes, and `InstanceNames` does so for instance names.
* **Command files.** `CommandFile` extracts regions of a script from a stream.
* **Retrying.** `Retry` has the backoff schedule and the retry loop.

Code that works by updating state is modelled by classes and methods with loops;
each of these is proved against a function, about which the lemmas speak. Methods
of the environment (files, storage, directories, timers) are part of the model
where the code relies on how they behave, and fail at any time unless they are
marked as reliable. `dafny verify dfyconfig.toml` checks the project.

## Where guarantees end

Some properties that one would expect of the code hold only under a condition.
For each of these the condition is exact.

* `readMessage` checks `offsetBytes + sizeBytes` after it may have wrapped around.
  The check is exact if and only if the size limit is at most 2^63 - 2^31
  (`FileReader.BoundsCheckIsExact`). Reading is safe regardless, because such a
  message cannot be in the file (`FileReader.ReadMessageInRange`).
* A tree is saved if and only if its names, targets and digests are well-formed
  UTF-8 (`OutputPathState.SavesExactlyUtf8`).
* `maximumAgeStore` divides with truncation and saturates durations. It bounds the
  age exactly at 1970 itself and outside of the epochs around 1970 and at the ends
  of the range of durations (`MaximumAge.AgeBoundIsExact`).
* The creation time of an output path stays that of the last start without usable
  state if and only if no start fails to read a state file that it could have taken
  over (`MaximumAge.CreationTimeIsKeptExactly`, with an example in
  `MaximumAge.UnreadableFilesComeBack`).
* A successful Clean makes the next build start empty, whatever the contents of the
  files, if and only if the order of events does not expose it: while it ran, no
  other object was registered and filled, and no save that saw files put the state
  file back (`CleanProtocol.NextBuildIsEmptyExactly` and the two examples next to
  it). A build that loads the output path after Clean found it not to be loaded
  suffices for that, without any save.
* A StartBuild call with a build ID that is already in use for a different output
  base goes on with that other output base (`OutputPathViews.StartBuildBinds`).
* The interval between retries overflows eventually if and only if its maximum is
  2^62 nanoseconds or more (`Retry.IntervalsStayPositive`).
* State files are complete if and only if no output base ID is the temporary name
  of another one (`Store.SeparationIsExact`).

## Model

| member | source | states |
|---|---|---|
| Varint.RoundTrip | pkg/filesystem/virtual/cas_directory.go:70-73 | A varint of any 64-bit number decodes to that number and ends where the encoding ends, whatever follows |
| FileFormat.VarintExamples | pkg/outputpathpersistency/file_writer_test.go:29 | Concrete numbers and their bytes, least significant group first |
| Wire.RoundTrip | pkg/outputpathpersistency/file_writer_test.go:23-44 | Any sequence of valid fields parses back from its serialized form |
| FileFormat.SymlinkNodeBytes | pkg/outputpathpersistency/file_writer_test.go:24-28 | Name in field 1 and target in field 2, for any short strings |
| FileFormat.DirectoryNodeBytes | pkg/outputpathpersistency/file_writer_test.go:30-35 | Name in field 1; a stored directory has its region in field 2, an empty one does not |
| FileFormat.DirectoryBytes | pkg/outputpathpersistency/file_writer_test.go:24-35 | Files, subdirectories and symbolic links are in fields 1, 2 and 3 |
| FileFormat.RootDirectoryBytes | pkg/outputpathpersistency/file_writer_test.go:28-35 | The creation time is in field 1 and the contents are in field 2 |
| FileFormat.ExampleFile | pkg/outputpathpersistency/file_writer_test.go:23-44 | Every byte of a complete file, header included |
| Unicode.Utf8Exactly | pkg/outputpathpersistency/file_writer.go:49-52 | The check on strings accepts exactly the encodings of sequences of Unicode scalar values |
| Messages.DirectoryRoundTrip | pkg/outputpathpersistency/file_reader.go:88-90 | Unmarshaling a marshaled Directory yields the same message |
| Messages.RootDirectoryRoundTrip | pkg/outputpathpersistency/file_reader.go:53-58 | The same for the root directory message with its creation time |
| Messages.OnlyEmptyDirectoryIsEmpty | pkg/outputpathpersistency/file_writer.go:53-56 | A directory takes no space exactly if it has no entries, so leaving it out of the file loses nothing |
| Messages.RootDirectoryIsStored | pkg/outputpathpersistency/file_writer.go:78-83 | A root directory message that has contents is never empty, so it always gets a region |
| FileReader.OffsetReader.Read | pkg/outputpathpersistency/file_reader.go:18-27 | A read returns the bytes at the cursor and moves it by as many |
| FileReader.OffsetReader.ReadFully | pkg/outputpathpersistency/file_reader.go:40-42 | Short reads add up to exactly the requested range, or fail if the file does not have it |
| FileReader.HeaderRoundTrip | pkg/outputpathpersistency/file_writer.go:88-92 | Every offset and size, also negative ones, is read back from the header that holds it |
| FileFormat.HeaderBytes | pkg/outputpathpersistency/file_writer.go:88-92 | The header is the four magic bytes, the offset and the size, each byte by byte, least significant first |
| FileFormat.OtherFilesAreRefused | pkg/outputpathpersistency/file_reader.go:39-45 | Without a complete header, or with other magic bytes, a file is refused |
| FileReader.ReadMessageInRange | pkg/outputpathpersistency/file_reader.go:75-94 | For every limit, what is read lies in the file, behind the header and before the limit, without overflow |
| FileReader.BoundsCheckIsExact | pkg/outputpathpersistency/file_reader.go:80-83 | The bounds check keeps messages below the limit if and only if the limit is at most 2^63 - 2^31 |
| FileReader.ReadDirectory | pkg/outputpathpersistency/file_reader.go:61-73 | The reader for a child directory has a strictly smaller range; an absent region is an empty directory |
| FileReader.NewFileReader | pkg/outputpathpersistency/file_reader.go:37-59 | A file that can be opened yields a reader of which the range ends before the limit |
| FileWriter.OffsetWriter.Write | pkg/outputpathpersistency/file_writer.go:17-26 | Bytes are stored at the cursor, which moves by as many |
| FileWriter.BufferedWriter.Write | pkg/outputpathpersistency/file_writer.go:40-43 | Written data is appended to flushed plus buffered bytes, and an error sticks |
| FileWriter.FileWriter.Append | pkg/outputpathpersistency/file_writer.go:48-67 | A message becomes a region right behind everything before it, or none if it is empty |
| FileWriter.FileWriter.WriteDirectory | pkg/outputpathpersistency/file_writer.go:72-74 | The region and the new contents are those of the marshaled message; failures are due to the message or the file |
| FileWriter.FileWriter.Finalize | pkg/outputpathpersistency/file_writer.go:78-95 | Success means that the file holds the complete image including its header; an earlier failed write makes it fail; on a reliable file it otherwise fails only for messages that cannot be marshaled |
| FileWriter.RegionsTile | pkg/outputpathpersistency/file_writer.go:48-67 | The regions of successive messages tile the file from the end of the header, without gaps |
| FileWriter.TiledRegionsAreDisjoint | pkg/outputpathpersistency/file_writer.go:57-66 | An earlier region ends at or before the start of a later one |
| OutputPathState.SavesPersistedPart | pkg/filesystem/virtual/persistent_output_path_factory.go:221-240 | Saving an output path is the same as saving only what a state file can hold of it |
| OutputPathState.ChildrenPrecedeParents | pkg/filesystem/virtual/persistent_output_path_factory.go:206-220 | At every depth, all regions below a directory end at or before the offset of its own region, and they tile what was written on its behalf |
| OutputPathState.SavesExactlyUtf8 | pkg/outputpathpersistency/file_writer.go:49-52 | An output path has a state file if and only if all strings to be stored are UTF-8 |
| OutputPathState.NestingIsBounded | pkg/filesystem/virtual/persistent_output_path_factory.go:47-66 | Restoring from arbitrary bytes ends, nested no deeper than the readable range allows |
| OutputPathState.RestoresSaved | pkg/filesystem/virtual/persistent_output_path_factory.go:47-118 | A saved directory restores to itself from any file that still contains its image |
| OutputPathState.FinalizedFileOpens | pkg/outputpathpersistency/file_reader.go:37-59 | A finalized file opens, as the root directory that it was made from, if and only if it and its root message do not exceed the limits |
| OutputPathState.SaveRestoreRoundTrip | pkg/filesystem/virtual/persistent_output_path_factory.go:200-242 | Restoring the state file of an output path yields exactly the part of it that can be persisted, and its creation time |
| Reloading.ReloadedPathMirrors | pkg/filesystem/virtual/persistent_output_path_factory.go:200-242 | At every level, exactly the saved directories are there again, and exactly the leaves that are not transient and not one of the two status files at the root, each with its value |
| Reloading.LargestMessageIsInFile | pkg/outputpathpersistency/file_writer.go:63-66 | No message is larger than its file |
| Reloading.RestoresExactly | pkg/filesystem/virtual/persistent_output_path_factory.go:47-118 | Restoring a message succeeds if and only if all names are valid, digests and targets are accepted, no two leaves share a name, and so for every directory it refers to, which can be read |
| Reloading.RestoredLeavesAreThoseOfMessage | pkg/filesystem/virtual/persistent_output_path_factory.go:78-112 | The leaves restored are those of the message, with their digests, executable bits and targets |
| Reloading.RestoredDirectoriesAreThoseOfMessage | pkg/filesystem/virtual/persistent_output_path_factory.go:48-66 | The subdirectories restored are those of the message, unless a leaf replaces one |
| Reloading.SubdirectoryIsEntered | pkg/filesystem/virtual/persistent_output_path_factory.go:59-65 | A subdirectory that is named again is restored into the same directory |
| Reloading.DescentIsBounded | pkg/outputpathpersistency/file_reader.go:75-94 | No chain of directories that refer to one another is longer than the size limit allows |
| PersistentOutputPath.SaveDirectoryRecursive | pkg/filesystem/virtual/persistent_output_path_factory.go:200-242 | The loop over a stateful writer saves exactly what the tree prescribes, and fails only for bad strings, an unreadable directory or a failing file |
| PersistentOutputPath.SaveSubdirectoryNode | pkg/filesystem/virtual/persistent_output_path_factory.go:206-220 | One child is saved before the node that refers to it |
| PersistentOutputPath.AppendLeaves | pkg/filesystem/virtual/persistent_output_path_factory.go:221-240 | Leaves become nodes in order: exactly those that are not transient and not named like a status file at the root |
| PersistentOutputPath.SaveOutputPath | pkg/filesystem/virtual/persistent_output_path_factory.go:181-198 | Success means that the file is the state file of the output path; if directories and file are reliable, only strings that are not UTF-8 prevent it |
| PersistentOutputPath.RestoreDirectoryRecursive | pkg/filesystem/virtual/persistent_output_path_factory.go:47-118 | Restoring builds what the message describes, and for every content and failure each leaf obtained is attached once or unlinked once |
| PersistentOutputPath.ObtainFiles | pkg/filesystem/virtual/persistent_output_path_factory.go:78-93 | One leaf per file, all of them accounted for even if a later file is refused |
| PersistentOutputPath.ObtainSymlinks | pkg/filesystem/virtual/persistent_output_path_factory.go:94-111 | The same for symbolic links, with names distinct from those of files |
| PersistentOutputPath.UnlinkAll | pkg/filesystem/virtual/persistent_output_path_factory.go:70-76 | Every leaf that was not attached is unlinked exactly once |
| Store.StepKeepsInvariant | pkg/outputpathpersistency/directory_backed_store.go:58-136 | Every file system call, successful or not, and every crash keeps visible files complete and files closed at most once |
| Store.OnlyRenameAndCleanAreVisible | pkg/outputpathpersistency/directory_backed_store.go:106-124 | Nothing but the session's own rename, or cleaning, changes what a reader finds; a rename shows the complete image |
| Store.OldOrNew | pkg/outputpathpersistency/directory_backed_store.go:106-124 | At every point of every run a state file is absent or the complete image of an earlier session of its ID |
| Store.ClosedExactlyOnce | pkg/outputpathpersistency/directory_backed_store.go:106-136 | A temporary file is closed exactly once by the time its session no longer has it open |
| Store.SeparationIsExact | pkg/outputpathpersistency/directory_backed_store.go:49-56 | Visible files stay complete if and only if no ID is another ID plus .tmp |
| Store.DirectoryBackedStore.Write | pkg/outputpathpersistency/directory_backed_store.go:58-77 | Opens a session or leaves none, and readers notice nothing; it succeeds if the directory is reliable |
| Store.DirectoryBackedStore.Finalize | pkg/outputpathpersistency/directory_backed_store.go:106-124 | Readers find the old file up to the last step and the new one from then on; failure leaves the old one throughout; the session ends, its file is closed once and the temporary file is gone; in a reliable directory it succeeds as long as nobody removes that file |
| Store.DirectoryBackedStore.Close | pkg/outputpathpersistency/directory_backed_store.go:126-136 | An abandoned session ends with its file closed once, the temporary file gone and nothing visible changed |
| Store.DirectoryBackedStore.Clean | pkg/outputpathpersistency/directory_backed_store.go:79-92 | Readers find nothing from the first removal on; success leaves neither a state file nor a temporary one, and is certain if removing is |
| Recovery.ReloadsWhatWasSaved | pkg/outputpathpersistency/directory_backed_store.go:30-47 | After any history of sessions, failures and crashes, a visible state file reloads as an output path that an earlier session saved |
| MaximumAge.CreationTimeOfSavedFile | pkg/filesystem/virtual/persistent_output_path_factory.go:120-154 | A start keeps the saved creation time if the file is of the current epoch and has contents, and takes the current time otherwise |
| MaximumAge.AcceptsExactly | pkg/outputpathpersistency/maximum_age_store.go:36-50 | A file is accepted if and only if it can be read and has a valid creation time of the current epoch; one that is not is closed |
| MaximumAge.EpochsAreIntervals | pkg/outputpathpersistency/maximum_age_store.go:32-34 | Since 1970, two moments share an epoch if and only if no multiple of the limit lies between them |
| MaximumAge.AgeBoundIsExact | pkg/outputpathpersistency/maximum_age_store.go:32-34 | The moments at which everything accepted is younger than the limit are exactly 1970 itself and those outside the epochs around 1970 and at the ends of durations |
| MaximumAge.TooOld | pkg/outputpathpersistency/maximum_age_store.go:32-34 | At all other moments, some creation time is accepted that is too far away |
| MaximumAge.AgeIsBoundedSince1970 | pkg/outputpathpersistency/maximum_age_store.go:36-50 | From 1970 until the last epoch that durations can express, an accepted file is younger than the limit |
| MaximumAge.ReactKeepsInvariantExactly | pkg/filesystem/virtual/persistent_output_path_factory.go:120-154 | One start, save, restart or clean keeps what ties creation times to the last fresh start exactly if it does not miss a usable state file |
| MaximumAge.CreationTimeIsKeptExactly | pkg/filesystem/virtual/persistent_output_path_factory.go:120-198 | Throughout a run and whatever follows, the creation time is that of the last start without usable state, if and only if no start of the run misses a usable state file |
| MaximumAge.MissedFilesComeBack | pkg/filesystem/virtual/persistent_output_path_factory.go:123-125 | Whenever a usable file is missed, a restart can bring back the older creation time |
| MaximumAge.UnreadableFilesComeBack | pkg/filesystem/virtual/persistent_output_path_factory.go:123-125 | A run in which that happens |
| MaximumAge.RestoredStateIsYoung | pkg/outputpathpersistency/maximum_age_store.go:36-50 | What a start takes over dates from the last fresh start and is younger than the limit |
| OutputPathViews.SectionKeepsWellFormed | pkg/filesystem/virtual/bazel_output_service_directory.go:294-348 | Every lock-held section keeps cookies increasing and past, and bases and running builds unique |
| OutputPathViews.StartBuildBinds | pkg/filesystem/virtual/bazel_output_service_directory.go:294-347 | Afterwards exactly one output path runs the build; it is one of the requested base unless the ID was in use elsewhere |
| OutputPathViews.StartBuildStores | pkg/filesystem/virtual/bazel_output_service_directory.go:294-347 | The output path of the base, or a new one, runs precisely the requested build, digest function included, unless that was running; all else stays the same |
| OutputPathViews.FinalizeBuildClears | pkg/filesystem/virtual/bazel_output_service_directory.go:671-678 | The output path that runs the build no longer does; all else stays the same |
| OutputPathViews.CleanRemoveTakesOut | pkg/filesystem/virtual/bazel_output_service_directory.go:129-135 | One entry is taken out of the list and the change ID goes up, if the entry is the one that was looked up; otherwise nothing changes |
| OutputPathViews.SectionsAreIdempotent | pkg/filesystem/virtual/bazel_output_service_directory.go:671-678 | Starting or finalizing a build again changes nothing more |
| OutputPathViews.CleanRemovesOnlyWhatItLookedUp | pkg/filesystem/virtual/bazel_output_service_directory.go:129-140 | The second section of Clean removes the object that was looked up, if it is still registered, and never another one |
| OutputPathViews.RunKeepsWellFormed | pkg/filesystem/virtual/bazel_output_service_directory.go:294-348 | In every run the registry stays well-formed and its change ID never decreases |
| OutputPathViews.ChangeIDTracksListing | pkg/filesystem/virtual/bazel_output_service_directory.go:690-694 | Over any run, an unchanged change ID means an unchanged listing |
| OutputPathViews.RunKeepsListingInvariant | pkg/filesystem/virtual/bazel_output_service_directory.go:727-753 | While pages and changes interleave, reports ascend and nothing steady before the cursor is missing |
| OutputPathViews.PagedListingIsExact | pkg/filesystem/virtual/bazel_output_service_directory.go:727-753 | No object is reported twice, and every object present throughout is reported once the end is reached |
| OutputPathViews.SteadyMeansPresentThroughout | pkg/filesystem/virtual/bazel_output_service_directory.go:727-753 | The objects that a listing has to report are those registered at every moment of the run |
| OutputPathRegistry.BaseLookup | pkg/filesystem/virtual/bazel_output_service_directory.go:297-298 | The map of output bases finds exactly what a search of the list finds |
| OutputPathRegistry.BuildLookup | pkg/filesystem/virtual/bazel_output_service_directory.go:295-296 | The map of builds finds exactly the listed element that runs the build |
| OutputPathRegistry.InsertIsConsistent | pkg/filesystem/virtual/bazel_output_service_directory.go:324-336 | Linking a new element before the sentinel keeps list, links, cookies and maps in agreement |
| OutputPathRegistry.RemoveIsConsistent | pkg/filesystem/virtual/bazel_output_service_directory.go:131-134 | Unlinking an element keeps them in agreement, with next and previous still inverse |
| OutputPathRegistry.ClearIsConsistent | pkg/filesystem/virtual/bazel_output_service_directory.go:299-304 | Ending a build keeps the map of builds in agreement with the elements |
| OutputPathRegistry.BindIsConsistent | pkg/filesystem/virtual/bazel_output_service_directory.go:341-346 | Binding an unused build ID does too |
| OutputPathRegistry.BazelOutputServiceDirectory.constructor | pkg/filesystem/virtual/bazel_output_service_directory.go:91-108 | A new registry is valid and empty |
| OutputPathRegistry.BazelOutputServiceDirectory.StartBuild | pkg/filesystem/virtual/bazel_output_service_directory.go:294-348 | The section has the effect on the registry's value that its specification gives, and returns the element that runs the build; elements looked up before stay known by their cookies |
| OutputPathRegistry.BazelOutputServiceDirectory.CleanLookup | pkg/filesystem/virtual/bazel_output_service_directory.go:117-119 | Yields the registered element of the base, or none |
| OutputPathRegistry.BazelOutputServiceDirectory.CleanRemove | pkg/filesystem/virtual/bazel_output_service_directory.go:129-140 | Deregisters an element that was looked up at any earlier time exactly if it is still registered |
| OutputPathRegistry.BazelOutputServiceDirectory.FinalizeBuild | pkg/filesystem/virtual/bazel_output_service_directory.go:667-680 | Ends the build that has the ID, if there is one |
| OutputPathRegistry.BazelOutputServiceDirectory.GetOutputPathAndBuildState | pkg/filesystem/virtual/bazel_output_service_directory.go:373-382 | Yields the element that runs the build with its build state, which is never nil |
| OutputPathRegistry.BazelOutputServiceDirectory.VirtualGetAttributes | pkg/filesystem/virtual/bazel_output_service_directory.go:690-694 | Reports the change ID, and a link count that matches the listing |
| OutputPathRegistry.BazelOutputServiceDirectory.VirtualReadDir | pkg/filesystem/virtual/bazel_output_service_directory.go:727-753 | Reports as many of the entries from the cookie on as there is room for, in order, each with the cookie to resume at; that is what a page adds to a listing in progress |
| OutputPathRegistry.BazelOutputServiceDirectory.Report | pkg/filesystem/virtual/bazel_output_service_directory.go:743-751 | Goes through the circle from an element on, up to its end or the first refusal |
| CleanProtocol.StepKeepsInvariant | pkg/filesystem/virtual/bazel_output_service_directory.go:111-151 | Every step of any call keeps what is known about each Clean in progress |
| CleanProtocol.FinishOutcome | pkg/filesystem/virtual/persistent_output_path_factory.go:244-258 | When Clean succeeds, what is registered was registered meanwhile, and there is a state file exactly if a save put it back; only the looked up object is deregistered |
| CleanProtocol.ScheduleDeterminesShape | pkg/filesystem/virtual/bazel_output_service_directory.go:111-151 | Runs that differ only in the contents of files go through states of the same shape |
| CleanProtocol.StartsEmptyExactly | pkg/filesystem/virtual/persistent_output_path_factory.go:120-164 | A schedule makes the next build start empty in all of its runs if and only if what that build takes over was not filled |
| CleanProtocol.NextBuildIsEmptyExactly | pkg/filesystem/virtual/bazel_output_service_directory.go:111-151 | The schedules after which a successful Clean makes the next build start empty, for all contents, are exactly those that do not expose it |
| CleanProtocol.CleanedBuildStartsEmpty | pkg/filesystem/virtual/persistent_output_path_factory.go:120-164 | In every run, after an undisturbed Clean the next build starts empty, loaded or not, whatever happens until then |
| CleanProtocol.UndisturbedCleanIsQuiet | pkg/filesystem/virtual/bazel_output_service_directory.go:129-150 | Clean leaves nothing registered, stored or being saved exactly if it was not disturbed, which holds if no save began and no object was registered |
| CleanProtocol.OverlappingSaveUndoesClean | pkg/outputpathpersistency/directory_backed_store.go:85-90 | A run in which a rename between the two removals brings the files back |
| CleanProtocol.OverlappingStartUndoesClean | pkg/filesystem/virtual/bazel_output_service_directory.go:117-143 | A run without overlapping save in which a build loads the output path in between |
| FilterMissing.FindMissingAndRemove | pkg/filesystem/virtual/bazel_output_service_directory.go:156-173 | One batch is looked up; on success exactly the children waiting for a missing digest are removed, otherwise only such children |
| FilterMissing.QueueDigests | pkg/filesystem/virtual/bazel_output_service_directory.go:222-232 | Digests are queued within the limit, sending full batches only, with every child accounted for |
| FilterMissing.FilterChild | pkg/filesystem/virtual/bazel_output_service_directory.go:182-234 | A child is kept, removed or queued according to what it depends on |
| FilterMissing.FilterMissingChildren | pkg/filesystem/virtual/bazel_output_service_directory.go:179-246 | For every limit and iteration order, success leaves exactly the children without digests and those of which all digests are of the right function and present, and has asked for exactly the digests needed; failure removes no others; batches have between one and the limit of digests |
| CasDirectory.FindsAllOnlyIfSorted | pkg/filesystem/virtual/cas_directory.go:121-127 | Binary search finds every one of a number of distinct names if and only if they are sorted |
| CasDirectory.LookupIsSearch | pkg/filesystem/virtual/cas_directory.go:115-162 | In sorted lists, lookup yields what a search through the whole listing yields, including errors |
| CasDirectory.OpenAgreesWithLookup | pkg/filesystem/virtual/cas_directory.go:164-199 | Opening a child treats a name as the same kind of child as looking it up does |
| CasDirectory.VirtualReadDir | pkg/filesystem/virtual/cas_directory.go:201-273 | The three loops report one page of the concatenated lists, each entry as the message has it, with natural numbers throughout |
| CasDirectory.PageIsConsecutive | pkg/filesystem/virtual/cas_directory.go:207-272 | A page has consecutive entries from its cookie on, each with cookie index plus one, and it is determined why it ends |
| CasDirectory.PagesConcatenate | pkg/filesystem/virtual/cas_directory.go:207-272 | Any number of pages, each resuming at the last cookie, report what one page would |
| CasDirectory.PagesListEverything | pkg/filesystem/virtual/cas_directory.go:207-272 | Enough pages of any sizes list every entry exactly once |
| CasDirectory.LookupAgreesWithListing | pkg/filesystem/virtual/cas_directory.go:115-162 | A lookup succeeds with a child if and only if the pages of a listing report that child under the name |
| CasDirectory.FindsDirectories | pkg/filesystem/virtual/cas_directory.go:126-136 | Looking up or opening the name of a directory yields that directory with its digest, or says that it is one |
| CasDirectory.FindsFiles | pkg/filesystem/virtual/cas_directory.go:138-149 | Looking up or opening the name of a file yields its digest and executable bit, or an I/O error for a bad digest |
| CasDirectory.FindsSymlinks | pkg/filesystem/virtual/cas_directory.go:151-159 | Looking up the name of a symbolic link yields its index and target; opening it is refused |
| CasDirectory.FindsNothing | pkg/filesystem/virtual/cas_directory.go:161-162 | Other names are not found, and a directory that cannot be loaded yields its status |
| CasDirectory.PageOfMessage | pkg/filesystem/virtual/cas_directory.go:207-272 | Every report has the name and child that the message has at its index, and a page ends for one of three reasons |
| TreeHandles.ResolvesToItsNode | pkg/filesystem/virtual/cas_directory.go:57-101 | The identifier of a node resolves to that node, with the target that its directory has at the index; an index out of range is a bad handle |
| TreeHandles.IdentifierBytes | pkg/filesystem/virtual/cas_directory.go:57-74 | The bytes by which root, other directories and symbolic links are identified |
| TreeHandles.OtherHandlesAreBad | pkg/filesystem/virtual/tree_cas_directory_factory.go:96-115 | Handles that start differently, end early or have a malformed digest are bad |
| TreeHandles.IdentifiersArePrefixFree | pkg/filesystem/virtual/tree_cas_directory_factory.go:73-94 | Distinct nodes have distinct identifiers, none a prefix of another |
| TreeHandles.ResolvesOnlyToWhatExists | pkg/filesystem/virtual/tree_cas_directory_factory.go:96-115 | Arbitrary bytes resolve only to symbolic links that the tree has, with their targets |
| TreeHandles.LookedUpChildResolves | pkg/filesystem/virtual/cas_directory.go:126-159 | The handle of a directory or symbolic link found by name resolves to the same child |
| TreeHandles.ResolveHandle | pkg/filesystem/virtual/cas_directory.go:76-101 | Consuming bytes from a cursor resolves the suffix of an identifier |
| TreeHandles.ResolveNode | pkg/filesystem/virtual/tree_cas_directory_factory.go:96-115 | Consuming bytes from a cursor resolves a complete identifier |
| InstanceNames.WriteTo | pkg/filesystem/virtual/instance_name_parsing_directory.go:20-32 | The identifier is appended to the writer, and its length is returned |
| InstanceNames.IdentifierBytes | pkg/filesystem/virtual/instance_name_parsing_directory.go:20-32 | A slash after every component and one more at the end |
| InstanceNames.ParseFindsPath | pkg/filesystem/virtual/instance_name_parsing_directory.go:15-32 | A path of non-empty, slash-free components can be parsed back from its identifier, whatever follows |
| InstanceNames.IdentifierClashesExactly | pkg/filesystem/virtual/instance_name_parsing_directory.go:15-32 | The identifier of a path equals or extends that of a different proper path if and only if a component is empty or has a slash |
| InstanceNames.IdentifiersArePrefixFree | pkg/filesystem/virtual/instance_name_parsing_directory.go:15-32 | Identifiers of such paths are injective and prefix-free |
| InstanceNames.WalkYieldsNames | pkg/filesystem/virtual/instance_name_parsing_directory.go:88-107 | Repeated lookups accumulate the names up to the first reserved one, which yields an instance name or, if that is not acceptable, no entry |
| InstanceNames.ReachableDirectoriesAreDistinct | pkg/filesystem/virtual/instance_name_parsing_directory.go:88-107 | Directories reached by different names have identifiers that are not prefixes of one another |
| CommandFile.RegionExtractingWriter.WriteString | pkg/filesystem/virtual/blob_access_command_file_factory.go:174-182 | After every string the buffer holds exactly the part of the region seen so far |
| CommandFile.ScriptFile.VirtualRead | pkg/filesystem/virtual/blob_access_command_file_factory.go:126-141 | For every cut of the script the buffer equals the slice asked for; the panic is reached exactly if the script is shorter than promised; the end of the file is reported |
| CommandFile.LookupFile | pkg/filesystem/virtual/blob_access_command_file_factory.go:38-49 | The size of the file is the length of the script modulo 2^64, however the script is cut |
| CommandFile.ReadUnchangedScript | pkg/filesystem/virtual/blob_access_command_file_factory.go:38-49 | Looking up a file and reading it while the script is cut differently never panics, and returns the script's bytes at the offset, as many as there is room for |
| CommandFile.ConcatAt | pkg/filesystem/virtual/blob_access_command_file_factory.go:51-62 | Every byte of every string is found in the script at its place |
| CommandFile.ReadsAreConsecutive | pkg/filesystem/virtual/blob_access_command_file_factory.go:126-141 | Consecutive reads of any lengths return the script without gaps or overlaps |
| Retry.IntervalIsCappedExponential | pkg/blobstore/error_retrying_blob_access.go:88-91 | The interval before retry k is the initial one times 2^k, capped at the maximum, without overflow |
| Retry.IntervalsStayPositive | pkg/blobstore/error_retrying_blob_access.go:88-91 | The interval never overflows if and only if the maximum is below 2^62 |
| Retry.ReturnsFirstSuccessOrLastError | pkg/blobstore/error_retrying_blob_access.go:128-139 | The result is that of the last attempt; all before it were infrastructure errors within the deadline; an error is returned only if it is none of these, too late or cancelled |
| Retry.RetriesStartInTime | pkg/blobstore/error_retrying_blob_access.go:63-83 | Every retry starts before the deadline plus the maximum interval and waits less than the capped exponential, however long attempts take |
| Retry.ErrorRetryingBlobAccess.MaybeSleep | pkg/blobstore/error_retrying_blob_access.go:73-98 | Stops exactly for errors that are final, too late or cancelled, and otherwise sleeps and doubles the interval in place |
| Retry.ErrorRetryingBlobAccess.FindMissing | pkg/blobstore/error_retrying_blob_access.go:128-139 | The loop makes exactly the attempts of its specification and returns the same result |

## Left out

- gRPC, FUSE and NFSv4 plumbing, configuration, permissions, error texts and logging: wiring without state of its own.
- The path walkers, output path aliases and symlink resolution: they are decided by a path library that is not part of this model.
- Uploading of local files, digest parsing, decomposed directories and the in-memory factory: thin forwarding or plain traversals without state.
- Digest parsing, compact binary digests and symbolic link targets: the digest and path libraries are not part of this model, so whether they accept a value, and the bytes of a digest, are parameters. The same goes for which lists of components are acceptable instance names. TreeHandles assumes that a compact binary digest decodes to itself.
- Messages: Protocol Buffers groups count as malformed, and unknown fields are skipped without being kept. The field numbers of FileNode, SymlinkNode and Digest are those of the Remote Execution API v2.
- Contents of virtual directories: they are values that restoring threads through, so aliasing between them is not captured. Saving sees one snapshot of the tree.
- Store: a rename is durable at once, since the directory itself is not synchronized by the code, and the content of files that were not synchronized is arbitrary after a crash.
- Store.DirectoryBackedStore.Close: does not model the error value, which wraps the first error where the second one failed.
- Store.DirectoryBackedStore.Finalize: the image is written in one step or partially, not message by message; FileWriter covers how it comes about.
- MaximumAge.CreationTimeIsKeptExactly: assumes a clock that does not go backwards and stays within the years that a timestamp can express.
- OutputPathRegistry.BazelOutputServiceDirectory.StartBuild: the change ID is unbounded, so that wrap-around after 2^64 changes is not modelled; restoring the output path and filtering its children are in other modules.
- OutputPathRegistry.BazelOutputServiceDirectory.FinalizeBuild: saving, which happens under the same lock, is in other modules.
- CleanProtocol.CleanedBuildStartsEmpty: one output base at a time; a save stores any part of what the output path contained while the save ran, and a failed RemoveAllChildren leaves any part of the files.
- FilterMissing.FilterMissingChildren: the set of missing digests does not change during the call, and the recommended batch size is a parameter.
- CasDirectory.VirtualReadDir: attributes of the children, and the wrap-around of unsigned cookies, which never exceed the number of entries.
- CommandFile.ScriptFile.VirtualRead: seeking. How a read is bounded by the file size is up to a library, as is generating the script from a Command message.
- Retry.ErrorRetryingBlobAccess.FindMissing: maximum intervals for which doubling overflows are ruled out, because drawing a random duration from a negative interval is up to a library. What happens around the loop is a finite sequence of events, as the loop itself need not end.
- Get and GetFromComposite: their error handlers call the same function with the same state, at points that the buffer library chooses.
