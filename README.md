# dupes: the duplicate-file finder, modelled in Dafny

This project models the engine of the `dupes` tool and the decision logic of its command line.
The engine has two generations.

- `libdupes.Dupes(roots, progressCb)` walks the roots and maps every file path to its size. It then visits the paths one by one and keeps a bucket per size. A size's first file is held without being hashed. On the second file of that size, the held file and the new one are hashed on their first `min(4096, size)` bytes. Only files whose prefix digests collide are hashed whole. Files are grouped by full digest, and every group of more than one path is returned as an `Info{Size, Names}`. The result is sorted by descending `Size * len(Names)`.
- `undupes.Dupes(root)` is the earlier single-pass engine. A size's first file is held. Every later file of that size is hashed whole at once, and so is the held file the first time. A failed read returns an error from the walk callback, which stops the walk. The groups found so far are still returned.

The command line (`main.go`) adds:

- the `-v` log-level check;
- the trailing separator added to the root;
- the totals printed after a scan;
- the interactive review, which asks the user which file of each set to keep and removes the rest;
- the automatic cleanup, driven by the `--prefer`, `--over` and `--invert` options.

## Structure

| module | file | models |
|---|---|---|
| `Files` | files.dfy | Paths, walk entries, and `hash(path, blocksize)` over an abstract MD5 and a map of file contents |
| `Groups` | groups.dfy | `Info`, the `bySize` key, and the descending sort, stated by its contract |
| `LibDupesSpec` | libdupes_spec.dfy | libdupes as functions: the `pending` index, the bucket step (`Step`), one iteration (`Visit`), a whole run (`Run`), and group assembly (`GroupsOf`) |
| `LibDupes` | libdupes.dfy | `Dupes` as an imperative procedure over a class `FilesWithHashes` updated in place, proved equal to `Run` |
| `LibDupesProofs` | libdupes_proofs.dfy | The bucket invariant, soundness, disjointness and completeness of the groups, and which files are read |
| `LibDupesFixed` | libdupes_fixed.dfy | The held file's failed first-pass read: what the engine does with it as written, and a corrected step that skips only the unreadable file, with its completeness proof |
| `UndupesSpec` | undupes_spec.dfy | undupes as functions (`AddFile`, `Callback`, `Walk`) and their properties |
| `Undupes` | undupes.dfy | The walk callback and group assembly as imperative code, proved equal to `Walk` |
| `Summary` | summary.dfy | `setLogLevel`, the trailing separator, and the totals with `uint64` wrap-around |
| `Interactive` | interactive.dfy | The keep-choice validator, `strconv.ParseInt(v, 10, 32)`, and the review loop with its deletions |
| `Automatic` | automatic.dfy | `runAutomatic`'s classification and removal policy, and its safety |

Each imperative method is proved against a specification function. The lemmas about that function then carry over to what the method computes.

The file system is modelled as follows:

- The walk is the sequence of `Entry(path, isDir, size)` it reports.
- The files as they are at hash time are a map `Path -> Blob(content, readable)` held in a `Hasher` together with the digest function.
- A path missing from the map, or unreadable, gives a read error.
- A prefix hash of a file shorter than the block size also fails, as `io.CopyN` reports EOF.
- Go's map iteration order is a parameter: `order` for `pending`, and an arbitrary pick (`:|`) for the assembly loops.
- Every call of `hash` is recorded as a `HashCall(path, blocksize)`, so that what is read can be stated.

## Model

| member | source | states |
|---|---|---|
| Files.Hasher.Hash | libdupes/libdupes.go:36-62 | A digest is returned exactly when the file exists and is readable and, for a positive block size, is at least that long; the digest covers exactly the first `blocksize` bytes, or the whole file for a block size of 0 or less |
| Files.Hasher.SameContentSameHash | libdupes/libdupes.go:36-62 | Two readable files with equal bytes hash alike at every block size |
| Groups.SortBySize | libdupes/libdupes.go:28-33 | `sort.Sort(sort.Reverse(bySize))`: a permutation of its input in which no element's `Size * len(Names)` is smaller than a later one's; no repeats are introduced |
| Groups.SortKeepsMembers | libdupes/libdupes.go:159 | Sorting neither adds nor drops a group |
| Groups.AppendKeepsOut | libdupes/libdupes.go:143-144 | Appending a path to a digest list puts no other path into any list |
| LibDupesSpec.Min | libdupes/libdupes.go:64-69 | `min` returns one of its arguments, and it is at most both |
| LibDupesSpec.PrefixCoversMinBytes | libdupes/libdupes.go:109 | Every first-pass digest of a non-empty file covers exactly its first `min(4096, size)` bytes; for an empty file the block size is 0 and the whole file is hashed |
| LibDupesSpec.Pending | libdupes/libdupes.go:75-84 | Defines `pending`: each walked file's path mapped to its size. Its properties are stated by PendingSnoc and PendingIsLastFileEntry |
| LibDupesSpec.PendingSnoc | libdupes/libdupes.go:77-83 | A walked file sets its path's size in `pending`; a directory changes nothing |
| LibDupesSpec.PendingIsLastFileEntry | libdupes/libdupes.go:75-84 | A path is pending exactly when some walked entry for it is a file, and its size is that of the last such entry |
| LibDupesSpec.NewBucket | libdupes/libdupes.go:95-99 | A new bucket holds its file unhashed with both digest maps empty, which is the state the panic check accepts |
| LibDupesSpec.Step | libdupes/libdupes.go:102-148 | A later file of a size keeps the invariant behind `panic("logic error!")`: a bucket that holds an unhashed file has no digests of either kind |
| LibDupesSpec.HashCurrent | libdupes/libdupes.go:117-148 | After the current file's first pass, the bucket holds no unhashed file |
| LibDupesSpec.HashFull | libdupes/libdupes.go:137-144 | Filing under the full digest leaves the bucket without an unhashed file |
| LibDupesSpec.HeldReadFails | libdupes/libdupes.go:109-113 | If the held file's prefix read fails, the visit makes that one call and changes nothing: the held file stays held and the current file is not hashed at all |
| LibDupesSpec.HashCurrentCases | libdupes/libdupes.go:123-148 | A new prefix digest takes a slot, with nothing else read. A collision with an unresolved slot marks it resolved (`""`), full-hashes the earlier file and then the current one, and files each under its digest. A collision with a resolved slot full-hashes only the current file |
| LibDupesSpec.Visit | libdupes/libdupes.go:92-148 | One iteration keeps every bucket consistent |
| LibDupesSpec.Run | libdupes/libdupes.go:87-149 | A run over any order of the pending paths keeps every bucket consistent |
| LibDupesSpec.GroupsOf | libdupes/libdupes.go:150-157 | Defines the assembled groups: every full-digest list of more than one path, with its bucket's size. GroupsSound, GroupsDisjoint, GroupsComplete and LibDupes.Gather state what they are |
| LibDupes.FilesWithHashes.constructor | libdupes/libdupes.go:95-99 | The object made for a new size is the bucket `NewBucket` describes |
| LibDupes.FilesWithHashes.Add | libdupes/libdupes.go:102-148 | The in-place update of a bucket ends in the state, and makes the hash calls, that `Step` defines; the panic branch is proved unreachable |
| LibDupes.FilesWithHashes.AddCurrent | libdupes/libdupes.go:117-148 | The in-place first pass of the current file matches `HashCurrent` |
| LibDupes.FilesWithHashes.AddFull | libdupes/libdupes.go:137-144 | The in-place second pass matches `HashFull` |
| LibDupes.CollectPending | libdupes/libdupes.go:75-84 | The walk over every root builds exactly `Pending` of all walked entries |
| LibDupes.CollectRoot | libdupes/libdupes.go:77-83 | The walk of one root extends `pending` by that root's files |
| LibDupes.Place | libdupes/libdupes.go:92-148 | One iteration gives a new size a fresh bucket, hands a known size's file to its bucket, and leaves every other bucket as it was, as `Visit` defines |
| LibDupes.HandOver | libdupes/libdupes.go:102-148 | Only the bucket of the file's size changes, and it changes as `Step` says |
| LibDupes.VisitKnownSize | libdupes/libdupes.go:92-101 | A visit of a file whose size has a bucket is that bucket's `Step` |
| LibDupes.HashNext | libdupes/libdupes.go:87-91 | One loop iteration advances the run by one path and calls `progressCb(i, len(pending))` once |
| LibDupes.HashAll | libdupes/libdupes.go:85-149 | The loop over pending ends in the buckets and calls of `Run`; `progressCb` is called once per pending file, with `cur` = 0, 1, ... and `outof` = the number of pending paths, and never when it is nil |
| LibDupes.BucketDupes | libdupes/libdupes.go:152-156 | Exactly the lists of more than one path in one bucket are emitted, each once |
| LibDupes.Gather | libdupes/libdupes.go:150-157 | Exactly the groups of the final state are emitted, each once |
| LibDupes.Dupes | libdupes/libdupes.go:72-161 | The result holds exactly the groups of the run, sorted by descending key, with no repeats. Each group has more than one path, no path twice, all walked with exactly the group's size and all with one full digest. No path is in two groups. The hash calls and the progress calls are those of the run |
| LibDupesProofs.StepKeeps | libdupes/libdupes.go:102-148 | A visit keeps the bucket invariant: the held file, every unresolved slot and every listed path were visited with the bucket's size; every listed path's whole-file digest is its list's key and its prefix collided with another file's; an unresolved slot's path is in no list |
| LibDupesProofs.HashCurrentKeeps | libdupes/libdupes.go:117-148 | The current file's first pass, whichever of its three outcomes, keeps the bucket invariant |
| LibDupesProofs.CollisionKeeps | libdupes/libdupes.go:123-144 | Resolving a slot and full-hashing its file and then the current one keeps the invariant |
| LibDupesProofs.ResolvedSlotKeeps | libdupes/libdupes.go:137-144 | A collision with a resolved slot full-hashes only the current file and keeps the invariant |
| LibDupesProofs.NewSlotKeeps | libdupes/libdupes.go:146-147 | A new prefix digest taking a slot keeps the invariant |
| LibDupesProofs.VisitKeeps | libdupes/libdupes.go:92-148 | One iteration keeps the invariant of every bucket, and every visited size has a bucket |
| LibDupesProofs.RunKeeps | libdupes/libdupes.go:87-149 | The invariant holds after a run over any order of distinct pending paths |
| LibDupesProofs.GroupsSound | libdupes/libdupes.go:150-157 | Every group has more than one path and no path twice, and its paths were all walked with the group's size. They all have one full digest, and each had a prefix collision with another file of that size |
| LibDupesProofs.GroupsDisjoint | libdupes/libdupes.go:138-144 | A path is in at most one group |
| LibDupesProofs.ListedOnce | libdupes/libdupes.go:123-148 | A path is appended to at most one full-digest list of the whole state, and at most once to it |
| LibDupesProofs.RunListsApart | libdupes/libdupes.go:150-157 | Two digests of a bucket never hold the same non-empty list, so assembly emits each list once |
| LibDupesProofs.StepReads | libdupes/libdupes.go:102-148 | A visit reads only the current file, the held file, or a file holding a prefix slot, either on its first `min(4096, size)` bytes or whole |
| LibDupesProofs.RunCallsOk | libdupes/libdupes.go:92-101 | Every hash call of a run reads a visited file with one of those two block sizes, and some other visited file has its size: a file whose size is seen once is never read |
| LibDupesProofs.BucketIffVisited | libdupes/libdupes.go:92-101 | A size has a bucket exactly when a file of that size was visited |
| LibDupesProofs.RunHeldIntact | libdupes/libdupes.go:92-113 | When the first visited file of a size can be read, the file that size's bucket holds unhashed, if any, can be read: only that first file is ever held |
| LibDupesProofs.RunPlaces | libdupes/libdupes.go:92-148 | When the first visited file of a size can be read, each visited readable file of that size is the held file of its bucket, owns its prefix slot, or is filed under its full digest with its slot resolved. Any other file may be unreadable |
| LibDupesProofs.VisitPlaces | libdupes/libdupes.go:92-148 | When the held file of size `s`, if any, can be read, one iteration keeps every visited readable file of size `s` placed, and places the visited file if it has that size and can be read |
| LibDupesProofs.StepPlaces | libdupes/libdupes.go:102-148 | When the held file can be read, a visit places its file if that can be read, keeps every earlier readable file of the size placed, and leaves no file held |
| LibDupesProofs.HashCurrentPlaces | libdupes/libdupes.go:117-148 | The current file's first pass keeps every readable file of the size placed and places the current file if it can be read; a failed read changes nothing |
| LibDupesProofs.CollisionPlaces | libdupes/libdupes.go:123-144 | Resolving a slot files both its file and the current one under their full digests, and every other placed file stays placed |
| LibDupesProofs.ResolvedSlotPlaces | libdupes/libdupes.go:137-144 | A collision with a resolved slot files the current file under its full digest, and every other placed file stays placed |
| LibDupesProofs.PlacedTogether | libdupes/libdupes.go:150-157 | Two distinct placed files of one size with the same bytes share a full-digest list, so they are in one group |
| LibDupesProofs.GroupsComplete | libdupes/libdupes.go:72-161 | Two distinct visited files that can be read, with the same walked size and the same bytes, end up in one group when the first visited file of their size can be read too, whatever other files cannot be read. With HeldFailureHidesSize, this is exactly when the engine groups them |
| LibDupesFixed.HeldFailureSticks | libdupes/libdupes.go:102-113 | When the first visited file of a size cannot be read, its bucket keeps holding it, unchanged, for the rest of the run |
| LibDupesFixed.HeldFailureHidesSize | libdupes/libdupes.go:109-113 | When the first visited file of a size cannot be read, the run returns no group of that size |
| LibDupesFixed.EqualFilesLost | libdupes/libdupes.go:109-113 | For pending `{x: 5, a: 5, b: 5}` visited as x, a, b, with x gone and a and b holding the same bytes, the engine as written returns no group and the corrected one groups a with b |
| LibDupesFixed.StepSkippingUnreadable | libdupes/libdupes.go:102-148 | The corrected step never leaves a file held, and keeps the bucket consistent |
| LibDupesFixed.VisitFixed | libdupes/libdupes.go:92-148 | One corrected iteration keeps every bucket consistent |
| LibDupesFixed.RunFixed | libdupes/libdupes.go:87-149 | A corrected run keeps every bucket consistent |
| LibDupesFixed.FixedStepDiffers | libdupes/libdupes.go:109-113 | The corrected step differs from the step as written only when a held file's read fails; the step as written then leaves the bucket unchanged, while the corrected one still hashes the current file |
| LibDupesFixed.StepFixedKeeps | libdupes/libdupes.go:102-148 | The corrected step keeps the bucket invariant |
| LibDupesFixed.RunFixedKeeps | libdupes/libdupes.go:87-149 | The invariant holds after a corrected run over any order of distinct pending paths |
| LibDupesFixed.StepFixedPlaces | libdupes/libdupes.go:102-148 | The corrected step places the current file if it can be read and keeps every earlier readable file of the size placed, even when the held file cannot be read |
| LibDupesFixed.RunFixedPlaces | libdupes/libdupes.go:87-149 | After a corrected run, every visited file that can be read is placed in its size's bucket, whatever other files cannot be read |
| LibDupesFixed.GroupsCompleteFixed | libdupes/libdupes.go:72-161 | With the corrected step, any two distinct visited files with the same walked size and the same bytes, both readable, end up in one group, whichever other files cannot be read |
| UndupesSpec.AddFile | undupes.go:76-100 | Defines the hand-over of a later file to its bucket. Its properties are stated by AddFileKeeps, AddFileGrows and AddFileCalls |
| UndupesSpec.Callback | undupes.go:61-102 | Defines one callback of the walk. CallbackKeeps and FirstOfSizeHeld state its properties |
| UndupesSpec.Walk | undupes.go:61-102 | Defines the walk up to entry n, stopping at the first error. WalkKeeps, StopIsFinal and WalkPlaces state its properties |
| UndupesSpec.GroupsOf | undupes.go:103-110 | Defines the assembled groups: every digest list of more than one path, with its bucket's size. GroupsSound and GroupsComplete state what they are |
| UndupesSpec.AddFileKeeps | undupes.go:76-100 | Handing a later file to a sound bucket keeps it sound: the held file and every listed path were reported with the bucket's size, and each listed path hashes to its list's key. If no read fails, the held file is released |
| UndupesSpec.AddFileGrows | undupes.go:76-100 | Listed paths stay listed, and the held file stays held or is released. When no read fails, the new file and then the held file are appended under their full digests, and no file is held any more |
| UndupesSpec.AddFileCalls | undupes.go:77-92 | A later file reads itself whole, and then the held file whole if there is one |
| UndupesSpec.WalkKeeps | undupes.go:61-102 | Throughout the walk every bucket is sound, and while the walk goes on no bucket holds a file next to hashed ones |
| UndupesSpec.CallbackKeeps | undupes.go:61-102 | One callback keeps the walk invariant |
| UndupesSpec.FirstOfSizeHeld | undupes.go:67-75 | The first file of a size is held, unhashed, by a new bucket, and the callback reads nothing for it |
| UndupesSpec.SecondFileReleases | undupes.go:88-100 | Once a second file of a size has been reported and the walk goes on, that size holds no file for the rest of the walk |
| UndupesSpec.LaterFileReleases | undupes.go:76-100 | A file of a size that already has a bucket releases the held file unless a read fails |
| UndupesSpec.ReleasedStaysReleased | undupes.go:88-100 | A size whose held file is released never holds one again |
| UndupesSpec.BucketsStay | undupes.go:63-75 | A size, once it has a bucket, keeps it |
| UndupesSpec.StopIsFinal | undupes.go:77-92 | After the callback's first error the walk stops: nothing reported later changes the state |
| UndupesSpec.NotStoppedBefore | undupes.go:61-102 | A walk still going on at one point was going on at every earlier point |
| UndupesSpec.OnlyBeforeStop | undupes.go:61-113 | The groups of a walk stopped at any point k hold only files reported among its first k entries, and they are still returned |
| UndupesSpec.FailureAddsNoGroup | undupes.go:77-92 | The entry whose read fails adds no group: the groups after it are those before it |
| UndupesSpec.FailedAddListsNothing | undupes.go:76-100 | A failed hand-over to a bucket that holds a file keeps every list and adds at most one-path lists |
| UndupesSpec.SameGroups | undupes.go:103-110 | Changing a bucket only by adding one-path lists leaves the groups as they were |
| UndupesSpec.OnlyBeforeFailure | undupes.go:61-113 | The groups of a stopped walk hold only files reported before the failing entry |
| UndupesSpec.WalkCallsOk | undupes.go:67-92 | Every read hashes a whole reported file, and a file whose size no other entry has is never read |
| UndupesSpec.GroupsSound | undupes.go:103-110 | Every group has more than one path, all reported with the group's size and all with one full digest |
| UndupesSpec.ListsApart | undupes.go:103-110 | Two digests of a bucket never hold the same non-empty list |
| UndupesSpec.ListsDistinct | undupes.go:83-99 | If the walk reports no file path twice, no list holds a path twice |
| UndupesSpec.GroupsDisjoint | undupes.go:103-110 | If the walk reports no file path twice, no path is in two groups |
| UndupesSpec.WalkPlaces | undupes.go:61-102 | While the walk goes on, every reported file is the held file of its size or is listed under its full digest |
| UndupesSpec.GroupsComplete | undupes.go:55-114 | If the walk is not stopped, two different reported files of the same size and the same bytes end up in one group |
| Undupes.FilesWithHashes.constructor | undupes.go:70-73 | A new size's object holds its file with no digests |
| Undupes.FilesWithHashes.Add | undupes.go:76-100 | The in-place update of a bucket ends in the state, makes the calls and returns the error that `AddFile` defines |
| Undupes.Visit | undupes.go:61-102 | The callback skips directories, gives a new size a fresh bucket, hands a known size's file to its bucket and leaves every other bucket as it was, as `Callback` defines |
| Undupes.HandOver | undupes.go:76-100 | Only the bucket of the file's size changes, and it changes as `AddFile` says |
| Undupes.WalkAll | undupes.go:61-102 | The walk, stopping at the first error, ends in the buckets and calls of `Walk` |
| Undupes.BucketDupes | undupes.go:105-109 | Exactly the lists of more than one path in one bucket are emitted, each once |
| Undupes.Gather | undupes.go:103-110 | Exactly the groups of the final state are emitted, each once |
| Undupes.Dupes | undupes.go:55-114 | The result holds exactly the groups of the walk's final state, stopped or not, sorted by descending key, with no repeats. Each group has more than one path, all reported with its size and all with one full digest. With no path reported twice, no path repeats within or across groups |
| Undupes.ReturnedGroups | undupes.go:103-113 | Any list holding each final group once has the per-group and cross-group properties above |
| Summary.SetLogLevel | main.go:17-25 | `setLogLevel(l)` succeeds exactly when 0 <= l < 6, and then sets the level at index l |
| Summary.LevelIndex | main.go:16 | Every level has an index in the level list |
| Summary.SetLogLevelSelectsEachLevelOnce | main.go:17-25 | Every level is selected by exactly one `-v` value |
| Summary.WithTrailingSeparator | main.go:179-181 | The root ends in the separator afterwards. It is unchanged exactly when it already ended in one, and otherwise exactly one separator is appended |
| Summary.TrailingSeparatorIdempotent | main.go:179-181 | Adding the separator twice adds it once |
| Summary.FileCount | main.go:190 | Defines `fcount` as a sum over the sets. FileCountIsNamesLessSets, TotalsAdd and TotalsBounds state its properties |
| Summary.TotalSize | main.go:191 | Defines `tsize` before the `uint64` wrap-around, as a sum over the sets. TotalsAdd and TotalsBounds state its properties |
| Summary.Summarize | main.go:187-192 | `fcount` is the sum of `len(Names) - 1` over the sets, and `tsize` is the sum of `Size * (len(Names) - 1)` modulo 2^64 |
| Summary.TotalsAdd | main.go:189-192 | The totals of two lists of sets add up |
| Summary.TotalsBounds | main.go:189-192 | For sets of more than one file, the count is at least the number of sets and the size total is not negative |
| Summary.FileCountIsNamesLessSets | main.go:190 | The file count is the number of names less one per set |
| Interactive.ParseInt32 | main.go:233-236 | A parse succeeds only on a string that starts with a sign or a digit, and only for a value within the int32 range |
| Interactive.ParseDecimal | main.go:233 | Parsing the decimal form of any int32 value gives the value back |
| Interactive.Choose | main.go:225-243 | Defines the validator's verdict on one answer. ChooseInRange and ChooseListedNumber state its properties |
| Interactive.ChooseListedNumber | main.go:222-242 | Typing the number the prompt shows next to file j keeps file j |
| Interactive.ChooseInRange | main.go:225-243 | An answer is accepted exactly when it is f, F, a, A, or a decimal k with 1 <= k <= len(Names); an accepted number names a file of the set |
| Interactive.Removals | main.go:247-253 | Defines the files the deletion loop removes for a value of `keep`. RemoveAllBut, RemovalsSpareKept and RemovalsFromSet state its properties |
| Interactive.RemoveAllBut | main.go:247-253 | The deletion loop removes `Removals(names, keep)`: nothing when keep is -1, every other name in order otherwise |
| Interactive.RemovalsSpareKept | main.go:247-253 | Keeping file `keep` of a set without repeats removes every other file once and not that one |
| Interactive.RemovalsFromSet | main.go:247-253 | Only files of the set are removed |
| Interactive.Decision | main.go:157-176 | Defines the answer `getInput` returns: the first one the validator accepts. DecisionIsChoice states its properties |
| Interactive.DecisionIsChoice | main.go:157-176 | The answer acted on is the validator's verdict on some answer, and every earlier answer was rejected. There is no decision exactly when the validator rejects every answer |
| Interactive.ReviewSet | main.go:220-253 | One set's review ends the program exactly when the input runs out before an accepted answer; otherwise it removes every file but the chosen one, or none for "a" |
| Interactive.ReviewKeepsOne | main.go:225-253 | Whatever answer is accepted, a set of distinct files keeps at least one |
| Interactive.ReviewNext | main.go:219-254 | Reviewing set i is one step of the session: the removals so far, then this set's, then those of the later sets |
| Interactive.SessionFrom | main.go:219-254 | Defines the removals of the reviews from set i on, and whether the input ran out. SessionStep, SessionRemovesFrom and SessionKeepsOne state its properties |
| Interactive.SessionStep | main.go:219-254 | A set's review either ends the session or passes on to the next set |
| Interactive.RunInteractive | main.go:219-254 | The loop over the sets removes exactly the session's files, in order, and stops at the first input error |
| Interactive.SessionRemovesFrom | main.go:247-253 | A removed file is removed by the review of a set that lists it |
| Interactive.SessionKeepsOne | main.go:219-254 | With sets of distinct paths that share no path, every set keeps at least one file however the user answers |
| Automatic.Classify | main.go:295-312 | `p` is the set of names `--prefer` matches, and `o` the set of the other names `--over` matches (empty without `--over`) |
| Automatic.PreferredNotOverridden | main.go:307-311 | `p` and `o` are disjoint |
| Automatic.RemoveAll | main.go:331-337 | A loop over a map's keys removes each key once |
| Automatic.RemoveByPreference | main.go:341-348 | Without `--over`, the names removed are those outside `p`, or those inside `p` with `--invert` |
| Automatic.Preferred | main.go:297-309 | Defines `p`: the names `--prefer` matches. Classify and PreferredNotOverridden state its properties |
| Automatic.Overridden | main.go:297-312 | Defines `o`: the other names `--over` matches, none without `--over`. Classify and PreferredNotOverridden state its properties |
| Automatic.AutoRemovals | main.go:313-350 | Defines the names one set's policy removes. AutomaticSet, AutoRemovalsShape and AutomaticKeepsOne state its properties |
| Automatic.AutomaticSet | main.go:313-350 | One set removes exactly the policy's names. Nothing is removed unless `--prefer` matched. With `--over`, nothing is removed unless `o` is non-empty, and then `o` is removed (`p` with `--invert`), each once. Without `--over`, nothing is removed unless `p` has fewer names than the set lists |
| Automatic.NoPreferenceNoRemoval | main.go:313 | A set in which `--prefer` matches nothing loses nothing |
| Automatic.AutoRemovalsShape | main.go:327-339 | Only names of the set are removed; with `--over`, only when `o` is non-empty, and then exactly `o` or exactly `p` |
| Automatic.AutomaticKeepsOne | main.go:313-350 | In a set of distinct names, the policy never removes every name, whatever the options |
| Automatic.RepeatedNameCanLoseAll | main.go:341-348 | With a name listed twice, `--invert` without `--over` can remove every copy, because `len(p)` counts distinct names and `len(Names)` does not |
| Automatic.RunAutomatic | main.go:294-352 | The loop over the sets removes exactly the names some set's policy removes |
| Automatic.AllRemovalsFrom | main.go:294-352 | A name is removed only by the policy of a set that lists it |
| Automatic.RunAutomaticKeepsOne | main.go:294-352 | With sets of distinct names that share no name, as `Dupes` returns them, every set keeps at least one file |

## Left out

- MD5 is abstract. `md5` is any function from bytes to a 16-byte digest, so no claim depends on it being collision-free. Reading a file is a lookup in the map of contents, and open or read errors are a per-file flag.
- The file system is not time-dependent: each file's contents and readability are fixed during a run. In the model, a whole read of a file whose prefix read succeeded cannot fail. The `continue`s after a failed whole read (libdupes/libdupes.go:129-133 and 138-142) are therefore unreachable in the model. The first of them, on the colliding file's whole read, would also skip the current file: the slot was already marked resolved at :128, so the current file, although readable, would never be filed.
- `filepath.Walk` is not modelled. Its traversal is given as the sequence of entries it reports.
- Walk errors are left out. When `Lstat` fails (a missing root, an entry removed during the walk), the callback gets a nil `os.FileInfo` and the source panics on `info.IsDir()`. When a directory's contents cannot be read, the callback gets the directory's own `os.FileInfo`, `IsDir()` makes it return nil, and that subtree is skipped without a word. The model covers the second case only as entries that are absent from the walk.
- Go's map iteration order is a parameter (`order`) or an arbitrary choice. The model states what holds for every order.
- `sort.Sort` is modelled by its contract, as a permutation sorted by descending key. It is not stable, so the order of tied groups is not stated.
- Logging, the spinner, `humanize.Bytes` and the `cli` wiring are out of scope. So are `runPrint`'s file output and the dry-run message in `remove`. `remove` is modelled as the list of paths it is called with.
- `getInput` reads from stdin. Its input is the list of lines the user types, already passed through `strings.TrimSpace`. The end of input is the read error that makes the program exit with `log.Fatalln`.
- Regular expressions are left out. `--prefer` and `--over` are predicates on a name. The warning logged when both match is left out.
- The integer width of `bySize`'s key `Size * len(Names)` is not modelled; it could overflow int64. `fcount` is taken as an unbounded `int`. `tsize`'s `uint64` wrap-around is modelled.
- The source's `Dupes` always returns a nil error, so the error result is not modelled.
- Only the Unix path separator `/` is modelled, for `os.IsPathSeparator`.
- Summary.WithTrailingSeparator: requires a non-empty root. The source indexes the root's last byte and panics on an empty one.
- main.go calls `dupes.Dupes(root)` with one argument and treats `Size` as `uint64`. libdupes takes `(roots, progressCb)` and uses `int64` sizes. The command-line logic is modelled over abstract `(size, names)` sets, and sizes are natural numbers.
- main_test.go is not part of this model. It drives the program through pipes and calls signatures that the shown main.go does not have.
- Automatic.AutomaticSet: without `--over`, the contract states which names are removed but not their order, nor that a name listed twice is removed twice.
- Automatic.RunAutomatic: states which names are removed, not the order or number of `remove` calls.

## Findings

| source | as written | input that shows it | evidently intended | confidence | as-written member | corrected member |
|---|---|---|---|---|---|---|
| libdupes/libdupes.go:109-113 | When the held file's first-pass read fails, the visit `continue`s: the current file is skipped and the unreadable file stays held. Every later file of that size fails the same way, so no group of that size is ever found | pending `{x: 5, a: 5, b: 5}` visited as x, a, b; x deleted after the walk; a and b readable with the same 5 bytes. The result is empty | Skip only the file that cannot be read, as a failed read of the current file at :118-122 does: drop the held file and hash the current one. Then two readable files with equal bytes are always grouped | medium, not executed | LibDupesFixed.HeldFailureHidesSize | LibDupesFixed.GroupsCompleteFixed |

LibDupesFixed.EqualFilesLost runs both engines on the input above. The imperative `LibDupes.Dupes` keeps modelling the code as written, so its completeness (LibDupesProofs.GroupsComplete) needs the first visited file of the two files' size to be readable as well.
