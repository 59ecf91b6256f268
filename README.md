# Diff engine of the Minio client (`diff.go`), modelled in Dafny

The diff engine compares two storage locations (a single object, a local
directory, or a bucket/prefix) and streams `DiffMessage` records onto a
channel: error records, and classification records `only-in-first`, `type`
and `size`. This project models that engine:

- `storage.dfy` (module `Storage`): the storage side, seen through its
  interface. `url2Stat` is the map `Env.stat` (a URL is in it exactly when its
  stat succeeds) and yields a `Client` and a `Content` (name, int64 size, kind
  regular/dir/other). A `Client` carries its URL string, its path separator
  and what `List(false)` and `List(true)` yield, as a sequence of entries
  possibly ended by a listing error. `urlJoinPath` is the uninterpreted function
  `Env.join`, which may fail (`None`).
- `messages.dfy` (module `Messages`): `DiffMessage` as a datatype (a
  difference with two URLs and its kind, or a failure with its cause and
  the URLs it is traced with), and the result channel as a class whose
  `Send` and `Close` require it to be open. Go panics on a send to a closed
  channel or on a second close.
- `object_diff.dfy`, `flat_diff.dfy`, `recursive_diff.dfy`, `classifier.dfy`:
  `doDiffObjects`, `dodiff`, `dodiffRecursive`, `doDiffInRoutine` and
  `doDiffDirs` as methods that send on the channel. Each method's
  postcondition says the channel now holds what it held before, followed by
  the records of a specification function (`ObjectsDiff`, `FlatDiffOf`,
  `RecursiveDiffOf`, `RoutineDiff`, `DirsDiff`). The lemmas beside those
  functions state what the engine promises.

The two listing goroutines of `dodiffRecursive` run one after the other
here (first side, then second side), and then the compare walk runs. Each
patricia trie is a `map` with exact-key lookup. The trie's visit order is
left open: `CompareWalk` picks any remaining key and returns the order it
used as a ghost `order`. That order is proved to visit every key of the first
index exactly once. The records are then proved independent of that order
(as a multiset).

Three behaviours of the code are easy to miss:
- A regular file against a directory: the code joins the whole path of the
  first URL onto the second URL (`urlJoinPath(secondURL, firstURL)`,
  diff.go:110, and diff.go:83-87), not only its last path segment. See
  `Classifier.FileIntoDir`.
- The recursive walk compares sizes for every pair that passed the two type
  checks (diff.go:330-358), not only for two regular files. The pairs
  compared by size alone are two regular files, two directories, and a
  first entry that is neither regular nor a directory against any second
  entry. See `RecursiveDiff.SizeOtherwise`.
- The compare walk looks a key of the first trie up in the second with
  `Match(patricia.Prefix(matchName))` (diff.go:320). The go-patricia library
  is not part of this model. In it, `Match` reports whether an item is stored
  under exactly that key, despite the `Prefix` type of its argument, so the
  model uses exact-key lookup.

## Model

| member | source | states |
|---|---|---|
| ObjectDiff.ObjectsDiff | diff.go:145-187 | doDiffObjects sends at most two records. Every difference record carries the two input URLs and is `type` or `size`, never `only-in-first`. An error record is the only record sent. |
| ObjectDiff.OneStatFails | diff.go:149-160 | If exactly one of the two stats fails, the output is exactly one error record, traced with both URLs. |
| ObjectDiff.SameNameSkipped | diff.go:161-163 | If both stats report the same name, nothing is sent, whatever the kinds and sizes. |
| ObjectDiff.FirstNotRegular | diff.go:164-178 | If the first entry is not a regular file, the output is exactly one "not an object" error for the first URL. |
| ObjectDiff.RegularPair | diff.go:164-186 | Two regular files send no record when their sizes are equal. Otherwise they send exactly one `size` record with the input URLs. |
| ObjectDiff.TypeThenSize | diff.go:165-186 | A regular file against a non-regular entry sends a `type` record first. Since there is no return after it, a `size` record follows exactly when the sizes differ. |
| ObjectDiff.DoDiffObjects | diff.go:145-187 | The records sent are exactly `ObjectsDiff`, appended to the channel, and the channel stays open. |
| FlatDiff.EntryDiff | diff.go:211-243 | One listed child sends at most one record, and it is a difference record carrying the two joined URLs. It never sends an error. Both of its stats have succeeded when `doDiffObjects` runs, and both entries are regular files. |
| FlatDiff.AbortRecord | diff.go:191-210 | A listing error, or a join failure on either side, produces an error that ends the walk. The listing error and a first-side join failure are traced with the first client URL. A second-side join failure is traced with the second client URL. |
| FlatDiff.ItemDiff | diff.go:197-243 | A listing step that does not stop the walk sends at most one record. It is a difference record whose URLs are the joins of the child's name onto the two client URLs. |
| FlatDiff.FlatFrom | diff.go:190-244 | A listing error or a join error is always the last record: nothing is sent after it. Every error record the flat walk sends is one of these two. |
| FlatDiff.EntryOnlyInFirst | diff.go:214-220 | A child whose first-side stat succeeds and second-side stat fails sends exactly one `only-in-first` record with the joined URLs. |
| FlatDiff.EntryFirstStatFails | diff.go:211-243 | A child whose first-side stat fails sends nothing. |
| FlatDiff.EntryBothDirs | diff.go:223-231 | A child that is a directory on both sides sends nothing. |
| FlatDiff.FlatStopsAt | diff.go:190-210 | At the first listing step that is a listing error or fails to join, the output is the records of the earlier steps plus exactly one error record. The remaining steps are not processed. |
| FlatDiff.FlatAppend | diff.go:190-244 | Steps that do not abort contribute their own records, and the walk continues with the rest. |
| FlatDiff.FlatRecordsJoined | diff.go:197-219 | Every difference record's URLs are `join(firstClientURL, name)` and `join(secondClientURL, name)` for some listed child `name`. |
| FlatDiff.DoDiffEntry | diff.go:211-243 | The comparison of one listed child sends exactly `EntryDiff` for its two joined URLs, and the channel stays open. |
| FlatDiff.DoDiff | diff.go:189-245 | The loop sends exactly `FlatDiffOf` for the first client's one-level listing. |
| RecursiveDiff.TrieInsert | diff.go:267 | Inserting a name that is not yet present maps it to its item and keeps every other entry. An existing key keeps its item, and the index is unchanged. |
| RecursiveDiff.ListingErrors | diff.go:260-266 | One listing sends at most one error record, traced with that client's URL. |
| RecursiveDiff.IndexFrom | diff.go:260-268 | Indexing further entries keeps every key already indexed, with its item: the first entry listed under a name wins. |
| RecursiveDiff.IndexOfLookup | diff.go:260-268 | Each name in the index maps to the attributes of the first entry listed under it before the first listing error. No other key is in the index. |
| RecursiveDiff.ListingStopsAtError | diff.go:258-282 | A listing that fails at step j indexes exactly the entries before j, in order, and sends exactly one error record. A listing with no error indexes every entry and sends no error. |
| RecursiveDiff.LastIndex | diff.go:316-317 | This is `strings.LastIndex` for the separator: -1 or a position holding the separator, with no separator after it. |
| RecursiveDiff.Delimited | diff.go:316-317 | The base URL is a prefix of the client URL that is empty or ends with the separator. The rest of the URL holds no separator. |
| RecursiveDiff.DelimitedUnique | diff.go:316-317 | No other prefix has those three properties, so they determine the base. |
| RecursiveDiff.CompareKey | diff.go:318-359 | A key's record, if any, is a difference carrying base+key on both sides. It is `only-in-first` exactly when the key is missing from the second index. |
| RecursiveDiff.TypeBeforeSize | diff.go:330-350 | A regular file against a non-regular entry, or a directory against a non-directory, sends a `type` record and no `size` record. |
| RecursiveDiff.SizeOtherwise | diff.go:352-358 | Every other pair present on both sides is compared by size alone. This includes two directories and entries of other kinds. |
| RecursiveDiff.Step | diff.go:315-360 | One visited key sends at most one record, a difference record carrying the two bases followed by that key. A key outside the first index sends nothing. A key missing from the second index sends `only-in-first`. |
| RecursiveDiff.Walk | diff.go:315-360 | The walk sends no more records than keys visited, and all of them are difference records. |
| RecursiveDiff.WalkMembers | diff.go:315-360 | A record is sent exactly when some visited key of the first index yields it. |
| RecursiveDiff.WalkRecordKey | diff.go:315-319 | Every record's URLs are the two bases followed by the same key of the first index. |
| RecursiveDiff.WalkOnePerKey | diff.go:315-360 | When no key is visited twice, no two records share a first URL, so each key sends at most one record. |
| RecursiveDiff.WalkOnlyInFirst | diff.go:320-325 | An `only-in-first` record for key k is sent if and only if k is in the first index and missing from the second. |
| RecursiveDiff.WalkIgnoresSecondOnly | diff.go:312-320 | A key present only in the second index sends no record. |
| RecursiveDiff.WalkBound | diff.go:312-360 | The walk sends at most as many records as the first index has keys. |
| RecursiveDiff.WalkOrderIrrelevant | diff.go:306-314 | Any two visit orders of the first index produce the same multiset of records. |
| RecursiveDiff.ScenarioMissingEntry | diff.go:247-361 | With first side {a/x.txt 10 bytes, a/y.txt 5 bytes} and second side {a/x.txt 10 bytes}, the recursive differ sends exactly one record, `only-in-first` for a/y.txt, in every visit order. |
| RecursiveDiff.ListingErrorsFirst | diff.go:257-304 | Each side's listing sends at most one error record, traced with its URL. All listing errors come before every compare-phase record. |
| RecursiveDiff.RecursiveDiffOf | diff.go:247-361 | The recursive differ sends at most two records more than keys visited, and its only error records are listing errors. |
| RecursiveDiff.BuildIndex | diff.go:258-269 | The loop builds exactly `IndexOf(listing)` and sends exactly `ListingErrors(listing, url)`. |
| RecursiveDiff.CompareWalk | diff.go:306-360 | The walk visits every key of the first index exactly once and sends exactly `Walk` over that order. |
| RecursiveDiff.DoDiffRecursive | diff.go:247-361 | The channel receives the first side's listing error, then the second side's, then the walk over an enumeration of the first index. |
| Classifier.FirstStatFails | diff.go:93-99 | If stat of the first URL fails, the output is exactly one error record traced with the first URL. The output is the same for every second URL, so the second URL is never examined. |
| Classifier.SecondStatFails | diff.go:100-106 | If stat of the second URL fails, the output is exactly one error record traced with the second URL. |
| Classifier.DirAgainstNonDir | diff.go:129-137 | A directory against a non-directory sends exactly one `type` record with the two input URLs. |
| Classifier.RegularAgainstOther | diff.go:118-124 | A regular file against an entry that is neither regular nor a directory sends exactly one `type` record. |
| Classifier.FirstOtherSilent | diff.go:107-141 | A first entry that is neither regular nor a directory sends nothing. |
| Classifier.FileIntoDir | diff.go:109-117 | A regular file against a directory compares the file with `join(secondURL, firstURL)`, the whole path of the first URL joined onto the second. A failed join sends one error traced with both URLs. |
| Classifier.RegularFiles | diff.go:125-126 | Two regular files with different reported names send no record when their sizes are equal. Otherwise they send exactly one `size` record with the input URLs. |
| Classifier.DirsDiff | diff.go:364-370 | Comparing two directories sends no stat or not-an-object error. Its only error records are listing errors and, in flat mode only, join errors. |
| Classifier.RoutineDiff | diff.go:91-142 | Unless both inputs stat as directories, at most two records are sent. A listing error is sent only when both inputs are directories. |
| Classifier.DoDiffDirs | diff.go:364-370 | Recursive mode runs the recursive differ, and otherwise the flat differ runs. The records sent are those of the differ that ran. |
| Classifier.DoDiffInRoutine | diff.go:91-142 | The channel receives exactly `RoutineDiff`, and it is closed on every path, exactly once. |

## Left out

- mb-main.go is not part of this model. It is a one-shot command wrapper with no diff logic.
- `DiffMessage.String` (diff.go:56-75) is not modelled. It is console colouring and JSON rendering only.
- The internals of `urlJoinPath` (diff.go:78-89) are not modelled, because they rest on `client.Parse` and `filepath.Join`. `Env.join` stands in for it as an arbitrary function that may fail.
- `url2Stat` and `Client.List` are not modelled. They become a fixed stat map and fixed listing sequences, so a stat returns the same answer each time it is asked. The string of a client's URL is the `url` field of the client that the stat returns.
- The goroutines, the wait group, the spinner and the escape output (diff.go:250, 257-259, 270-272, 284-305) are not modelled. The buffered `matchNameCh` hand-off (diff.go:306-314) is not modelled either. These are concurrency and cosmetics:
  - the two listings run one after the other;
  - the order between the two sides' listing errors, which in the source can come in either order, is fixed to first side, then second side.
- The trie's internals are not modelled. A repeated name keeps its first item, as go-patricia's `Insert` does; that library is not part of this model. The visit order is an arbitrary enumeration.
- ObjectDiff.ObjectsDiff: the case where both stats fail is excluded by its precondition. The Go code falls through and dereferences nil contents. Every caller in the engine has already seen one of the two stats succeed.
- The contents of `probe.Error` traces are not modelled. A failure records only its cause and the URLs it is traced with.
- Sizes are int64 and are only compared for equality, so overflow does not arise.
