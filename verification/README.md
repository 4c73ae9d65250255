# File organizer core, in Dafny

This project models the core of a small file-organizer web service
(`app.py`):

- **Classifier**. `get_file_type` turns a guessed MIME type into a type
  string, using `"Unknown"` when there is no guess. `get_file_category`
  lower-cases that string. It then files it under the first of five keyword
  tables (Documents, Images, Videos, Audio, Archives) that has a keyword
  occurring in it as a substring. Anything else is Others.
- **Directory scan** (`analyze_directory`). It checks the root and then
  walks the tree. Every regular file it can probe becomes one record, which
  goes into a flat list and into the list of its category. The source sorts
  every list newest first with Python's stable `list.sort(key=...,
  reverse=True)`.
- **Hasher** (`calculate_file_hash`). It feeds a file into SHA-256 in blocks
  of 4096 bytes.
- **Duplicate detector** (`find_duplicate_files`). It makes one pass over
  the walk and keeps a map from each digest to the first path seen with it.
  Each later file with a known digest is reported as a duplicate of that
  first path. A file that cannot be read aborts the whole pass.

The model works as follows:

- The file system is an input. The walk is a sequence of entries, each
  carrying what probing it found (scan) or its content (detector).
- SHA-256 is a function parameter, so every statement about digests holds
  for any hash function.
- Each operation is a function or method with a contract.
- Each contract is linked to an independent description:
  - the classifier to "first table with a matching keyword";
  - the sort to "sorted, a permutation, ties in input order";
  - the detector's loop to a declarative reference `DuplicatesOf`, about
    which the properties are proved.

Modules:

- `Wrappers`: the `Option` and `Result` types.
- `Classifier`: substring search, the keyword tables, `FileType` and
  `FileCategory`.
- `ClassifierExamples`: a few concrete classifications.
- `StableSort`: a stable descending sort, and a proof that a stable sort is
  unique. Because of that uniqueness, modelling TimSort as insertion sort
  loses nothing.
- `Scan`: records, the category partition, and the scan method.
- `Hashing`: chunked reading and the digest method.
- `Duplicates`: the reference definition, its properties, and the
  detector's loop.

## Model

| member | source | states |
|---|---|---|
| Classifier.Lower | app.py:31 | lower-casing keeps the length and lower-cases each character on its own (ASCII letters only) |
| Classifier.Keywords | app.py:32-41 | the five keyword tables, tried for Documents, Images, Videos, Audio and Archives; only Others has none |
| Classifier.KeywordsLowerCase | app.py:31-41 | every keyword is non-empty and its own lower-case form |
| Classifier.LowerKeepsOccurrence | app.py:31-32 | lower-casing the text keeps every occurrence of a keyword that is its own lower-case form |
| Classifier.LowerKeepsTableMatch | app.py:31-41 | a table whose keyword occurs in the type string as given still matches after lower-casing, so lower-casing cannot hide a keyword |
| Classifier.LowerOfLowerCase | app.py:31 | a string with no upper-case letter is unchanged by lower-casing |
| Classifier.FileType | app.py:19-28 | the type string is never empty; it is the guessed MIME type whenever there is a non-empty guess; no guess and an empty guess both give "Unknown" |
| Classifier.FileCategory | app.py:30-43 | the category is Others, or its table has a keyword occurring in the lower-cased type; no table ranked before it has one |
| Classifier.FirstMatchDeterminesCategory | app.py:32-43 | a category is chosen exactly when its table matches and no earlier table does; Others is chosen exactly when no table matches |
| Classifier.CategoryIgnoresCase | app.py:31 | lower-casing the type first never changes the category |
| Classifier.LowerIdempotent | app.py:31 | lower-casing twice is lower-casing once |
| Classifier.ContainsIffOccurs | app.py:32 | the keyword test holds exactly when the keyword occurs at some position of the text |
| Classifier.AnyKeywordIffSome | app.py:32 | a table matches exactly when one of its keywords occurs in the text |
| Classifier.OccurrenceKeepsChars | app.py:32 | every character of a keyword that occurs in a text is a character of that text |
| Classifier.MissingCharRulesOut | app.py:32 | a keyword with a character absent from the text does not occur in it |
| Classifier.OccurrenceRulesIn | app.py:32 | a keyword found at a position occurs in the text |
| Classifier.EveryCategoryListed | app.py:47-54 | a helper for Scan.Partition: the six labels of the category dictionary are every value of the category type |
| ClassifierExamples.AudioMp4IsVideo | app.py:32-37 | "audio/mp4" is a Video, because "mp4" in the Videos table is tried before "audio" in the Audio table |
| ClassifierExamples.UnknownIsOther | app.py:19-43 | a file with no MIME guess has type "Unknown" and falls into Others |
| ClassifierExamples.UpperCaseImage | app.py:31-35 | "IMAGE/JPEG" is an Image, despite the upper case |
| StableSort.Insert | app.py:99-103 | inserting into a newest-first list keeps it ordered and adds exactly the one element |
| StableSort.SortDesc | app.py:99-103 | the sorted list is ordered newest first and is a permutation of its input |
| StableSort.InsertTies | app.py:99-103 | insertion puts the new element in front of the elements that share its key, and keeps those elements in their order |
| StableSort.SortDescStable | app.py:99-103 | among elements with equal keys the sorted list keeps the input order |
| StableSort.SortedTiesDetermine | app.py:99-103 | two ordered lists with the same equal-key runs are the same list |
| StableSort.StableSortIsUnique | app.py:99-103 | any ordered list that keeps input order among ties is this sort's output, so every stable sort agrees with it |
| StableSort.WithKeyCons | app.py:99-103 | the elements with a given key of a list are its head, if it has that key, then those of the rest |
| Scan.ToRecord | app.py:79-90 | a walk entry gives a record exactly when it is a regular file whose probing succeeded; the record carries its name, path, guessed type, size and timestamp, and the category computed from the type |
| Scan.RecordsFollowWalk | app.py:70-96 | the records are one per regular, successfully probed entry of the walk, in walk order, and there are no others; entries that are not files or whose probing failed contribute nothing |
| Scan.RecordsClassified | app.py:79-91 | every record is filed under the classification of its own type |
| Scan.InCategoryMembers | app.py:91 | a category list holds exactly the records of that category |
| Scan.InCategoryCounts | app.py:91 | a category list holds each record of its category as often as the flat list, and nothing else |
| Scan.SplitKeepsRecords | app.py:91-92 | the six category lists together are a permutation of the flat list |
| Scan.SplitKeepsCount | app.py:91-92 | the six category lists have as many records in all as the flat list |
| Scan.Partition | app.py:47-54 | the category map has exactly the six labels as keys |
| Scan.PartitionIsComplete | app.py:91-92 | the unsorted category lists together hold every record exactly as often as the flat list |
| Scan.ScanListsByClassification | app.py:79-103 | in the scan of a walk, every record in the list of a category has a type that the classifier files under that category |
| Scan.PartitionAppend | app.py:91-92 | appending one record extends only the list of its own category |
| Scan.CollectRecords | app.py:70-96 | the loop builds the walk's records, and their partition into categories, in walk order |
| Scan.AnalyzeDirectory | app.py:45-113 | a missing root fails with "not found"; a root that is not a directory fails with "not a directory"; otherwise the result has the six keys, the flat list is the records sorted newest first, stably and as a permutation, and each category list is that category's records sorted the same way |
| Scan.ScanPartitionsFiles | app.py:91-103 | in a scan result the category lists together are a permutation of the flat list, and each list holds only records of its own category |
| Hashing.Read | app.py:188 | a read returns the next bytes of the file from the current position, 4096 of them unless fewer remain |
| Hashing.ChunksFrom | app.py:188-189 | the blocks read from a position concatenate to the rest of the file; none is empty, none exceeds 4096 bytes, and all but the last are full |
| Hashing.Chunks | app.py:188-189 | the blocks read from the start concatenate to the whole file |
| Hashing.ReadIsNextBlock | app.py:188 | a non-empty read is the first block of the remaining chunks |
| Hashing.ReadExtendsPrefix | app.py:188-189 | after absorbing a read, the bytes absorbed are the file up to the new position |
| Hashing.ReadStep | app.py:188-189 | one loop step keeps "blocks so far, then the chunks still to read, are all the chunks" |
| Hashing.CalculateFileHash | app.py:184-190 | with the file fed in 4096-byte chunks, the digest is the hash of the whole content; the blocks fed in are the file's chunks in order. This relies on modelling the streaming hash object as the bytes absorbed so far, with the digest the hash of all of them |
| Duplicates.FirstIndex | app.py:203-222 | the position found holds the digest and no earlier position does |
| Duplicates.FirstIndexInPrefix | app.py:203-222 | the first occurrence of a digest within a prefix is its first occurrence overall |
| Duplicates.RepeatsIncrease | app.py:198-222 | the reported positions are positions of files, in walk order |
| Duplicates.RepeatsAreCopies | app.py:203-222 | a file is reported exactly when an earlier file has its digest |
| Duplicates.RepeatsAreLaterCopies | app.py:198-222 | the reported positions are in walk order, and are exactly the files whose digest occurred earlier |
| Duplicates.RepeatsAppend | app.py:203-222 | one more file is a repeat exactly when its digest occurred before |
| Duplicates.EntryAtAppend | app.py:203-222 | a later file never changes the entry reported for an earlier one |
| Duplicates.DuplicatesAppend | app.py:203-222 | one more file adds one entry, pairing it with the first file of its digest, when the digest was seen before, and no entry otherwise |
| Duplicates.RepeatsCount | app.py:192-227 | the number of repeated positions is the number of files minus the number of distinct digests |
| Duplicates.DistinctAppend | app.py:203-222 | one more digest adds one distinct digest exactly when it is new |
| Duplicates.DuplicateCount | app.py:192-227 | the number of entries is the number of hashed files minus the number of distinct digests |
| Duplicates.DuplicatesFollowWalk | app.py:198-222 | every entry pairs a file with an earlier file of the same digest, which is the first file with that digest; the entries are in walk order of their duplicate files |
| Duplicates.SharedOriginal | app.py:203-222 | all entries with the same digest name the same original |
| Duplicates.EveryRepeatReported | app.py:203-222 | every file with an earlier file of the same digest is reported, against the first such file |
| Duplicates.NoSelfDuplicate | app.py:192-227 | when the walk lists every path once, no file is its own duplicate |
| Duplicates.TwoCopies | app.py:203-222 | two identical files give one entry, against the first |
| Duplicates.ThreeCopies | app.py:203-222 | three identical files give two entries, both against the first copy |
| Duplicates.SeenAppend | app.py:221-222 | one more file leaves the first positions of earlier digests where they were; a new digest first occurs at the end |
| Duplicates.SeenKnown | app.py:203-205 | a file whose digest was seen leaves the digest map right, since the map is not updated |
| Duplicates.SeenNew | app.py:221-222 | recording a new digest with its path keeps the digest map right |
| Duplicates.DetectStep | app.py:203-222 | one loop step keeps the digest map and the entries equal to the reference result |
| Duplicates.WalkStep | app.py:198-202 | one more walk entry adds its hashed file when it is a regular file, and adds an unreadable file only when it is one |
| Duplicates.FindDuplicateFiles | app.py:192-227 | the pass fails exactly when the walk lists an unreadable file, and then names the first one; otherwise its entries are the reference result for the walk's hashed files |

## Left out

- The web layer is left out: Flask routes, templates, CORS, JSON
  serialization and file serving. So are `delete_duplicate` (app.py:258-288),
  which deletes files, and the request validation, which happen in the
  route handlers.
- The file system is left out. `os.walk`, `os.path.isfile`, `getsize`,
  `getmtime` and `open` are replaced by the walk sequences given as input.
  The walk's order is whatever that sequence says.
- `os.walk` is called without an `onerror` handler, so a directory that
  cannot be listed is silently skipped rather than aborting the scan. The
  input sequence simply does not list its files. An abort on a
  directory-level error would be a different behaviour from what the code
  does.
- MIME guessing (`mimetypes.guess_type`) is left out. Its answer is an
  input, `Option<string>`. `get_file_type`'s unused extension computation
  and its `except` branch are left out: both can only produce "Unknown" or
  be ignored.
- Classifier.Lower, Classifier.FileCategory: lower-casing maps only the
  letters A-Z and always keeps the length. Python's `str.lower` also folds
  non-ASCII letters ('É' becomes 'é') and can change the length, and some
  of them fold to ASCII: 'İ' becomes 'i' followed by a combining dot, and
  the Kelvin sign becomes 'k'. So "AVİ" is a Video in the source and not here. The model
  agrees with the source on type strings without such characters; MIME
  types are ASCII.
- Scan.AnalyzeDirectory: timestamps are integers, and only their order is
  used. The `modified` key, the `strftime` text form of the time, is left out, and so are
  logging and `Path.resolve()`.
- Hashing.CalculateFileHash: SHA-256 itself is not modelled. It is a
  function parameter from the bytes to the hex digest, and the hash object
  is represented by the bytes it has absorbed. The contract therefore
  assumes what `hashlib` promises but the model cannot show: feeding the
  content in pieces gives the same digest as hashing it at once.
- Duplicates.FindDuplicateFiles: the entries carry the two paths and the
  digest. The name, size and formatted time of both files are left out.
  These are extra `getsize`/`getmtime` calls, whose failure would also
  abort the pass.
- Duplicates.FindDuplicateFiles: `find_duplicate_files` does not check its
  root. The route that calls it does, so there is no root check here.
- The detector reports pairs, not groups. Two identical files are linked by
  exactly one entry only when they are the first copy and a later one. With
  three copies, the second and third are each linked to the first and never
  to each other (Duplicates.ThreeCopies). The model keeps this behaviour of
  the code.
