/** The directory scan of app.py (`analyze_directory`): one record per
    regular file found by the walk, collected into a flat list and into one
    list per category, then every list sorted newest first. The walk itself
    (`os.walk`, `os.path.isfile`, `getsize`, `getmtime`, `mimetypes`) is an
    input: the sequence of names it yields, each with what probing it found. */
module Scan {
  import opened Wrappers
  import opened Classifier
  import opened StableSort

  /** What probing one listed name found. */
  datatype Probe =
    | NotRegular
      // `os.path.isfile` is false: a directory, a dangling link, a file gone meanwhile
    | StatFailed
      // building the dictionary raised: `getmtime`, `getsize`, or formatting
      // the time (`fromtimestamp` rejects an out-of-range time); the name is
      // logged and skipped
    | Regular(guess: Option<string>, size: nat, mtime: int)
      // the whole dictionary was built: the guessed MIME type, the size in
      // bytes and the modification time

  /** One name listed by the walk: the bare file name, the joined path, and
      the probe result. */
  datatype WalkEntry = WalkEntry(name: string, path: string, probe: Probe)

  /** The per-file dictionary built by the scan (`name`, `path`, `type`,
      `size`, `modified_timestamp`), together with the category the scan
      computed for it and used to pick its list. The category is not a key
      of the dictionary; `RecordsClassified` shows it is always the
      classification of the record's type. The formatted `modified` string
      is not modelled. */
  datatype FileRecord = FileRecord(
    name: string,
    path: string,
    fileType: string,
    category: Category,
    size: nat,
    modifiedTimestamp: int)

  /** What the root path is: the `exists()` and `is_dir()` checks. */
  datatype RootKind = Missing | NotADir | Directory

  /** The two exceptions the scan raises before walking. */
  datatype ScanError = DirectoryNotFound(directory: string) | NotADirectory(directory: string)

  type Categorized = map<Category, seq<FileRecord>>

  /** The scan result: `{'files': ..., 'categories': ...}`. */
  datatype ScanResult = ScanResult(files: seq<FileRecord>, categories: Categorized)

  /** The sort key, `x['modified_timestamp']`. */
  function Modified(r: FileRecord): int
  {
    r.modifiedTimestamp
  }

  /** The record a walk entry contributes, if any: the `file_info`
      dictionary of a regular entry whose probing succeeded. */
  function ToRecord(e: WalkEntry): (r: Option<FileRecord>)
    ensures r.Some? <==> e.probe.Regular?
    ensures r.Some? ==>
      && r.value.name == e.name && r.value.path == e.path
      && r.value.fileType == FileType(e.probe.guess)
      && r.value.category == FileCategory(r.value.fileType)
      && r.value.size == e.probe.size && r.value.modifiedTimestamp == e.probe.mtime
  {
    match e.probe
    case Regular(guess, size, mtime) =>
      var t := FileType(guess);
      Some(FileRecord(e.name, e.path, t, FileCategory(t), size, mtime))
    case _ => None
  }

  /** Positions of the regular, successfully probed entries of the walk. */
  ghost function RegularIndices(walk: seq<WalkEntry>): (idx: seq<nat>)
    ensures forall k :: 0 <= k < |idx| ==> idx[k] < |walk|
    ensures forall k, l :: 0 <= k < l < |idx| ==> idx[k] < idx[l]
    ensures forall i :: 0 <= i < |walk| ==> (i in idx <==> walk[i].probe.Regular?)
  {
    if |walk| == 0 then []
    else
      var n := |walk| - 1;
      RegularIndices(walk[..n]) + (if walk[n].probe.Regular? then [n] else [])
  }

  /** The records of the walk's regular files that were probed without error,
      in walk order. */
  function Records(walk: seq<WalkEntry>): seq<FileRecord>
  {
    if |walk| == 0 then []
    else
      var n := |walk| - 1;
      Records(walk[..n]) + (match ToRecord(walk[n]) case Some(r) => [r] case None => [])
  }

  /** `Records` holds one record per regular entry, in the order of the
      entries, and nothing else. */
  lemma {:induction false} RecordsFollowWalk(walk: seq<WalkEntry>)
    ensures |Records(walk)| == |RegularIndices(walk)|
    ensures forall k :: 0 <= k < |Records(walk)| ==>
              ToRecord(walk[RegularIndices(walk)[k]]) == Some(Records(walk)[k])
  {
    if |walk| > 0 {
      var n := |walk| - 1;
      var prefix := walk[..n];
      RecordsFollowWalk(prefix);
      var idx, rs := RegularIndices(prefix), Records(prefix);
      assert RegularIndices(walk) == idx + (if walk[n].probe.Regular? then [n] else []);
      assert Records(walk) == rs + (match ToRecord(walk[n]) case Some(r) => [r] case None => []);
      forall k | 0 <= k < |rs|
        ensures ToRecord(walk[RegularIndices(walk)[k]]) == Some(Records(walk)[k])
      {
        assert RegularIndices(walk)[k] == idx[k] && Records(walk)[k] == rs[k];
        assert prefix[idx[k]] == walk[idx[k]];
      }
    }
  }

  /** Every record is filed under the classification of its own type. */
  lemma {:induction false} RecordsClassified(walk: seq<WalkEntry>)
    ensures forall r :: r in Records(walk) ==> r.category == FileCategory(r.fileType)
  {
    if |walk| > 0 {
      RecordsClassified(walk[..|walk| - 1]);
    }
  }

  /** The records of category `c`, in the order of `rs`. */
  function InCategory(rs: seq<FileRecord>, c: Category): seq<FileRecord>
  {
    if |rs| == 0 then []
    else
      var n := |rs| - 1;
      InCategory(rs[..n], c) + (if rs[n].category == c then [rs[n]] else [])
  }

  /** A category list holds exactly the records of that category. */
  lemma {:induction false} InCategoryMembers(rs: seq<FileRecord>, c: Category)
    ensures forall x :: x in InCategory(rs, c) <==> x in rs && x.category == c
  {
    if |rs| > 0 {
      var n := |rs| - 1;
      InCategoryMembers(rs[..n], c);
      assert rs == rs[..n] + [rs[n]];
    }
  }

  /** The six category lists taken together, as a multiset. */
  function CategoryBag(m: Categorized): multiset<FileRecord>
    requires AllCategories <= m.Keys
  {
    multiset(m[Documents]) + multiset(m[Images]) + multiset(m[Videos]) +
    multiset(m[Audio]) + multiset(m[Archives]) + multiset(m[Others])
  }

  /** The summed lengths of the six category lists. */
  function CategoryTotal(m: Categorized): nat
    requires AllCategories <= m.Keys
  {
    |m[Documents]| + |m[Images]| + |m[Videos]| + |m[Audio]| + |m[Archives]| + |m[Others]|
  }

  /** The category lists of `rs`, unsorted. */
  function Partition(rs: seq<FileRecord>): (m: Categorized)
    ensures m.Keys == AllCategories
    ensures forall c :: c in m
  {
    EveryCategoryListed();
    map c | c in AllCategories :: InCategory(rs, c)
  }

  /** A category list holds each record of that category as often as `rs`
      does, and no record of another category. */
  lemma {:induction false} InCategoryCounts(rs: seq<FileRecord>, c: Category)
    ensures forall x :: multiset(InCategory(rs, c))[x] == if x.category == c then multiset(rs)[x] else 0
  {
    if |rs| > 0 {
      var n := |rs| - 1;
      InCategoryCounts(rs[..n], c);
      assert rs == rs[..n] + [rs[n]];
    }
  }

  /** Filing every record under its own category splits `rs` into six parts
      that together hold each record exactly as often as `rs` does. */
  lemma SplitKeepsRecords(rs: seq<FileRecord>)
    ensures multiset(InCategory(rs, Documents)) + multiset(InCategory(rs, Images)) +
            multiset(InCategory(rs, Videos)) + multiset(InCategory(rs, Audio)) +
            multiset(InCategory(rs, Archives)) + multiset(InCategory(rs, Others)) == multiset(rs)
  {
    InCategoryCounts(rs, Documents);
    InCategoryCounts(rs, Images);
    InCategoryCounts(rs, Videos);
    InCategoryCounts(rs, Audio);
    InCategoryCounts(rs, Archives);
    InCategoryCounts(rs, Others);
    var sum := multiset(InCategory(rs, Documents)) + multiset(InCategory(rs, Images)) +
               multiset(InCategory(rs, Videos)) + multiset(InCategory(rs, Audio)) +
               multiset(InCategory(rs, Archives)) + multiset(InCategory(rs, Others));
    forall x
      ensures sum[x] == multiset(rs)[x]
    {
      match x.category
      case Documents =>
      case Images =>
      case Videos =>
      case Audio =>
      case Archives =>
      case Others =>
    }
    assert sum == multiset(rs);
  }

  /** The six parts have as many records as `rs` in all. */
  lemma {:induction false} SplitKeepsCount(rs: seq<FileRecord>)
    ensures |InCategory(rs, Documents)| + |InCategory(rs, Images)| + |InCategory(rs, Videos)| +
            |InCategory(rs, Audio)| + |InCategory(rs, Archives)| + |InCategory(rs, Others)| == |rs|
  {
    if |rs| > 0 {
      SplitKeepsCount(rs[..|rs| - 1]);
    }
  }

  lemma PartitionIsComplete(rs: seq<FileRecord>)
    ensures CategoryBag(Partition(rs)) == multiset(rs)
    ensures CategoryTotal(Partition(rs)) == |rs|
  {
    SplitKeepsRecords(rs);
    SplitKeepsCount(rs);
  }

  /** `res` is the scan of records `rs`: six keys, the flat list and every
      category list a stable newest-first ordering of the records (of that
      category). */
  ghost predicate IsScanOf(res: ScanResult, rs: seq<FileRecord>)
  {
    && res.categories.Keys == AllCategories
    && SortedDesc(res.files, Modified)
    && multiset(res.files) == multiset(rs)
    && SameTies(res.files, rs, Modified)
    && forall c :: c in res.categories ==>
         && SortedDesc(res.categories[c], Modified)
         && multiset(res.categories[c]) == multiset(InCategory(rs, c))
         && SameTies(res.categories[c], InCategory(rs, c), Modified)
  }

  /** In a scan, every record of the flat list sits in the list of its own
      category, and the category lists together are the flat list. */
  lemma ScanPartitionsFiles(res: ScanResult, rs: seq<FileRecord>)
    requires IsScanOf(res, rs)
    ensures CategoryBag(res.categories) == multiset(res.files)
    ensures CategoryTotal(res.categories) == |res.files|
    ensures forall c, x :: c in res.categories && x in res.categories[c] ==> x.category == c
  {
    assert |multiset(res.files)| == |multiset(rs)|;
    PartitionIsComplete(rs);
    forall c | c in res.categories
      ensures multiset(res.categories[c]) == multiset(Partition(rs)[c])
      ensures |res.categories[c]| == |Partition(rs)[c]|
      ensures forall x :: x in res.categories[c] ==> x.category == c
    {
      InCategoryMembers(rs, c);
      assert |multiset(res.categories[c])| == |multiset(InCategory(rs, c))|;
      forall x | x in res.categories[c]
        ensures x.category == c
      {
        assert x in multiset(InCategory(rs, c));
      }
    }
  }

  /** In the scan of a walk, every record in the list of category `c` has
      a type that the classifier files under `c`. */
  lemma ScanListsByClassification(res: ScanResult, walk: seq<WalkEntry>)
    requires IsScanOf(res, Records(walk))
    ensures forall c, x :: c in res.categories && x in res.categories[c] ==> FileCategory(x.fileType) == c
  {
    ScanPartitionsFiles(res, Records(walk));
    RecordsClassified(walk);
    forall c, x | c in res.categories && x in res.categories[c]
      ensures FileCategory(x.fileType) == c
    {
      InCategoryMembers(Records(walk), c);
      assert x in multiset(res.categories[c]);
    }
  }

  /** Appending one record extends the list of its own category only. */
  lemma PartitionAppend(rs: seq<FileRecord>, x: FileRecord)
    ensures Partition(rs + [x]) == Partition(rs)[x.category := Partition(rs)[x.category] + [x]]
  {
    assert (rs + [x])[..|rs|] == rs;
    var m := Partition(rs);
    var m' := m[x.category := m[x.category] + [x]];
    forall c
      ensures Partition(rs + [x])[c] == m'[c]
    {
    }
  }

  /** The walk loop of `analyze_directory`: each regular entry's record is
      appended to its category list and to the flat list. */
  method CollectRecords(walk: seq<WalkEntry>) returns (files: seq<FileRecord>, categories: Categorized)
    ensures files == Records(walk)
    ensures categories == Partition(files)
  {
    files := [];
    categories := map c | c in AllCategories :: [];
    var i := 0;
    while i < |walk|
      invariant 0 <= i <= |walk|
      invariant files == Records(walk[..i])
      invariant categories == Partition(files)
    {
      var entry := walk[i];
      assert walk[..i + 1][..i] == walk[..i];
      match entry.probe {
        case Regular(guess, size, mtime) =>
          var fileType := FileType(guess);
          var category := FileCategory(fileType);
          var info := FileRecord(entry.name, entry.path, fileType, category, size, mtime);
          categories := categories[category := categories[category] + [info]];
          PartitionAppend(files, info);
          files := files + [info];
        case _ =>
      }
      i := i + 1;
    }
    assert walk[..i] == walk;
  }

  /** `analyze_directory`: the root checks, the walk, then the sorts. */
  method AnalyzeDirectory(directory: string, root: RootKind, walk: seq<WalkEntry>)
    returns (r: Result<ScanResult, ScanError>)
    ensures root == Missing ==> r == Failure(DirectoryNotFound(directory))
    ensures root == NotADir ==> r == Failure(NotADirectory(directory))
    ensures root == Directory ==> r.Success? && IsScanOf(r.value, Records(walk))
  {
    if root == Missing {
      return Failure(DirectoryNotFound(directory));
    }
    if root == NotADir {
      return Failure(NotADirectory(directory));
    }
    var unsorted, byCategory := CollectRecords(walk);
    var categories := map c | c in byCategory :: SortDesc(byCategory[c], Modified);
    var files := SortDesc(unsorted, Modified);
    SortDescStable(unsorted, Modified);
    forall c | c in categories
      ensures SameTies(categories[c], InCategory(unsorted, c), Modified)
    {
      SortDescStable(InCategory(unsorted, c), Modified);
    }
    return Success(ScanResult(files, categories));
  }
}
