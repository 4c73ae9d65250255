/** `find_duplicate_files` of app.py: a single pass over the walk that hashes
    every regular file, remembers the first path seen for each digest, and
    reports every later file with a known digest as a duplicate of that first
    path. The walk is an input sequence; SHA-256 is a function parameter. */
module Duplicates {
  import opened Wrappers
  import opened Hashing

  type Path = string

  /** One name listed by the walk, as the detector sees it. */
  datatype WalkFile =
    | NotRegular(path: Path)
      // `os.path.isfile` is false: skipped
    | Unreadable(path: Path)
      // opening or reading it raises, which aborts the whole scan
    | Regular(path: Path, content: Bytes)

  /** A regular file and its digest. */
  datatype Hashed = Hashed(path: Path, digest: Digest)

  /** One reported pair: a later file with the same digest as the first file
      seen with it. The entries' names, sizes and times are not modelled. */
  datatype Duplicate = Duplicate(original: Path, duplicate: Path, hash: Digest)

  /** The regular files of the walk with their digests, in walk order. */
  function HashedFiles(walk: seq<WalkFile>, sha256: Bytes -> Digest): seq<Hashed>
  {
    if |walk| == 0 then []
    else
      var n := |walk| - 1;
      HashedFiles(walk[..n], sha256) +
        (match walk[n] case Regular(p, content) => [Hashed(p, sha256(content))] case _ => [])
  }

  function Digests(fs: seq<Hashed>): (hs: seq<Digest>)
    ensures |hs| == |fs| && forall i :: 0 <= i < |fs| ==> hs[i] == fs[i].digest
  {
    seq(|fs|, i requires 0 <= i < |fs| => fs[i].digest)
  }

  /** The position of the first occurrence of `h`. */
  function FirstIndex(hs: seq<Digest>, h: Digest): (i: nat)
    requires h in hs
    ensures i < |hs| && hs[i] == h
    ensures forall j :: 0 <= j < i ==> hs[j] != h
  {
    if hs[0] == h then 0 else 1 + FirstIndex(hs[1..], h)
  }

  /** The first occurrence of a digest in a prefix is its first occurrence
      in the whole sequence. */
  lemma FirstIndexInPrefix(hs: seq<Digest>, n: nat, h: Digest)
    requires n <= |hs| && h in hs[..n]
    ensures h in hs && FirstIndex(hs[..n], h) == FirstIndex(hs, h)
  {
    var a := FirstIndex(hs[..n], h);
    assert hs[a] == h;
  }

  /** The positions, in increasing order, of the digests that already
      occurred earlier: the repeats. */
  function Repeats(hs: seq<Digest>): seq<nat>
  {
    if |hs| == 0 then []
    else
      var n := |hs| - 1;
      Repeats(hs[..n]) + (if hs[n] in hs[..n] then [n] else [])
  }

  /** The repeats are positions of `hs`, in increasing order. */
  lemma {:induction false} RepeatsIncrease(hs: seq<Digest>)
    ensures forall k :: 0 <= k < |Repeats(hs)| ==> Repeats(hs)[k] < |hs|
    ensures forall k, l :: 0 <= k < l < |Repeats(hs)| ==> Repeats(hs)[k] < Repeats(hs)[l]
  {
    if |hs| > 0 {
      var n := |hs| - 1;
      var ri' := Repeats(hs[..n]);
      RepeatsIncrease(hs[..n]);
      var ri := Repeats(hs);
      assert ri == ri' + (if hs[n] in hs[..n] then [n] else []);
      forall k | 0 <= k < |ri| ensures ri[k] < |hs| && (k < |ri'| ==> ri[k] == ri'[k] < n) {
        if k < |ri'| {
          assert ri[k] == ri'[k];
        }
      }
    }
  }

  /** A position is a repeat exactly when its digest first occurs earlier. */
  lemma {:induction false} RepeatsAreCopies(hs: seq<Digest>)
    ensures forall i :: 0 <= i < |hs| ==> (i in Repeats(hs) <==> FirstIndex(hs, hs[i]) < i)
  {
    if |hs| > 0 {
      var n := |hs| - 1;
      var prefix := hs[..n];
      var ri' := Repeats(prefix);
      RepeatsAreCopies(prefix);
      RepeatsIncrease(prefix);
      assert Repeats(hs) == ri' + (if hs[n] in prefix then [n] else []);
      forall i | 0 <= i < |hs|
        ensures i in Repeats(hs) <==> FirstIndex(hs, hs[i]) < i
      {
        if i < n {
          assert prefix[i] == hs[i];
          FirstIndexInPrefix(hs, n, hs[i]);
        } else if hs[n] in prefix {
          FirstIndexInPrefix(hs, n, hs[n]);
        } else {
          forall k | 0 <= k < |ri'| ensures ri'[k] != n { }
        }
      }
    }
  }

  lemma RepeatsAreLaterCopies(hs: seq<Digest>)
    ensures forall k :: 0 <= k < |Repeats(hs)| ==> Repeats(hs)[k] < |hs|
    ensures forall k, l :: 0 <= k < l < |Repeats(hs)| ==> Repeats(hs)[k] < Repeats(hs)[l]
    ensures forall i :: 0 <= i < |hs| ==> (i in Repeats(hs) <==> FirstIndex(hs, hs[i]) < i)
  {
    RepeatsIncrease(hs);
    RepeatsAreCopies(hs);
  }

  /** The entry the detector reports for the file at position `i`. */
  function EntryAt(fs: seq<Hashed>, i: nat): Duplicate
    requires i < |fs|
  {
    var hs := Digests(fs);
    Duplicate(fs[FirstIndex(hs, hs[i])].path, fs[i].path, hs[i])
  }

  /** The reference result: one entry per repeat, in walk order, pairing the
      repeating file with the first file that had its digest. */
  function DuplicatesOf(fs: seq<Hashed>): (d: seq<Duplicate>)
  {
    RepeatsAreLaterCopies(Digests(fs));
    var ri := Repeats(Digests(fs));
    seq(|ri|, k requires 0 <= k < |ri| => EntryAt(fs, ri[k]))
  }

  lemma DigestsAppend(fs: seq<Hashed>, x: Hashed)
    ensures Digests(fs + [x]) == Digests(fs) + [x.digest]
  {
  }

  /** Appending a digest appends its position to the repeats exactly when
      the digest occurred before. */
  lemma RepeatsAppend(hs: seq<Digest>, h: Digest)
    ensures Repeats(hs + [h]) == Repeats(hs) + (if h in hs then [|hs|] else [])
  {
    assert (hs + [h])[..|hs|] == hs;
  }

  /** Appending a file leaves the entry reported for an earlier file as it
      was. */
  lemma EntryAtAppend(fs: seq<Hashed>, x: Hashed, i: nat)
    requires i < |fs|
    ensures EntryAt(fs + [x], i) == EntryAt(fs, i)
  {
    SeenAppend(fs, x);
    var hs := Digests(fs);
    assert hs[i] in hs;
    var j := FirstIndex(hs, hs[i]);
    assert (fs + [x])[j] == fs[j] && (fs + [x])[i] == fs[i];
  }

  /** Appending one hashed file appends at most one entry: exactly one when
      its digest was already seen, naming the first file with that digest. */
  lemma DuplicatesAppend(fs: seq<Hashed>, x: Hashed)
    ensures var hs := Digests(fs);
      DuplicatesOf(fs + [x]) ==
        DuplicatesOf(fs) +
        (if x.digest in hs then [Duplicate(fs[FirstIndex(hs, x.digest)].path, x.path, x.digest)] else [])
  {
    var hs := Digests(fs);
    DigestsAppend(fs, x);
    RepeatsAppend(hs, x.digest);
    RepeatsIncrease(hs);
    var ri := Repeats(hs);
    var d, d' := DuplicatesOf(fs), DuplicatesOf(fs + [x]);
    var tail := if x.digest in hs then [Duplicate(fs[FirstIndex(hs, x.digest)].path, x.path, x.digest)] else [];
    assert |d'| == |d| + |tail|;
    forall k | 0 <= k < |d'|
      ensures d'[k] == (d + tail)[k]
    {
      if k < |d| {
        EntryAtAppend(fs, x, ri[k]);
      } else {
        var j := FirstIndex(hs, x.digest);
        assert (fs + [x])[j] == fs[j];
      }
    }
  }

  /** Appending a digest adds a distinct digest exactly when it is new. */
  lemma DistinctAppend(prefix: seq<Digest>, last: Digest)
    ensures |set h | h in prefix + [last]| == |set h | h in prefix| + (if last in prefix then 0 else 1)
  {
    var before := set h | h in prefix;
    assert (set h | h in prefix + [last]) == before + {last};
  }

  /** The number of repeats is the length minus the number of distinct
      digests. */
  lemma {:induction false} RepeatsCount(hs: seq<Digest>)
    ensures |Repeats(hs)| == |hs| - |set h | h in hs|
  {
    if |hs| > 0 {
      var n := |hs| - 1;
      var prefix, last := hs[..n], hs[n];
      RepeatsCount(prefix);
      assert hs == prefix + [last];
      DistinctAppend(prefix, last);
    }
  }

  lemma DuplicateCount(fs: seq<Hashed>)
    ensures |DuplicatesOf(fs)| == |fs| - |set f | f in fs :: f.digest|
  {
    var hs := Digests(fs);
    RepeatsCount(hs);
    assert (set f | f in fs :: f.digest) == set h | h in hs by {
      forall h | h in hs ensures h in set f | f in fs :: f.digest {
        var i :| 0 <= i < |hs| && hs[i] == h;
        assert fs[i] in fs;
      }
    }
  }

  /** Every entry pairs a file with an earlier file of the same digest, and
      that earlier file is the first with the digest; entries appear in the
      order the walk lists their duplicates. */
  lemma DuplicatesFollowWalk(fs: seq<Hashed>)
    ensures var d, ri := DuplicatesOf(fs), Repeats(Digests(fs));
      && |ri| == |d|
      && (forall k, l :: 0 <= k < l < |ri| ==> ri[k] < ri[l])
      && forall k :: 0 <= k < |d| ==>
           exists i :: 0 <= i < ri[k] < |fs|
             && fs[i].path == d[k].original
             && fs[ri[k]].path == d[k].duplicate
             && fs[i].digest == fs[ri[k]].digest == d[k].hash
             && forall l :: 0 <= l < i ==> fs[l].digest != d[k].hash
  {
    var d, hs := DuplicatesOf(fs), Digests(fs);
    var ri := Repeats(hs);
    RepeatsAreLaterCopies(hs);
    forall k | 0 <= k < |d|
      ensures exists i :: (0 <= i < ri[k] < |fs|
             && fs[i].path == d[k].original
             && fs[ri[k]].path == d[k].duplicate
             && fs[i].digest == fs[ri[k]].digest == d[k].hash
             && forall l :: 0 <= l < i ==> fs[l].digest != d[k].hash)
    {
      assert ri[k] in ri;
      var i := FirstIndex(hs, hs[ri[k]]);
      assert fs[i].digest == hs[i];
    }
  }

  /** All entries for one digest name the same original. */
  lemma SharedOriginal(fs: seq<Hashed>)
    ensures var d := DuplicatesOf(fs);
      forall k, l :: 0 <= k < |d| && 0 <= l < |d| && d[k].hash == d[l].hash ==>
        d[k].original == d[l].original
  {
  }

  /** Every file that has an earlier file with the same digest is reported,
      with the first such file as its original. */
  lemma EveryRepeatReported(fs: seq<Hashed>, i: nat, j: nat)
    requires i < j < |fs| && fs[i].digest == fs[j].digest
    ensures exists k :: 0 <= k < |DuplicatesOf(fs)| && DuplicatesOf(fs)[k] == EntryAt(fs, j)
  {
    var hs := Digests(fs);
    assert hs[i] == hs[j];
    var ri := Repeats(hs);
    RepeatsAreLaterCopies(hs);
    assert j in ri;
    var k :| 0 <= k < |ri| && ri[k] == j;
    assert DuplicatesOf(fs)[k] == EntryAt(fs, j);
  }

  /** When the walk lists every path once, no file is reported as a
      duplicate of itself. */
  lemma NoSelfDuplicate(fs: seq<Hashed>)
    requires forall i, j :: 0 <= i < j < |fs| ==> fs[i].path != fs[j].path
    ensures forall e :: e in DuplicatesOf(fs) ==> e.original != e.duplicate
  {
    DuplicatesFollowWalk(fs);
  }

  /** A single file gives no entry. */
  lemma OneFile(x: Hashed)
    ensures DuplicatesOf([x]) == []
  {
    assert [x][..0] == [];
    assert Repeats(Digests([x])) == [];
  }

  /** Two identical files give one entry, naming the first as original. */
  lemma TwoCopies()
    ensures DuplicatesOf([Hashed("a", "h"), Hashed("b", "h")]) == [Duplicate("a", "b", "h")]
  {
    var x, y := Hashed("a", "h"), Hashed("b", "h");
    var h: Digest := "h";
    OneFile(x);
    DuplicatesAppend([x], y);
    assert [x] + [y] == [x, y];
    assert Digests([x]) == [h];
    assert FirstIndex([h], h) == 0;
  }

  /** Three identical files give two entries, both naming the first file:
      the third copy is never paired with the second. */
  lemma ThreeCopies()
    ensures DuplicatesOf([Hashed("a", "h"), Hashed("b", "h"), Hashed("c", "h")])
         == [Duplicate("a", "b", "h"), Duplicate("a", "c", "h")]
  {
    var x, y, z := Hashed("a", "h"), Hashed("b", "h"), Hashed("c", "h");
    var h: Digest := "h";
    TwoCopies();
    DuplicatesAppend([x, y], z);
    assert [x, y] + [z] == [x, y, z];
    assert Digests([x, y]) == [h, h];
    assert FirstIndex([h, h], h) == 0;
  }

  /** Whether the walk lists a file that cannot be read. */
  predicate HasUnreadable(walk: seq<WalkFile>)
  {
    exists i :: 0 <= i < |walk| && walk[i].Unreadable?
  }

  /** `seen` maps exactly the digests of `fs`, each to the path of the
      first file with that digest. */
  ghost predicate SeenMatches(seen: map<Digest, Path>, fs: seq<Hashed>)
  {
    var hs := Digests(fs);
    && (forall h :: h in seen <==> h in hs)
    && forall h :: h in seen ==> seen[h] == fs[FirstIndex(hs, h)].path
  }

  /** One step of the detector keeps `seen` and the entries in step with
      the hashed files. */
  lemma DetectStep(seen: map<Digest, Path>, duplicates: seq<Duplicate>, fs: seq<Hashed>, x: Hashed)
    requires SeenMatches(seen, fs) && duplicates == DuplicatesOf(fs)
    ensures x.digest in seen ==>
      && SeenMatches(seen, fs + [x])
      && duplicates + [Duplicate(seen[x.digest], x.path, x.digest)] == DuplicatesOf(fs + [x])
    ensures x.digest !in seen ==>
      && SeenMatches(seen[x.digest := x.path], fs + [x])
      && duplicates == DuplicatesOf(fs + [x])
  {
    DuplicatesAppend(fs, x);
    if x.digest in seen {
      SeenKnown(seen, fs, x);
    } else {
      SeenNew(seen, fs, x);
    }
  }

  lemma SeenKnown(seen: map<Digest, Path>, fs: seq<Hashed>, x: Hashed)
    requires SeenMatches(seen, fs) && x.digest in seen
    ensures SeenMatches(seen, fs + [x])
  {
    SeenAppend(fs, x);
    var hs' := Digests(fs + [x]);
    forall h | h in seen ensures seen[h] == (fs + [x])[FirstIndex(hs', h)].path {
      assert FirstIndex(hs', h) < |fs|;
    }
  }

  lemma SeenNew(seen: map<Digest, Path>, fs: seq<Hashed>, x: Hashed)
    requires SeenMatches(seen, fs) && x.digest !in seen
    ensures SeenMatches(seen[x.digest := x.path], fs + [x])
  {
    SeenAppend(fs, x);
    var hs' := Digests(fs + [x]);
    var seen' := seen[x.digest := x.path];
    forall h | h in seen' ensures seen'[h] == (fs + [x])[FirstIndex(hs', h)].path {
      if h != x.digest {
        assert FirstIndex(hs', h) < |fs|;
      }
    }
  }

  /** The detector. A file that cannot be read aborts it with that file's
      path, and none are read after it; otherwise it returns the reference
      result for the hashed files of the walk. */
  method FindDuplicateFiles(walk: seq<WalkFile>, sha256: Bytes -> Digest)
    returns (r: Result<seq<Duplicate>, Path>)
    ensures r.Success? <==> !HasUnreadable(walk)
    ensures r.Success? ==> r.value == DuplicatesOf(HashedFiles(walk, sha256))
    ensures r.Failure? ==>
      exists i :: 0 <= i < |walk| && walk[i] == Unreadable(r.error)
        && !HasUnreadable(walk[..i])
  {
    var seen: map<Digest, Path> := map[];
    var duplicates: seq<Duplicate> := [];
    ghost var fs: seq<Hashed> := [];
    var i := 0;
    while i < |walk|
      invariant i <= |walk|
      invariant !HasUnreadable(walk[..i])
      invariant fs == HashedFiles(walk[..i], sha256)
      invariant SeenMatches(seen, fs)
      invariant duplicates == DuplicatesOf(fs)
    {
      WalkStep(walk, i, sha256);
      match walk[i] {
        case NotRegular(_) =>
        case Unreadable(p) =>
          return Failure(p);
        case Regular(p, content) =>
          var digest, _ := CalculateFileHash(content, sha256);
          DetectStep(seen, duplicates, fs, Hashed(p, digest));
          if digest in seen {
            duplicates := duplicates + [Duplicate(seen[digest], p, digest)];
          } else {
            seen := seen[digest := p];
          }
          fs := fs + [Hashed(p, digest)];
      }
      i := i + 1;
    }
    assert walk[..i] == walk;
    return Success(duplicates);
  }

  /** Looking at one more entry of the walk: it adds its hashed file if it
      is regular, and it adds an unreadable file only if it is one. */
  lemma WalkStep(walk: seq<WalkFile>, i: nat, sha256: Bytes -> Digest)
    requires i < |walk|
    ensures HashedFiles(walk[..i + 1], sha256) ==
      HashedFiles(walk[..i], sha256) +
        (match walk[i] case Regular(p, content) => [Hashed(p, sha256(content))] case _ => [])
    ensures HasUnreadable(walk[..i + 1]) <==> HasUnreadable(walk[..i]) || walk[i].Unreadable?
  {
    assert walk[..i + 1][..i] == walk[..i];
    if HasUnreadable(walk[..i]) {
      var j :| 0 <= j < i && walk[..i][j].Unreadable?;
      assert walk[..i + 1][j] == walk[..i][j];
    }
    if walk[i].Unreadable? {
      assert walk[..i + 1][i] == walk[i];
    }
  }

  /** The first occurrences of the old digests do not move when a file is
      appended; the new digest, if new, first occurs at the end. */
  lemma SeenAppend(fs: seq<Hashed>, x: Hashed)
    ensures Digests(fs + [x]) == Digests(fs) + [x.digest]
    ensures forall h :: h in Digests(fs) ==>
      FirstIndex(Digests(fs + [x]), h) == FirstIndex(Digests(fs), h)
    ensures x.digest !in Digests(fs) ==> FirstIndex(Digests(fs + [x]), x.digest) == |fs|
  {
    var hs, hs' := Digests(fs), Digests(fs + [x]);
    assert hs' == hs + [x.digest];
    assert hs'[..|fs|] == hs;
    forall h | h in hs ensures FirstIndex(hs', h) == FirstIndex(hs, h) {
      FirstIndexInPrefix(hs', |fs|, h);
    }
  }
}
