/** The file-system helpers of backend/src/utils/fs.ts over an abstract directory: a map from
    path to what stat reports. Unlinking a missing path or a directory is the
    error case; readdir's answer is a parameter (None when reading the directory fails). */
module Fs {
  import opened Common
  import opened Text
  import opened Paths
  import Ids

  /** What stat reports of an entry: modification time in ms since the epoch, and whether
      it is a directory. */
  datatype Entry = Entry(mtime: int, isDir: bool)

  type Files = map<string, Entry>

  /** fs.unlink succeeds exactly on an existing path that is not a directory. */
  predicate Unlinkable(files: Files, p: string) {
    p in files && !files[p].isDir
  }

  /** The directory after deleteFile(p): unlinked when possible, unchanged otherwise. */
  function AfterDelete(files: Files, p: string): (r: Files)
    ensures r.Keys <= files.Keys
    ensures forall q :: q in r ==> r[q] == files[q]
    ensures p in r <==> p in files && files[p].isDir
    ensures forall q :: q != p ==> (q in r <==> q in files)
  {
    if Unlinkable(files, p) then files - {p} else files
  }

  /** deleteFile swallows its error, so deleting the same path again changes nothing. */
  lemma DeleteFileIdempotent(files: Files, p: string)
    ensures AfterDelete(AfterDelete(files, p), p) == AfterDelete(files, p)
  {
  }

  /** listFilesInDirectory: readdir's names, or [] when readdir fails. */
  function ListFilesInDirectory(readdir: Option<seq<string>>): (r: seq<string>)
    ensures readdir.None? ==> r == []
    ensures readdir.Some? ==> r == readdir.value
  {
    match readdir
    case None => []
    case Some(names) => names
  }

  /** generateUniqueFilename(originalName, extension): the uuid followed by the extension
      when it is given and non-empty (JavaScript's `||`), else by path.extname(originalName). */
  function GenerateUniqueFilename(uuid: string, originalName: string, extension: Option<string>): (r: string)
    ensures StartsWith(r, uuid)
  {
    var ext := if extension.Some? && extension.value != "" then extension.value else ExtName(originalName);
    uuid + ext
  }

  /** An extension as extname reports one: empty, or a '.' followed by no other '.' and no '/'. */
  predicate IsExtension(e: string) {
    e == "" || (e[0] == '.' && '.' !in e[1..] && '/' !in e)
  }

  lemma ExtNameIsExtension(p: string)
    ensures IsExtension(ExtName(p))
  {
    var c := LastComponent(p);
    var e := ExtName(p);
    if e != "" {
      assert EndsWith(c, e);
      forall k | 0 <= k < |e|
        ensures e[k] != '/'
      {
        assert e[k] == c[|c| - |e| + k];
      }
    }
  }

  lemma NoSlashInConcat(x: string, y: string)
    requires '/' !in x && '/' !in y
    ensures '/' !in x + y
  {
    forall k | 0 <= k < |x + y| ensures (x + y)[k] != '/' {
      if k >= |x| { assert (x + y)[k] == y[k - |x|]; } else { assert (x + y)[k] == x[k]; }
    }
  }

  /** A path without '/' and not ending in one is its own last component. */
  lemma PlainPathIsComponent(p: string)
    requires p != "" && '/' !in p
    ensures LastComponent(p) == p
  {
    assert p[|p| - 1] != '/';
    assert TrimTrailingSlashes(p) == p;
  }

  /** The last '.' of `stem + e` is e's leading one. */
  lemma LastDotOfStemPlusExtension(stem: string, e: string)
    requires '.' !in stem && e != "" && e[0] == '.' && '.' !in e[1..]
    ensures LastIndexOf(stem + e, '.') == |stem|
  {
    var p := stem + e;
    assert p[|stem|] == '.';
    assert p[|stem| + 1..] == e[1..];
    LastIndexOfAt(p, '.', |stem|);
  }

  /** extname of `stem + e` is e when the stem is a non-empty plain name without a dot. */
  lemma ExtNameOfStemPlusExtension(stem: string, e: string)
    requires stem != "" && '.' !in stem && '/' !in stem
    requires IsExtension(e)
    ensures ExtName(stem + e) == e
  {
    var p := stem + e;
    NoSlashInConcat(stem, e);
    PlainPathIsComponent(p);
    if e == "" {
      assert p == stem;
      assert ComponentExt(p) == "";
    } else {
      LastDotOfStemPlusExtension(stem, e);
      assert p[0] == stem[0] && p[0] != '.';
      assert p[|stem|..] == e;
      assert ComponentExt(p) == e;
    }
  }

  /** The unique name keeps the extension it was asked for, or the original's one: the round
      trip through extname that callers rely on. */
  lemma UniqueFilenameExtension(uuid: string, originalName: string, extension: Option<string>)
    requires Ids.IsValidId(uuid)
    requires extension.Some? ==> IsExtension(extension.value)
    ensures ExtName(GenerateUniqueFilename(uuid, originalName, extension))
         == if extension.Some? && extension.value != "" then extension.value else ExtName(originalName)
  {
    Ids.ValidIdIsPlainStem(uuid);
    ExtNameIsExtension(originalName);
    var ext := if extension.Some? && extension.value != "" then extension.value else ExtName(originalName);
    ExtNameOfStemPlusExtension(uuid, ext);
  }

  lemma DistinctStemsDiffer(dir: string, a: string, x: string, b: string, y: string)
    requires |a| == |b| && a != b
    ensures a + x != b + y && Join(dir, a + x) != Join(dir, b + y)
  {
    assert (a + x)[..|a|] == a && (b + y)[..|b|] == b;
    assert Join(dir, a + x)[|dir| + 1..|dir| + 1 + |a|] == a;
    assert Join(dir, b + y)[|dir| + 1..|dir| + 1 + |b|] == b;
  }

  /** Names drawn with different uuids differ, whatever they end in, and so do the paths
      that join them to one directory. */
  lemma UniqueFilenamesDiffer(dir: string, u1: string, n1: string, e1: Option<string>, u2: string, n2: string, e2: Option<string>)
    requires Ids.IsValidId(u1) && Ids.IsValidId(u2) && u1 != u2
    ensures GenerateUniqueFilename(u1, n1, e1) != GenerateUniqueFilename(u2, n2, e2)
    ensures Join(dir, GenerateUniqueFilename(u1, n1, e1)) != Join(dir, GenerateUniqueFilename(u2, n2, e2))
  {
    var x := GenerateUniqueFilename(u1, n1, e1)[|u1|..];
    var y := GenerateUniqueFilename(u2, n2, e2)[|u2|..];
    assert GenerateUniqueFilename(u1, n1, e1) == u1 + x;
    assert GenerateUniqueFilename(u2, n2, e2) == u2 + y;
    DistinctStemsDiffer(dir, u1, x, u2, y);
  }

  // ---------------------------------------------------------------------------
  // cleanupOldFiles

  /** The sweep's deletion test: strictly older than the limit. */
  predicate Expired(e: Entry, now: int, maxAgeMs: int) {
    now - e.mtime > maxAgeMs
  }

  predicate ExpiredIn(files: Files, q: string, now: int, maxAgeMs: int) {
    q in files && Expired(files[q], now, maxAgeMs)
  }

  /** What a sweep leaves: the directory, the number of unlinks, and whether it stopped early
      at an error (which the catch swallows). */
  datatype Sweep = Sweep(files: Files, count: nat, failed: bool)

  /** The for-loop of cleanupOldFiles over readdir's names, in order: stat of a vanished path
      or unlink of an expired directory throws and ends the loop. */
  function SweepNames(files: Files, dir: string, names: seq<string>, now: int, maxAgeMs: int): Sweep
    decreases |names|
  {
    if names == [] then Sweep(files, 0, false)
    else
      var p := Join(dir, names[0]);
      if p !in files then Sweep(files, 0, true)
      else if !Expired(files[p], now, maxAgeMs) then SweepNames(files, dir, names[1..], now, maxAgeMs)
      else if files[p].isDir then Sweep(files, 0, true)
      else
        var rest := SweepNames(files - {p}, dir, names[1..], now, maxAgeMs);
        Sweep(rest.files, rest.count + 1, rest.failed)
  }

  /** cleanupOldFiles(dir, maxAgeMinutes) as a whole: a failed readdir deletes nothing. */
  function CleanupOutcome(files: Files, dir: string, maxAgeMinutes: int, now: int, readdir: Option<seq<string>>): Sweep {
    match readdir
    case None => Sweep(files, 0, true)
    case Some(names) => SweepNames(files, dir, names, now, maxAgeMinutes * 60 * 1000)
  }

  /** A path of the form dir/name for a name readdir returned. */
  ghost predicate Listed(dir: string, names: seq<string>, q: string) {
    exists i :: 0 <= i < |names| && Join(dir, names[i]) == q
  }

  /** The sweep only removes entries and leaves the survivors' stats alone. */
  lemma {:induction false} SweepOnlyRemoves(files: Files, dir: string, names: seq<string>, now: int, maxAgeMs: int)
    ensures var r := SweepNames(files, dir, names, now, maxAgeMs);
      r.files.Keys <= files.Keys && forall q :: q in r.files ==> r.files[q] == files[q]
    decreases |names|
  {
    if names != [] {
      var p := Join(dir, names[0]);
      if p in files {
        if !Expired(files[p], now, maxAgeMs) {
          SweepOnlyRemoves(files, dir, names[1..], now, maxAgeMs);
        } else if !files[p].isDir {
          SweepOnlyRemoves(files - {p}, dir, names[1..], now, maxAgeMs);
        }
      }
    }
  }

  lemma RemoveOneMore(all: set<string>, p: string, left: set<string>)
    requires p in all && left <= all - {p}
    ensures all - left == ((all - {p}) - left) + {p}
    ensures |all - left| == |(all - {p}) - left| + 1
  {
  }

  /** The returned count is the number of entries the sweep removed. */
  lemma {:induction false} SweepCountsRemovals(files: Files, dir: string, names: seq<string>, now: int, maxAgeMs: int)
    ensures var r := SweepNames(files, dir, names, now, maxAgeMs);
      r.files.Keys <= files.Keys && |files.Keys - r.files.Keys| == r.count
    decreases |names|
  {
    SweepOnlyRemoves(files, dir, names, now, maxAgeMs);
    if names != [] {
      var p := Join(dir, names[0]);
      if p in files {
        if !Expired(files[p], now, maxAgeMs) {
          SweepCountsRemovals(files, dir, names[1..], now, maxAgeMs);
        } else if !files[p].isDir {
          var rest := SweepNames(files - {p}, dir, names[1..], now, maxAgeMs);
          SweepCountsRemovals(files - {p}, dir, names[1..], now, maxAgeMs);
          assert (files - {p}).Keys == files.Keys - {p};
          RemoveOneMore(files.Keys, p, rest.files.Keys);
        }
      }
    }
  }

  /** Whatever the sweep removes was listed, expired and not a directory. */
  lemma {:induction false} SweepRemovesOnlyExpiredListed(files: Files, dir: string, names: seq<string>, now: int, maxAgeMs: int)
    ensures var r := SweepNames(files, dir, names, now, maxAgeMs);
      forall q :: q in files && q !in r.files ==>
        Listed(dir, names, q) && Expired(files[q], now, maxAgeMs) && !files[q].isDir
    decreases |names|
  {
    if names != [] {
      var p := Join(dir, names[0]);
      var r := SweepNames(files, dir, names, now, maxAgeMs);
      if p in files && Expired(files[p], now, maxAgeMs) && !files[p].isDir {
        SweepRemovesOnlyExpiredListed(files - {p}, dir, names[1..], now, maxAgeMs);
        forall q | q in files && q !in r.files
          ensures Listed(dir, names, q) && Expired(files[q], now, maxAgeMs) && !files[q].isDir
        {
          if q != p {
            assert q in files - {p} && (files - {p})[q] == files[q];
            var i :| 0 <= i < |names[1..]| && Join(dir, names[1..][i]) == q;
            assert Join(dir, names[i + 1]) == q;
          } else {
            assert Join(dir, names[0]) == q;
          }
        }
      } else if p in files && !Expired(files[p], now, maxAgeMs) {
        SweepRemovesOnlyExpiredListed(files, dir, names[1..], now, maxAgeMs);
        forall q | q in files && q !in r.files
          ensures Listed(dir, names, q)
        {
          var i :| 0 <= i < |names[1..]| && Join(dir, names[1..][i]) == q;
          assert Join(dir, names[i + 1]) == q;
        }
      }
    }
  }

  /** An entry not older than the limit survives, including one exactly at the limit. */
  lemma SweepKeepsYoung(files: Files, dir: string, names: seq<string>, now: int, maxAgeMs: int, q: string)
    requires q in files && now - files[q].mtime <= maxAgeMs
    ensures var r := SweepNames(files, dir, names, now, maxAgeMs); q in r.files && r.files[q] == files[q]
  {
    SweepRemovesOnlyExpiredListed(files, dir, names, now, maxAgeMs);
    SweepOnlyRemoves(files, dir, names, now, maxAgeMs);
  }

  /** Nothing outside the directory's listing is touched. */
  lemma SweepKeepsUnlisted(files: Files, dir: string, names: seq<string>, now: int, maxAgeMs: int, q: string)
    requires q in files
    requires forall i :: 0 <= i < |names| ==> Join(dir, names[i]) != q
    ensures var r := SweepNames(files, dir, names, now, maxAgeMs); q in r.files && r.files[q] == files[q]
  {
    SweepRemovesOnlyExpiredListed(files, dir, names, now, maxAgeMs);
    SweepOnlyRemoves(files, dir, names, now, maxAgeMs);
  }

  /** A sweep that meets no error removes every listed entry that is expired. */
  lemma {:induction false} SweepRemovesAllExpired(files: Files, dir: string, names: seq<string>, now: int, maxAgeMs: int)
    ensures var r := SweepNames(files, dir, names, now, maxAgeMs);
      !r.failed ==> forall i :: 0 <= i < |names| && ExpiredIn(files, Join(dir, names[i]), now, maxAgeMs) ==> Join(dir, names[i]) !in r.files
    decreases |names|
  {
    if names != [] {
      var p := Join(dir, names[0]);
      var r := SweepNames(files, dir, names, now, maxAgeMs);
      if p in files && !r.failed {
        var next := if Expired(files[p], now, maxAgeMs) then files - {p} else files;
        assert r == (if Expired(files[p], now, maxAgeMs) then
          var rest := SweepNames(next, dir, names[1..], now, maxAgeMs); Sweep(rest.files, rest.count + 1, rest.failed)
          else SweepNames(next, dir, names[1..], now, maxAgeMs));
        SweepRemovesAllExpired(next, dir, names[1..], now, maxAgeMs);
        SweepOnlyRemoves(next, dir, names[1..], now, maxAgeMs);
        forall i | 0 <= i < |names| && ExpiredIn(files, Join(dir, names[i]), now, maxAgeMs)
          ensures Join(dir, names[i]) !in r.files
        {
          var q := Join(dir, names[i]);
          if q != p {
            assert i > 0;
            assert Join(dir, names[1..][i - 1]) == q;
          }
        }
      }
    }
  }

  /** An error ends the sweep: what follows in the listing is not visited; without an error
      the sweep of a concatenated listing is the second sweep run on the first one's result. */
  lemma {:induction false} SweepAppend(files: Files, dir: string, a: seq<string>, b: seq<string>, now: int, maxAgeMs: int)
    ensures var ra := SweepNames(files, dir, a, now, maxAgeMs);
      SweepNames(files, dir, a + b, now, maxAgeMs) ==
        if ra.failed then ra
        else var rb := SweepNames(ra.files, dir, b, now, maxAgeMs); Sweep(rb.files, ra.count + rb.count, rb.failed)
    decreases |a|
  {
    if a == [] {
      assert a + b == b;
    } else {
      assert (a + b)[0] == a[0];
      assert (a + b)[1..] == a[1..] + b;
      var p := Join(dir, a[0]);
      if p in files {
        if !Expired(files[p], now, maxAgeMs) {
          SweepAppend(files, dir, a[1..], b, now, maxAgeMs);
        } else if !files[p].isDir {
          SweepAppend(files - {p}, dir, a[1..], b, now, maxAgeMs);
        }
      }
    }
  }

  /** The directory as a mutable object: the state fs/promises changes. */
  class Disk {
    var files: Files

    constructor(initial: Files)
      ensures files == initial
    {
      files := initial;
    }

    /** fileExists: true iff fs.access succeeds, that is, the path exists. */
    method FileExists(p: string) returns (exists_: bool)
      ensures exists_ <==> p in files
    {
      exists_ := p in files;
    }

    /** fs.unlink: removes a file; on a missing path or a directory it fails (`ok` false)
        and changes nothing. */
    method Unlink(p: string) returns (ok: bool)
      modifies this
      ensures ok <==> Unlinkable(old(files), p)
      ensures files == if ok then old(files) - {p} else old(files)
    {
      ok := Unlinkable(files, p);
      if ok {
        files := files - {p};
      }
    }

    /** deleteFile: fs.unlink with the error swallowed. */
    method DeleteFile(p: string)
      modifies this
      ensures files == AfterDelete(old(files), p)
    {
      var _ := Unlink(p);
    }

    /** cleanupOldFiles(dir, maxAgeMinutes) at time `now`, readdir answering `readdir`:
        unlinks each listed entry strictly older than maxAgeMinutes minutes, stops at the
        first error, and returns how many it unlinked. It never throws. */
    method CleanupOldFiles(dir: string, maxAgeMinutes: int, now: int, readdir: Option<seq<string>>)
      returns (deletedCount: nat)
      modifies this
      ensures var s := CleanupOutcome(old(files), dir, maxAgeMinutes, now, readdir);
        files == s.files && deletedCount == s.count
    {
      deletedCount := 0;
      var maxAgeMs := maxAgeMinutes * 60 * 1000;
      if readdir.None? {
        return;
      }
      var names := readdir.value;
      ghost var start := files;
      var i := 0;
      while i < |names|
        invariant 0 <= i <= |names|
        invariant var rest := SweepNames(files, dir, names[i..], now, maxAgeMs);
          SweepNames(start, dir, names, now, maxAgeMs) == Sweep(rest.files, deletedCount + rest.count, rest.failed)
      {
        var filePath := Join(dir, names[i]);
        assert names[i..][0] == names[i] && names[i..][1..] == names[i + 1..];
        if filePath !in files {
          return;
        }
        var mtime := files[filePath].mtime;
        if now - mtime > maxAgeMs {
          var ok := Unlink(filePath);
          if !ok {
            return;
          }
          deletedCount := deletedCount + 1;
        }
        i := i + 1;
      }
    }
  }
}
