/** The stored entries of the artifact cache: verified writes and the byte quota. */
module CacheStore {
  import opened Bytes
  import opened Options

  /**
   * A name below the cache root.  A temporary one has no digest in it.  `shared` says that it is a second name
   * for the bytes of the entry before it; it is history, the cache never reads it.
   */
  datatype StoredFile = StoredFile(digest: Option<int>, content: Text, shared: bool)

  /** What goes wrong: nothing, only the removal of temporary files, or anything. */
  datatype Trouble = Calm | RemoveFails | Any

  datatype Outcome =
    | Hit(content: Text)
    | Stored(content: Text)
    | SizeMismatch
    | Corrupt
    | NoSource
    | Oversized
    | QuotaExceeded
    | FetchFailed
    | DigestMismatch
    | FileFault

  /** What a source does: it writes chunks, and then reports an error or none. */
  datatype Source = Source(chunks: seq<Text>, fails: bool)

  /** What a walk over the names adds up. */
  function TotalBytes(files: seq<StoredFile>): nat {
    if files == [] then 0 else TotalBytes(files[..|files| - 1]) + |files[|files| - 1].content|
  }

  /** What the names occupy: shared bytes count once. */
  function DiskBytes(files: seq<StoredFile>): nat {
    if files == [] then 0
    else DiskBytes(files[..|files| - 1]) + if files[|files| - 1].shared then 0 else |files[|files| - 1].content|
  }

  lemma Added(files: seq<StoredFile>, f: StoredFile)
    ensures TotalBytes(files + [f]) == TotalBytes(files) + |f.content|
    ensures DiskBytes(files + [f]) == DiskBytes(files) + if f.shared then 0 else |f.content|
  {
    assert (files + [f])[..|files|] == files;
  }

  lemma {:induction false} TotalOfPrefix(files: seq<StoredFile>, n: nat)
    requires n <= |files|
    ensures TotalBytes(files[..n]) <= TotalBytes(files)
  {
    if n < |files| {
      assert files[..|files| - 1][..n] == files[..n];
      TotalOfPrefix(files[..|files| - 1], n);
    } else {
      assert files[..n] == files;
    }
  }

  lemma {:induction false} DiskWithinTotal(files: seq<StoredFile>)
    ensures DiskBytes(files) <= TotalBytes(files)
  {
    if files != [] {
      DiskWithinTotal(files[..|files| - 1]);
    }
  }

  /** Counts and hashes what it writes, up to a maximum. */
  class VerifyingWriter {
    const maximum: nat
    // Nothing is cancelled and every file operation works.
    const healthy: bool
    var file: Text
    var hashed: Text
    var written: nat
    var failed: bool

    ghost predicate Valid()
      reads this
    {
      hashed == file && written == |file| <= maximum
    }

    constructor (maximum: nat, healthy: bool)
      ensures Valid() && this.maximum == maximum && this.healthy == healthy && file == [] && !failed
    {
      this.healthy := healthy;
      this.maximum, file, hashed, written, failed := maximum, [], [], 0, false;
    }

    /** Writes all of the buffer, or fails for good. */
    method Write(buffer: Text) returns (ok: bool)
      requires Valid()
      modifies this`file, this`hashed, this`written, this`failed
      ensures Valid() && ok == !failed
      ensures old(file) <= file <= old(file) + buffer
      ensures ok ==> file == old(file) + buffer
      ensures old(failed) || |old(file)| + |buffer| > maximum ==> !ok && file == old(file)
      ensures healthy && !old(failed) && |old(file)| + |buffer| <= maximum ==> ok
    {
      if failed {
        return false;
      }
      var cancelled: bool := *;
      if (cancelled && !healthy) || |buffer| > maximum - written {
        failed := true;
        return false;
      }
      var n: int := *;
      if healthy || n < 0 || n > |buffer| {
        n := |buffer|;
      }
      var fault: bool := *;
      fault := fault && !healthy;
      file, hashed, written := file + buffer[..n], hashed + buffer[..n], written + n;
      failed := fault || n != |buffer|;
      assert buffer[..|buffer|] == buffer;
      return !failed;
    }

    /** Writes a source's chunks, until one of them fails; a source may go on regardless. */
    method Fetch(source: Source) returns (ok: bool)
      requires Valid() && file == [] && !failed
      modifies this`file, this`hashed, this`written, this`failed
      ensures Valid()
      ensures ok ==> !source.fails && file == Flatten(source.chunks)
      ensures healthy ==> (ok <==> !source.fails && |Flatten(source.chunks)| <= maximum)
    {
      for i := 0 to |source.chunks|
        invariant Valid() && (!failed ==> file == Flatten(source.chunks[..i]))
        invariant healthy && failed ==> |Flatten(source.chunks[..i])| > maximum
      {
        assert source.chunks[..i + 1] == source.chunks[..i] + [source.chunks[i]];
        FlattenAppend(source.chunks[..i], source.chunks[i]);
        var written := Write(source.chunks[i]);
      }
      assert source.chunks[..|source.chunks|] == source.chunks;
      var cancelled: bool := *;
      return !source.fails && !failed && (healthy || !cancelled);
    }
  }

  class Cache {
    const hash: Text -> int
    const maximumEntryBytes: nat
    const maximumTotalBytes: nat
    const trouble: Trouble
    var files: seq<StoredFile>

    constructor (hash: Text -> int, maximumEntryBytes: nat, maximumTotalBytes: nat, trouble: Trouble)
      requires maximumEntryBytes <= maximumTotalBytes
      ensures Valid() && Sound() && files == [] && this.hash == hash && this.trouble == trouble
      ensures this.maximumEntryBytes == maximumEntryBytes && this.maximumTotalBytes == maximumTotalBytes
    {
      this.hash, this.trouble, files := hash, trouble, [];
      this.maximumEntryBytes, this.maximumTotalBytes := maximumEntryBytes, maximumTotalBytes;
    }

    /** No two entries of one digest. */
    ghost predicate Valid()
      reads this
    {
      && maximumEntryBytes <= maximumTotalBytes
      && (forall i, j :: 0 <= i < j < |files| && files[i].digest.Some? ==> files[i].digest != files[j].digest)
    }

    /** Every entry holds what its name promises. */
    ghost predicate Sound()
      reads this
    {
      forall i :: 0 <= i < |files| && files[i].digest.Some? ==> hash(files[i].content) == files[i].digest.value
    }

    /** Whether something goes wrong here. */
    method Strikes() returns (x: bool)
      ensures x ==> trouble.Any?
    {
      x := *;
      x := x && trouble.Any?;
    }

    /** The bytes below the root, unless they are more than the quota. */
    method CurrentBytes() returns (total: Option<nat>)
      ensures total == if TotalBytes(files) <= maximumTotalBytes then Some(TotalBytes(files)) else None
    {
      var sum := 0;
      for i := 0 to |files|
        invariant sum == TotalBytes(files[..i]) <= maximumTotalBytes
      {
        assert files[..i + 1] == files[..i] + [files[i]];
        Added(files[..i], files[i]);
        TotalOfPrefix(files, i + 1);
        if |files[i].content| > maximumTotalBytes - sum {
          return None;
        }
        sum := sum + |files[i].content|;
      }
      assert files[..|files|] == files;
      return Some(sum);
    }

    /** The entry of a digest, checked against it. */
    method ExistingEntry(expected: int) returns (content: Option<Text>, corrupt: bool)
      requires Valid()
      ensures content.Some? ==> !corrupt && Holds(expected, content.value)
      ensures content.Some? ==> hash(content.value) == expected && |content.value| <= maximumEntryBytes
      ensures content.None? && !corrupt ==> Misses(expected)
      ensures corrupt ==>
        exists f :: f in files && f.digest == Some(expected) && (hash(f.content) != expected || |f.content| > maximumEntryBytes)
    {
      for i := 0 to |files|
        invariant forall j :: 0 <= j < i ==> files[j].digest != Some(expected)
      {
        if files[i].digest == Some(expected) {
          if |files[i].content| > maximumEntryBytes || hash(files[i].content) != expected {
            return None, true;
          }
          return Some(files[i].content), false;
        }
      }
      return None, false;
    }

    predicate Holds(digest: int, content: Text)
      reads this`files
    {
      exists f :: f in files && f.digest == Some(digest) && f.content == content
    }

    predicate Misses(digest: int)
      reads this`files
    {
      forall f :: f in files ==> f.digest != Some(digest)
    }

    /** The source brings the expected artifact, within its size. */
    predicate Delivers(source: Source, expected: int, maximumBytes: nat, exact: bool) {
      var content := Flatten(source.chunks);
      !source.fails && |content| <= maximumBytes && (exact ==> |content| == maximumBytes) && hash(content) == expected
    }

    /** A temporary name that stays behind: its removal failed unnoticed, or the process stopped before it. */
    method LeaveTemporary(content: Text, shared: bool) returns (left: bool)
      requires Valid()
      modifies this`files
      ensures Valid() && (old(Sound()) ==> Sound())
      ensures files == if left then old(files) + [StoredFile(None, content, shared)] else old(files)
      ensures trouble.Calm? ==> !left
      ensures trouble.RemoveFails? ==> left
    {
      var kept := Strikes();
      left := kept || trouble.RemoveFails?;
      if left {
        files := files + [StoredFile(None, content, shared)];
      }
    }

    /** A temporary name was added, or an entry, or an entry and its temporary name. */
    predicate GrewBy(before: seq<StoredFile>, expected: int, content: Text)
      reads this`files
    {
      var entry := StoredFile(Some(expected), content, false);
      || files == before + [StoredFile(None, content, false)]
      || (hash(content) == expected && files == before + [entry])
      || (hash(content) == expected && files == before + [entry] + [StoredFile(None, content, true)])
    }

    /** What a request may add. */
    ghost predicate Grew(before: seq<StoredFile>, expected: int, maximumBytes: nat)
      reads this`files
    {
      files == before || exists content: Text :: |content| <= maximumBytes && GrewBy(before, expected, content)
    }

    /**
     * Acquires an artifact, with the quota lock held.  Nothing already stored is changed, only content with the
     * expected digest is published or returned, and the bytes on disk stay within the quota.
     */
    method Acquire(expected: int, maximumBytes: nat, exact: bool, source: Option<Source>) returns (outcome: Outcome)
      requires Valid() && maximumBytes <= maximumEntryBytes
      modifies this`files
      ensures Valid() && (old(Sound()) ==> Sound())
      ensures Grew(old(files), expected, maximumBytes)
      ensures files != old(files) ==> maximumBytes <= maximumTotalBytes - TotalBytes(old(files))
      ensures outcome.Hit? || outcome.Stored? ==>
        && Holds(expected, outcome.content) && hash(outcome.content) == expected
        && |outcome.content| <= maximumEntryBytes && (exact ==> |outcome.content| == maximumBytes)
      ensures outcome.Stored? ==> source.Some? && !source.value.fails && outcome.content == Flatten(source.value.chunks)
      ensures outcome.Hit? ==> files == old(files)
      ensures !outcome.Stored? && !outcome.FileFault? ==> old(Misses(expected)) ==> Misses(expected)
      ensures outcome.QuotaExceeded? ==> maximumBytes > maximumTotalBytes - TotalBytes(old(files)) >= 0
      ensures outcome.Oversized? ==> TotalBytes(old(files)) > maximumTotalBytes
      ensures !trouble.Any? && old(Misses(expected)) && source.Some? && TotalBytes(old(files)) > maximumTotalBytes ==> outcome.Oversized?
      ensures !trouble.Any? && old(Misses(expected)) && TotalBytes(old(files)) <= maximumTotalBytes ==>
        (outcome.Stored? <==>
           && source.Some? && maximumBytes <= maximumTotalBytes - TotalBytes(old(files))
           && Delivers(source.value, expected, maximumBytes, exact))
      ensures outcome.Stored? && !trouble.Any? ==>
        files == old(files) + [StoredFile(Some(expected), outcome.content, false)]
          + if trouble.RemoveFails? then [StoredFile(None, outcome.content, true)] else []
      ensures trouble.Calm? && !outcome.Stored? ==> files == old(files)
    {
      var broken := Strikes();
      if broken {
        return FileFault;
      }
      var existing, corrupt := ExistingEntry(expected);
      if corrupt {
        return Corrupt;
      }
      if existing.Some? {
        return if exact && |existing.value| != maximumBytes then SizeMismatch else Hit(existing.value);
      }
      if source.None? {
        return NoSource;
      }
      var current := CurrentBytes();
      if current.None? {
        return Oversized;
      }
      if maximumBytes > maximumTotalBytes - current.value {
        return QuotaExceeded;
      }
      outcome := Download(expected, maximumBytes, exact, source.value);
    }

    /** The part of a request behind the quota check. */
    method Download(expected: int, maximumBytes: nat, exact: bool, source: Source) returns (outcome: Outcome)
      requires Valid() && Misses(expected)
      modifies this`files
      ensures Valid() && (old(Sound()) ==> Sound()) && Grew(old(files), expected, maximumBytes)
      ensures outcome.Stored? || outcome.SizeMismatch? || outcome.FetchFailed? || outcome.DigestMismatch? || outcome.FileFault?
      ensures outcome.Stored? ==>
        && Holds(expected, outcome.content) && hash(outcome.content) == expected && |outcome.content| <= maximumBytes
        && (exact ==> |outcome.content| == maximumBytes) && !source.fails && outcome.content == Flatten(source.chunks)
      ensures !outcome.Stored? && !outcome.FileFault? ==> Misses(expected)
      ensures !trouble.Any? ==> (outcome.Stored? <==> Delivers(source, expected, maximumBytes, exact))
      ensures outcome.Stored? && !trouble.Any? ==>
        files == old(files) + [StoredFile(Some(expected), outcome.content, false)]
          + if trouble.RemoveFails? then [StoredFile(None, outcome.content, true)] else []
      ensures trouble.Calm? && !outcome.Stored? ==> files == old(files)
    {
      var writer := new VerifyingWriter(maximumBytes, !trouble.Any?);
      var fetched := writer.Fetch(source);
      var fault := Strikes();
      var refused := if !fetched then FetchFailed else if exact && writer.written != maximumBytes then SizeMismatch
                     else if hash(writer.hashed) != expected then DigestMismatch else FileFault;
      if fault || !refused.FileFault? {
        var left := LeaveTemporary(writer.file, false);
        assert left ==> GrewBy(old(files), expected, writer.file);
        return if fault then FileFault else refused;
      }
      Publish(expected, writer.file);
      var stops := Strikes();
      return if stops then FileFault else Stored(writer.file);
    }

    /** The temporary file gets the entry's name too, and its own name is removed if that works. */
    method Publish(expected: int, content: Text)
      requires Valid() && Misses(expected) && hash(content) == expected
      modifies this`files
      ensures Valid() && (old(Sound()) ==> Sound()) && GrewBy(old(files), expected, content) && Holds(expected, content)
      ensures !trouble.Any? ==>
        files == old(files) + [StoredFile(Some(expected), content, false)]
          + if trouble.RemoveFails? then [StoredFile(None, content, true)] else []
    {
      files := files + [StoredFile(Some(expected), content, false)];
      var left := LeaveTemporary(content, true);
      assert files[|old(files)|] == StoredFile(Some(expected), content, false);
    }
  }

  // ---- The quota ----

  /** A published entry whose temporary name stays is counted twice: exactly then a walk may find more than the quota. */
  lemma LeftoverCounted(files: seq<StoredFile>, entry: StoredFile, leftover: StoredFile, quota: nat)
    requires !entry.shared && leftover.shared && leftover.content == entry.content
    ensures TotalBytes(files + [entry] + [leftover]) <= quota <==> 2 * |entry.content| <= quota - TotalBytes(files)
    ensures DiskBytes(files + [entry] + [leftover]) == DiskBytes(files) + |entry.content|
  {
    Added(files, entry);
    Added(files + [entry], leftover);
  }

  /** The walked total is within the quota, or only the last name, a second one of its bytes, puts it beyond. */
  ghost predicate WithinQuota(files: seq<StoredFile>, quota: nat, entry: nat) {
    && DiskBytes(files) <= quota
    && TotalBytes(files) <= quota + entry
    && (TotalBytes(files) > quota ==>
          files != [] && files[|files| - 1].shared && TotalBytes(files[..|files| - 1]) <= quota)
  }

  lemma OneMore(before: seq<StoredFile>, f: StoredFile, quota: nat, entry: nat)
    requires !f.shared && |f.content| <= quota - TotalBytes(before)
    ensures WithinQuota(before + [f], quota, entry)
  {
    DiskWithinTotal(before);
    Added(before, f);
  }

  lemma OneMoreShared(before: seq<StoredFile>, f: StoredFile, quota: nat, entry: nat)
    requires WithinQuota(before, quota, entry) && TotalBytes(before) <= quota && f.shared && |f.content| <= entry
    ensures WithinQuota(before + [f], quota, entry)
  {
    Added(before, f);
    assert (before + [f])[..|before|] == before;
  }

  lemma GrowthKeepsQuota(cache: Cache, before: seq<StoredFile>, expected: int, maximumBytes: nat)
    requires WithinQuota(before, cache.maximumTotalBytes, cache.maximumEntryBytes)
    requires cache.Grew(before, expected, maximumBytes) && maximumBytes <= cache.maximumEntryBytes
    requires cache.files != before ==> maximumBytes <= cache.maximumTotalBytes - TotalBytes(before)
    ensures WithinQuota(cache.files, cache.maximumTotalBytes, cache.maximumEntryBytes)
    ensures before <= cache.files && (TotalBytes(before) > cache.maximumTotalBytes ==> cache.files == before)
  {
    hide WithinQuota, TotalBytes;
    if cache.files != before {
      var content: Text :| |content| <= maximumBytes && cache.GrewBy(before, expected, content);
      var entry := StoredFile(Some(expected), content, false);
      OneMore(before, StoredFile(None, content, false), cache.maximumTotalBytes, cache.maximumEntryBytes);
      OneMore(before, entry, cache.maximumTotalBytes, cache.maximumEntryBytes);
      Added(before, entry);
      OneMoreShared(before + [entry], StoredFile(None, content, true), cache.maximumTotalBytes, cache.maximumEntryBytes);
    }
  }

  /** One request; an exact one names the size. */
  datatype Request = Request(expected: int, exactBytes: Option<nat>, source: Option<Source>)

  /**
   * Over any sequence of requests and any failures: the bytes on disk stay within the quota, everything stored
   * stays as it was stored, and once a walk finds more than the quota nothing is added any more.
   */
  method RunRequests(cache: Cache, requests: seq<Request>)
    requires cache.Valid() && cache.Sound()
    requires WithinQuota(cache.files, cache.maximumTotalBytes, cache.maximumEntryBytes)
    modifies cache
    ensures cache.Valid() && cache.Sound() && old(cache.files) <= cache.files
    ensures WithinQuota(cache.files, cache.maximumTotalBytes, cache.maximumEntryBytes)
    ensures old(TotalBytes(cache.files)) > cache.maximumTotalBytes ==> cache.files == old(cache.files)
  {
    for i := 0 to |requests|
      invariant cache.Valid() && cache.Sound() && old(cache.files) <= cache.files
      invariant WithinQuota(cache.files, cache.maximumTotalBytes, cache.maximumEntryBytes)
      invariant old(TotalBytes(cache.files)) > cache.maximumTotalBytes ==> cache.files == old(cache.files)
    {
      var r := requests[i];
      ghost var before := cache.files;
      if r.exactBytes.None? {
        var outcome := cache.Acquire(r.expected, cache.maximumEntryBytes, false, r.source);
        GrowthKeepsQuota(cache, before, r.expected, cache.maximumEntryBytes);
      } else if 0 < r.exactBytes.value <= cache.maximumEntryBytes {
        var outcome := cache.Acquire(r.expected, r.exactBytes.value, true, r.source);
        GrowthKeepsQuota(cache, before, r.expected, r.exactBytes.value);
      }
    }
  }

  lemma OneChunk(content: Text)
    ensures Flatten([content]) == content
  {
    assert [content] == [] + [content];
    FlattenAppend([], content);
  }

  /** The first artifact is stored under both of its names. */
  method StoreTwice(cache: Cache, content: Text) returns (outcome: Outcome)
    requires cache.Valid() && cache.files == [] && cache.trouble.RemoveFails? && |content| == cache.maximumEntryBytes
    modifies cache
    ensures cache.Valid() && outcome == Stored(content)
    ensures cache.files == [StoredFile(Some(cache.hash(content)), content, false)] + [StoredFile(None, content, true)]
  {
    hide Cache.Grew, Cache.Sound, Cache.Holds;
    OneChunk(content);
    outcome := cache.Acquire(cache.hash(content), |content|, true, Some(Source([content], false)));
  }

  /**
   * One artifact of more than half the quota, and one removal that fails: the artifact is stored, and every
   * request for another one is refused from then on.
   */
  method LeftoverBlocksCache(hash: Text -> int, content: Text, quota: nat, other: int, source: Source)
    returns (cache: Cache, first: Outcome, second: Outcome)
    requires |content| <= quota < 2 * |content| && other != hash(content)
    ensures fresh(cache) && first == Stored(content) && second == Oversized && TotalBytes(cache.files) > quota
  {
    hide Cache.Grew, Cache.Sound, Cache.Holds, Cache.Delivers;
    cache := new Cache(hash, |content|, quota, RemoveFails);
    first := StoreTwice(cache, content);
    LeftoverCounted([], cache.files[0], cache.files[1], quota);
    assert [] + [cache.files[0]] + [cache.files[1]] == cache.files;
    second := cache.Acquire(other, |content|, false, Some(source));
  }
}
