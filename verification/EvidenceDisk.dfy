/**
 * Restart evidence on disk.  Source bytes are synced before the metadata that commits them, so a
 * crash at any point leaves a state from which loading gets back a committed version.
 */
module EvidenceDisk {
  import opened Bytes

  const MAXIMUM_COMPLETE_LOG_BYTES: nat := 256 * 1024 * 1024

  datatype Stream = Stdout | Stderr

  /** What the metadata says about one source file. */
  datatype Source = Source(bytes: int, digest: int, last: byte)

  datatype Metadata = Metadata(
    identity: int, stdout: Source, stderr: Source, cpuTime: int, usageObserved: bool, failed: bool, redacted: bool)

  /** The three files of the evidence directory. */
  datatype Disk = Disk(metadata: Metadata, stdout: Text, stderr: Text)

  /** The two streams of one committed version. */
  datatype Version = Version(stdout: Text, stderr: Text)

  /** What a snapshot of the store gives. */
  datatype Snapshot =
    | NotFlushed
    | Cancelled
    | InvalidFiles
    | NoUsage
    | NotArchived
    | Taken(archive: Text, bytes: nat, redacted: bool, cpuTime: int, identity: int)

  datatype Loaded = Refused | Loaded(metadata: Metadata, version: Version)

  const NAME_BYTES: nat := 9 // "[stdout]\n" and "[stderr]\n"

  function SectionBytes(bytes: int, last: byte): int {
    if bytes > 0 then NAME_BYTES + bytes + (if last != NEWLINE then 1 else 0) else 0
  }

  function CompleteLogBytes(m: Metadata): int {
    SectionBytes(m.stdout.bytes, m.stdout.last) + SectionBytes(m.stderr.bytes, m.stderr.last)
  }

  function SourceOf(m: Metadata, stream: Stream): Source {
    if stream == Stdout then m.stdout else m.stderr
  }

  function FileOf(d: Disk, stream: Stream): Text {
    if stream == Stdout then d.stdout else d.stderr
  }

  function WithSource(m: Metadata, stream: Stream, source: Source): Metadata {
    if stream == Stdout then m.(stdout := source) else m.(stderr := source)
  }

  function WithFile(d: Disk, stream: Stream, file: Text): Disk {
    if stream == Stdout then d.(stdout := file) else d.(stderr := file)
  }

  function StreamOf(v: Version, stream: Stream): Text {
    if stream == Stdout then v.stdout else v.stderr
  }

  function Extended(v: Version, stream: Stream, data: Text): Version {
    if stream == Stdout then v.(stdout := v.stdout + data) else v.(stderr := v.stderr + data)
  }

  /** Recovery of one source: drops a suffix that was never committed, refuses everything else. */
  function Recover(hash: Text -> int, file: Text, source: Source): (r: seq<Text>)
    ensures |r| <= 1
    ensures r != [] ==> 0 <= source.bytes <= |file| && r[0] == file[..source.bytes]
  {
    if source.bytes < 0 || source.bytes > MAXIMUM_COMPLETE_LOG_BYTES then []
    else if |file| < source.bytes || |file| > MAXIMUM_COMPLETE_LOG_BYTES then []
    else if |file| == source.bytes then [file[..source.bytes]]
    else if hash(file[..source.bytes]) != source.digest then []
    else [file[..source.bytes]]
  }

  /** The check of one source against its metadata. */
  predicate SourceValid(hash: Text -> int, file: Text, source: Source) {
    && 0 <= source.bytes <= MAXIMUM_COMPLETE_LOG_BYTES
    && |file| == source.bytes
    && hash(file) == source.digest
    && (source.bytes > 0 ==> file[source.bytes - 1] == source.last)
  }

  /** What a restarted runner gets from the directory. */
  function Load(hash: Text -> int, d: Disk, identity: int): Loaded {
    var stdout := Recover(hash, d.stdout, d.metadata.stdout);
    var stderr := Recover(hash, d.stderr, d.metadata.stderr);
    if d.metadata.identity != identity || stdout == [] || stderr == [] then Refused
    else if !SourceValid(hash, stdout[0], d.metadata.stdout) || !SourceValid(hash, stderr[0], d.metadata.stderr) then Refused
    else if CompleteLogBytes(d.metadata) > MAXIMUM_COMPLETE_LOG_BYTES then Refused
    else Loaded(d.metadata, Version(stdout[0], stderr[0]))
  }

  /** The metadata describes exactly this version, within the retention bound. */
  ghost predicate Describes(hash: Text -> int, m: Metadata, v: Version) {
    && SourceValid(hash, v.stdout, m.stdout)
    && SourceValid(hash, v.stderr, m.stderr)
    && CompleteLogBytes(m) <= MAXIMUM_COMPLETE_LOG_BYTES
  }

  /** Both files start with the bytes of this version and are not too long. */
  ghost predicate Holds(d: Disk, v: Version) {
    && v.stdout <= d.stdout && |d.stdout| <= MAXIMUM_COMPLETE_LOG_BYTES
    && v.stderr <= d.stderr && |d.stderr| <= MAXIMUM_COMPLETE_LOG_BYTES
  }

  /** The directory holds a version that its own metadata describes, one of those given. */
  ghost predicate Recovers(hash: Text -> int, d: Disk, identity: int, versions: set<Version>) {
    exists v :: v in versions && Describes(hash, d.metadata, v) && Holds(d, v) && d.metadata.identity == identity
  }

  /**
   * Loading gets back the version that the metadata describes, whatever uncommitted bytes follow it,
   * and nothing else: what it returns passes every check and is a prefix of both files.
   */
  lemma LoadExactly(hash: Text -> int, d: Disk, identity: int, m: Metadata, v: Version)
    ensures Load(hash, d, identity) == Loaded(m, v)
      <==> m == d.metadata && m.identity == identity && Describes(hash, m, v) && Holds(d, v)
  {
    if Describes(hash, m, v) && Holds(d, v) && m == d.metadata {
      assert d.stdout[..m.stdout.bytes] == v.stdout;
      assert d.stderr[..m.stderr.bytes] == v.stderr;
    }
  }

  /** A recoverable directory always loads, as one of the given versions. */
  lemma RecoveryNeverFails(hash: Text -> int, d: Disk, identity: int, versions: set<Version>)
    requires Recovers(hash, d, identity, versions)
    ensures var l := Load(hash, d, identity); l.Loaded? && l.metadata == d.metadata && l.version in versions
  {
    var v :| v in versions && Describes(hash, d.metadata, v) && Holds(d, v) && d.metadata.identity == identity;
    LoadExactly(hash, d, identity, d.metadata, v);
  }

  /** Metadata after an append. */
  function Appended(hash: Text -> int, m: Metadata, v: Version, stream: Stream, data: Text): Metadata
    requires data != []
  {
    var text := StreamOf(v, stream) + data;
    WithSource(m, stream, Source(|text|, hash(text), data[|data| - 1]))
  }

  /** Exactly the appends that keep the rendered log within its bound are allowed. */
  predicate Fits(m: Metadata, stream: Stream, data: Text)
    requires data != []
  {
    var source := SourceOf(m, stream);
    && |data| <= MAXIMUM_COMPLETE_LOG_BYTES - source.bytes
    && CompleteLogBytes(WithSource(m, stream, source.(bytes := source.bytes + |data|, last := data[|data| - 1])))
       <= MAXIMUM_COMPLETE_LOG_BYTES
  }

  lemma AppendedDescribes(hash: Text -> int, m: Metadata, v: Version, stream: Stream, data: Text, redacted: bool)
    requires Describes(hash, m, v) && data != [] && Fits(m, stream, data)
    ensures Describes(hash, Appended(hash, m, v, stream, data).(redacted := redacted), Extended(v, stream, data))
    ensures |StreamOf(v, stream)| + |data| <= MAXIMUM_COMPLETE_LOG_BYTES
  {
  }

  function AfterBatch(v: Version, stdout: Text, stderr: Text): Version {
    Extended(Extended(v, Stdout, stdout), Stderr, stderr)
  }

  /** The bytes of both streams fit, one after the other. */
  predicate BatchFits(hash: Text -> int, m: Metadata, v: Version, stdout: Text, stderr: Text) {
    && (stdout != [] ==> Fits(m, Stdout, stdout))
    && (stderr != [] ==> Fits(if stdout != [] then Appended(hash, m, v, Stdout, stdout) else m, Stderr, stderr))
  }

  /** The versions a batch goes through. */
  ghost function BatchVersions(v: Version, stdout: Text, stderr: Text): set<Version> {
    {v, Extended(v, Stdout, stdout), AfterBatch(v, stdout, stderr)}
  }

  /** Bytes that were redacted were added to a stream. */
  predicate Marks(before: Version, after: Version, stdoutRedacted: bool, stderrRedacted: bool) {
    || (stdoutRedacted && before.stdout != after.stdout)
    || (stderrRedacted && before.stderr != after.stderr)
  }

  lemma MoreVersions(hash: Text -> int, images: set<Disk>, identity: int, few: set<Version>, many: set<Version>)
    requires few <= many && forall d :: d in images ==> Recovers(hash, d, identity, few)
    ensures forall d :: d in images ==> Recovers(hash, d, identity, many)
  {
  }

  lemma SizesAgree(hash: Text -> int, m: Metadata, v: Version, stream: Stream)
    requires Describes(hash, m, v)
    ensures SourceOf(m, stream).bytes == |StreamOf(v, stream)|
  {
  }

  /** What the complete log shows for one stream. */
  function Section(header: Text, text: Text): Text {
    if text == [] then []
    else header + text + (if text[|text| - 1] != NEWLINE then [NEWLINE] else [])
  }

  const STDOUT_HEADER: Text := [0x5B, 0x73, 0x74, 0x64, 0x6F, 0x75, 0x74, 0x5D, NEWLINE] // "[stdout]\n"
  const STDERR_HEADER: Text := [0x5B, 0x73, 0x74, 0x64, 0x65, 0x72, 0x72, 0x5D, NEWLINE] // "[stderr]\n"

  function CompleteLog(v: Version): Text {
    Section(STDOUT_HEADER, v.stdout) + Section(STDERR_HEADER, v.stderr)
  }

  /**
   * Each stream with bytes is in the log as it is, under its own header, stdout before stderr; every header begins a line,
   * the log ends with a line end, and there is nothing else in it.
   */
  lemma LogHoldsStreams(v: Version)
    ensures v.stdout != [] ==> STDOUT_HEADER + v.stdout <= CompleteLog(v)
    ensures v.stderr != [] ==>
      var a := |CompleteLog(v)| - |Section(STDERR_HEADER, v.stderr)|;
      && 0 <= a && STDERR_HEADER + v.stderr <= CompleteLog(v)[a..] && |CompleteLog(v)[a..]| <= NAME_BYTES + |v.stderr| + 1
      && (a == 0 <==> v.stdout == []) && (a > 0 ==> CompleteLog(v)[a - 1] == NEWLINE && a <= NAME_BYTES + |v.stdout| + 1)
    ensures CompleteLog(v) == [] <==> v.stdout == [] && v.stderr == []
    ensures CompleteLog(v) != [] ==> CompleteLog(v)[|CompleteLog(v)| - 1] == NEWLINE
  {
    var first, second := Section(STDOUT_HEADER, v.stdout), Section(STDERR_HEADER, v.stderr);
    assert CompleteLog(v)[|first|..] == second;
  }

  /** While bytes are being appended, every state of the files holds and loads as the old version. */
  lemma AppendingRecovers(
    hash: Text -> int, m: Metadata, v: Version, stream: Stream, data: Text, d: Disk, n: nat, versions: set<Version>)
    requires Describes(hash, m, v) && v in versions && n <= |data|
    requires n == 0 || |StreamOf(v, stream)| + n <= MAXIMUM_COMPLETE_LOG_BYTES
    requires d == WithFile(Disk(m, v.stdout, v.stderr), stream, StreamOf(v, stream) + data[..n])
    ensures Holds(d, v) && Recovers(hash, d, m.identity, versions)
  {
    assert Describes(hash, d.metadata, v) && Holds(d, v);
  }

  /** Replacing the metadata keeps every crash image loadable, once all of them hold what it describes. */
  lemma ReplacedRecovers(hash: Text -> int, d: Disk, m: Metadata, v: Version, versions: set<Version>)
    requires Describes(hash, m, v) && Holds(d, v) && v in versions
    ensures Holds(d.(metadata := m), v) && Recovers(hash, d.(metadata := m), m.identity, versions)
  {
    var e := d.(metadata := m);
    assert Describes(hash, e.metadata, v) && Holds(e, v);
  }

  /** The store, as used under its lock. */
  class EvidenceStore {
    const hash: Text -> int
    // Every file operation works.
    const healthy: bool
    var metadata: Metadata
    // The bytes the two running digests have seen.
    var hashed: Version
    var failed: bool
    var disk: Disk

    /** Every state the directory may be in after a crash right now. */
    ghost var images: set<Disk>

    /** Memory describes this version, every crash image holds it and loads as one of those given. */
    ghost predicate Sound(v: Version, versions: set<Version>)
      reads this
    {
      && Describes(hash, metadata, v) && hashed == v && disk in images
      && forall d :: d in images ==> Holds(d, v) && Recovers(hash, d, metadata.identity, versions)
    }

    /** Nothing is in flight: memory, disk and digests agree on one version. */
    ghost predicate Clean()
      reads this
    {
      && Describes(hash, metadata, hashed)
      && disk == Disk(metadata, hashed.stdout, hashed.stderr)
      && images == {disk}
      && failed == metadata.failed
    }

    /** Memory describes what is hashed, and both files begin with it. */
    ghost predicate Retains()
      reads this
    {
      Describes(hash, metadata, hashed) && Holds(disk, hashed)
    }

    /** Replaces the metadata file; the replacement may fail, or be in place without being synced. */
    method PersistMetadata() returns (ok: bool)
      modifies this`disk, this`images
      ensures disk.stdout == old(disk).stdout && disk.stderr == old(disk).stderr
      ensures old(disk in images) ==> disk in images
      ensures ok ==> disk.metadata == metadata && images == set d | d in old(images) :: d.(metadata := metadata)
      ensures forall d :: d in images ==> d in old(images) || exists e :: e in old(images) && d == e.(metadata := metadata)
      ensures healthy ==> ok
    {
      var renamed: bool, synced: bool := *, *;
      if healthy {
        renamed, synced := true, true;
      }
      if !renamed {
        return false;
      }
      ghost var replaced := set d | d in images :: d.(metadata := metadata);
      disk := disk.(metadata := metadata);
      images := if synced then replaced else images + replaced;
      return synced;
    }

    /** Records a failure for good, as far as the disk allows it. */
    method Fail(ghost v: Version, ghost versions: set<Version>)
      requires Sound(v, versions) && v in versions && (failed ==> metadata.failed)
      modifies this`failed, this`metadata, this`disk, this`images
      ensures failed && metadata.failed
      ensures metadata == if old(failed) then old(metadata) else old(metadata).(failed := true)
      ensures Sound(v, versions)
    {
      if failed {
        return;
      }
      failed := true;
      metadata := metadata.(failed := true);
      var ok := PersistMetadata();
      forall e | e in old(images) {
        ReplacedRecovers(hash, e, metadata, v, versions);
      }
    }

    /** Writes at the end of a source file; any part of the data may arrive, and the sync may fail. */
    method WriteSource(stream: Stream, data: Text) returns (ok: bool)
      requires images == {disk}
      modifies this`disk, this`images
      ensures disk in images
      ensures ok ==> disk == WithFile(old(disk), stream, FileOf(old(disk), stream) + data) && images == {disk}
      ensures forall d :: d in images ==>
        exists n :: 0 <= n <= |data| && d == WithFile(old(disk), stream, FileOf(old(disk), stream) + data[..n])
      ensures healthy ==> ok
    {
      var written: int := *;
      var synced: bool := *;
      if healthy || written < 0 || written > |data| {
        written := |data|;
      }
      images := set n | 0 <= n <= written :: WithFile(disk, stream, FileOf(disk, stream) + data[..n]);
      disk := WithFile(disk, stream, FileOf(disk, stream) + data[..written]);
      if (healthy || synced) && written == |data| {
        assert data[..|data|] == data;
        images := {disk};
        return true;
      }
      return false;
    }

    /** Commits bytes that are already synced. */
    method CommitAppend(stream: Stream, data: Text, redacted: bool) returns (ok: bool)
      requires data != [] && Describes(hash, metadata, hashed) && Fits(metadata, stream, data)
      requires !failed && !metadata.failed
      requires disk == WithFile(Disk(metadata, hashed.stdout, hashed.stderr), stream, StreamOf(hashed, stream) + data)
      requires images == {disk}
      modifies this`metadata, this`hashed, this`disk, this`images
      ensures hashed == Extended(old(hashed), stream, data)
      ensures metadata == Appended(hash, old(metadata), old(hashed), stream, data).(redacted := old(metadata).redacted || redacted)
      ensures ok ==> Clean()
      ensures Sound(hashed, {old(hashed), hashed})
      ensures healthy ==> ok
    {
      hide Describes, Fits, Recovers;
      AppendedDescribes(hash, metadata, hashed, stream, data, metadata.redacted || redacted);
      metadata := Appended(hash, metadata, hashed, stream, data).(redacted := metadata.redacted || redacted);
      hashed := Extended(hashed, stream, data);
      AppendingRecovers(hash, old(metadata), old(hashed), stream, data, disk, |data|, {old(hashed), hashed});
      ReplacedRecovers(hash, disk, metadata, hashed, {old(hashed), hashed});
      ok := PersistMetadata();
    }

    /**
     * Appends to one source: bytes first, then the metadata that commits them.  Whatever happens, and
     * whenever a crash comes, the directory loads as the version before or the version after.
     */
    method Append(stream: Stream, data: Text, redacted: bool) returns (ok: bool)
      requires Clean() && !failed && data != []
      modifies this`metadata, this`hashed, this`disk, this`images
      ensures ok ==> Clean() && hashed == Extended(old(hashed), stream, data)
      ensures ok ==> metadata == Appended(hash, old(metadata), old(hashed), stream, data).(redacted := old(metadata).redacted || redacted)
      ensures !Fits(old(metadata), stream, data) ==> !ok && unchanged(this)
      ensures healthy && Fits(old(metadata), stream, data) ==> ok
      ensures hashed == old(hashed) || hashed == Extended(old(hashed), stream, data)
      ensures metadata.redacted == (old(metadata).redacted || (hashed != old(hashed) && redacted))
      ensures metadata.usageObserved == old(metadata).usageObserved && metadata.cpuTime == old(metadata).cpuTime
      ensures metadata.identity == old(metadata).identity && !metadata.failed
      ensures Sound(hashed, {old(hashed), Extended(old(hashed), stream, data)})
    {
      hide Describes, Recovers;
      ghost var versions := {hashed, Extended(hashed, stream, data)};
      AppendingRecovers(hash, metadata, hashed, stream, [], disk, 0, versions);
      SizesAgree(hash, metadata, hashed, stream);
      if !Fits(metadata, stream, data) {
        return false;
      }
      var usable: bool := *;
      if !(healthy || usable) || |FileOf(disk, stream)| != SourceOf(metadata, stream).bytes {
        return false;
      }
      ok := WriteSource(stream, data);
      if !ok {
        forall d | d in images
          ensures Holds(d, hashed) && Recovers(hash, d, metadata.identity, versions)
        {
          var n :| 0 <= n <= |data| && d == WithFile(old(disk), stream, FileOf(old(disk), stream) + data[..n]);
          AppendingRecovers(hash, metadata, hashed, stream, data, d, n, versions);
        }
        return;
      }
      ok := CommitAppend(stream, data, redacted);
    }

    /** Records cumulative usage in the metadata. */
    method RecordUsage(cpuTime: int) returns (ok: bool)
      requires Clean() && !failed
      modifies this`metadata, this`disk, this`images
      ensures ok ==> cpuTime >= 0 && Clean()
      ensures healthy && cpuTime >= 0 ==> ok
      ensures metadata.usageObserved && metadata.identity == old(metadata).identity && !metadata.failed
      ensures metadata.cpuTime == if cpuTime < 0 then old(metadata).cpuTime else Max(old(metadata).cpuTime, cpuTime)
      ensures metadata.redacted == old(metadata).redacted
      ensures Sound(hashed, {hashed})
    {
      ghost var versions := {hashed};
      AppendingRecovers(hash, metadata, hashed, Stdout, [], disk, 0, versions);
      if cpuTime >= 0 {
        metadata := metadata.(cpuTime := Max(metadata.cpuTime, cpuTime));
      }
      metadata := metadata.(usageObserved := true);
      ReplacedRecovers(hash, disk, metadata, hashed, versions);
      if cpuTime < 0 {
        return false;
      }
      var persisted := PersistMetadata();
      return persisted;
    }

    /** Appends a batch of pending bytes on both streams; nothing is left half done without a failure. */
    method AppendBatch(stdout: Text, stderr: Text, stdoutRedacted: bool, stderrRedacted: bool) returns (ok: bool)
      requires Clean() && !failed
      modifies this`metadata, this`hashed, this`disk, this`images
      ensures ok ==> Clean() && hashed == AfterBatch(old(hashed), stdout, stderr)
      ensures healthy ==> (ok <==> BatchFits(hash, old(metadata), old(hashed), stdout, stderr))
      ensures metadata.usageObserved == old(metadata).usageObserved && metadata.cpuTime == old(metadata).cpuTime
      ensures metadata.redacted == (old(metadata).redacted || Marks(old(hashed), hashed, stdoutRedacted, stderrRedacted))
      ensures metadata.identity == old(metadata).identity && !metadata.failed
      ensures hashed in BatchVersions(old(hashed), stdout, stderr)
      ensures Sound(hashed, BatchVersions(old(hashed), stdout, stderr))
    {
      hide Describes, Recovers;
      ghost var versions := BatchVersions(hashed, stdout, stderr);
      AppendingRecovers(hash, metadata, hashed, Stdout, [], disk, 0, versions);
      ok := true;
      assert hashed.stdout + [] == hashed.stdout && hashed.stderr + [] == hashed.stderr;
      if stdout != [] {
        ok := Append(Stdout, stdout, stdoutRedacted);
        MoreVersions(hash, images, metadata.identity, {old(hashed), Extended(old(hashed), Stdout, stdout)}, versions);
      }
      if ok && stderr != [] {
        label Second:
        ok := Append(Stderr, stderr, stderrRedacted);
        MoreVersions(hash, images, metadata.identity, {old@Second(hashed), Extended(old@Second(hashed), Stderr, stderr)}, versions);
      }
    }

    /**
     * The writer's work on one batch, under the store's lock.  A failed store changes nothing; a
     * successful batch commits everything; any other outcome fails the store for good, with a directory
     * that still loads as one of the versions along the way.
     */
    method ApplyBatch(
      overflow: bool, stdout: Text, stderr: Text, stdoutRedacted: bool, stderrRedacted: bool,
      usageObserved: bool, cpuTime: int)
      returns (ok: bool)
      requires Clean() || failed
      modifies this`metadata, this`hashed, this`disk, this`images, this`failed
      ensures ok <==> !failed
      ensures old(failed) ==> unchanged(this)
      ensures old(Retains()) ==> Retains()
      ensures healthy && !old(failed) ==>
        (ok <==> !overflow && BatchFits(hash, old(metadata), old(hashed), stdout, stderr) && (usageObserved ==> cpuTime >= 0))
      ensures overflow ==> !ok && hashed == old(hashed)
      ensures ok ==> Clean() && hashed == AfterBatch(old(hashed), stdout, stderr)
      ensures ok ==> metadata.usageObserved == (old(metadata).usageObserved || usageObserved)
      ensures ok ==> metadata.cpuTime == if usageObserved then Max(old(metadata).cpuTime, cpuTime) else old(metadata).cpuTime
      ensures !old(failed) ==>
        && metadata.redacted == (old(metadata).redacted || Marks(old(hashed), hashed, stdoutRedacted, stderrRedacted))
        && (old(metadata).usageObserved ==> metadata.usageObserved) && old(metadata).cpuTime <= metadata.cpuTime
        && metadata.failed == failed
        && hashed in BatchVersions(old(hashed), stdout, stderr)
        && Sound(hashed, BatchVersions(old(hashed), stdout, stderr))
    {
      hide Describes, Recovers;
      if failed {
        return false;
      }
      ghost var versions := BatchVersions(hashed, stdout, stderr);
      AppendingRecovers(hash, metadata, hashed, Stdout, [], disk, 0, versions);
      if overflow {
        Fail(hashed, versions);
        return false;
      }
      ok := AppendBatch(stdout, stderr, stdoutRedacted, stderrRedacted);
      if ok && usageObserved {
        ok := RecordUsage(cpuTime);
        MoreVersions(hash, images, metadata.identity, {hashed}, versions);
      }
      if !ok {
        Fail(hashed, versions);
      }
    }

    /** Creates an empty store on a fresh directory. */
    constructor Create(hash: Text -> int, identity: int, healthy: bool)
      ensures this.hash == hash && this.healthy == healthy && Clean() && !failed && hashed == Version([], [])
      ensures metadata.identity == identity && !metadata.redacted && !metadata.usageObserved && metadata.cpuTime == 0
    {
      this.hash, this.healthy := hash, healthy;
      var m := Metadata(identity, Source(0, hash([]), 0), Source(0, hash([]), 0), 0, false, false, false);
      metadata, hashed, failed := m, Version([], []), false;
      disk := Disk(m, [], []);
      images := {Disk(m, [], [])};
    }

    /** Opens the store of a directory that passed the load. */
    constructor Open(hash: Text -> int, d: Disk, healthy: bool)
      requires Describes(hash, d.metadata, Version(d.stdout, d.stderr))
      ensures this.hash == hash && this.healthy == healthy && Clean() && disk == d
    {
      this.hash, this.healthy := hash, healthy;
      metadata, hashed, failed := d.metadata, Version(d.stdout, d.stderr), d.metadata.failed;
      disk, images := d, {d};
    }

    /** Writes one section of the complete log. */
    static method WriteSection(hash: Text -> int, header: Text, file: Text, source: Source) returns (part: Text, total: nat)
      requires SourceValid(hash, file, source)
      ensures part == Section(header, file)
      ensures total == |part| == if source.bytes > 0 then |header| + source.bytes + (if source.last != NEWLINE then 1 else 0) else 0
    {
      part, total := [], 0;
      if source.bytes != 0 {
        part, total := header, |header|;
        part, total := part + file[..source.bytes], total + source.bytes;
        assert file[..source.bytes] == file;
        if source.last != NEWLINE {
          part, total := part + [NEWLINE], total + 1;
        }
      }
    }

    /** Writes the complete log to an archive: its size is the one the retention bound was checked for. */
    method WriteCompleteLog() returns (archive: Text, total: nat)
      requires Describes(hash, metadata, hashed) && disk.stdout == hashed.stdout && disk.stderr == hashed.stderr
      ensures archive == CompleteLog(hashed)
      ensures total == |archive| == CompleteLogBytes(metadata) <= MAXIMUM_COMPLETE_LOG_BYTES
    {
      hide Section;
      archive, total := WriteSection(hash, STDOUT_HEADER, disk.stdout, metadata.stdout);
      var part, size := WriteSection(hash, STDERR_HEADER, disk.stderr, metadata.stderr);
      archive, total := archive + part, total + size;
    }

    /**
     * The evidence for a result, after a flush.  The store's failure is not asked for again: bytes that a failed append
     * left behind are found by the check of the files, and such a store has failed already.
     */
    method Snapshot(flushed: bool, cancelled: bool) returns (r: Snapshot)
      requires Retains() && (Clean() || failed)
      ensures r.Taken? ==> r == Taken(CompleteLog(hashed), |CompleteLog(hashed)|, metadata.redacted, metadata.cpuTime, metadata.identity)
      ensures r.Taken? ==> flushed && !cancelled && metadata.usageObserved && 0 <= metadata.cpuTime
      ensures r.Taken? ==> disk.stdout == hashed.stdout && disk.stderr == hashed.stderr
      ensures r.InvalidFiles? ==> failed
      ensures healthy && flushed && !cancelled && metadata.usageObserved && 0 <= metadata.cpuTime ==>
        (r.Taken? <==> disk.stdout == hashed.stdout && disk.stderr == hashed.stderr)
    {
      if !flushed {
        return NotFlushed;
      }
      if cancelled {
        return Cancelled;
      }
      if !SourceValid(hash, disk.stdout, metadata.stdout) || !SourceValid(hash, disk.stderr, metadata.stderr)
         || CompleteLogBytes(metadata) > MAXIMUM_COMPLETE_LOG_BYTES
      {
        return InvalidFiles;
      }
      if !metadata.usageObserved || metadata.cpuTime < 0 {
        return NoUsage;
      }
      var archived: bool := *;
      if !healthy && !archived {
        return NotArchived;
      }
      var archive, total := WriteCompleteLog();
      return Taken(archive, total, metadata.redacted, metadata.cpuTime, metadata.identity);
    }
  }

  /** A recovered file recovers to itself, so truncating it changes nothing about the load. */
  lemma TruncationKeepsLoad(hash: Text -> int, d: Disk, identity: int, stream: Stream)
    requires Recover(hash, FileOf(d, stream), SourceOf(d.metadata, stream)) != []
    ensures Load(hash, WithFile(d, stream, Recover(hash, FileOf(d, stream), SourceOf(d.metadata, stream))[0]), identity)
      == Load(hash, d, identity)
  {
    var file, source := FileOf(d, stream), SourceOf(d.metadata, stream);
    var kept := Recover(hash, file, source)[0];
    assert kept[..source.bytes] == kept;
    assert |file| == source.bytes ==> file[..source.bytes] == file;
  }

  /**
   * Loads a store, discarding uncommitted bytes.  Without a file error it succeeds exactly when the
   * directory is acceptable, and a crash between its own steps does not change what a later load gets.
   */
  method LoadStore(hash: Text -> int, d: Disk, identity: int, healthy: bool)
    returns (store: EvidenceStore?, fileError: bool, ghost crashed: set<Disk>)
    ensures healthy ==> !fileError
    ensures !fileError ==> (store == null <==> Load(hash, d, identity).Refused?)
    ensures store != null ==> fresh(store) && store.hash == hash && store.Clean()
    ensures store != null ==> Load(hash, d, identity) == Loaded(store.metadata, store.hashed)
    ensures forall e :: e in crashed ==> Load(hash, e, identity) == Load(hash, d, identity)
  {
    store, fileError, crashed := null, *, {d};
    fileError := fileError && !healthy;
    if fileError || d.metadata.identity != identity {
      return;
    }
    var stdout := Recover(hash, d.stdout, d.metadata.stdout);
    if stdout == [] {
      return;
    }
    var half := d.(stdout := stdout[0]);
    TruncationKeepsLoad(hash, d, identity, Stdout);
    crashed := crashed + {half};
    var stderr := Recover(hash, half.stderr, half.metadata.stderr);
    if stderr == [] {
      return;
    }
    var whole := half.(stderr := stderr[0]);
    TruncationKeepsLoad(hash, half, identity, Stderr);
    crashed := crashed + {whole};
    if !SourceValid(hash, whole.stdout, whole.metadata.stdout) || !SourceValid(hash, whole.stderr, whole.metadata.stderr)
       || CompleteLogBytes(whole.metadata) > MAXIMUM_COMPLETE_LOG_BYTES
    {
      return;
    }
    store := new EvidenceStore.Open(hash, whole, healthy);
  }
}
