/** Choosing where a request body is stored, from bytes in hand or from a reader of declared length. */
module BodyCreation {
  import opened BodyStorage
  import opened BodyStream

  datatype Body = InMemory(memory: MemoryStorage) | OnDisk(disk: DiskStorage)

  /** Which steps of making a cache file succeed. */
  datatype DiskWorks = DiskWorks(create: bool, write: bool, rewind: bool) {
    predicate All() {
      create && write && rewind
    }
  }

  datatype Created = Stored(body: Body) | TooLarge | DiskFailed | ReadFailed

  ghost function ViewOf(body: Body): Stream
    reads if body.InMemory? then {body.memory as object} else {body.disk, body.disk.file}
  {
    if body.InMemory? then body.memory.View() else body.disk.View()
  }

  /** A new, open, well-formed storage at the start of the given bytes, and the one newly counted. */
  twostate predicate NewlyStored(new body: Body, bytes: seq<Byte>, stats: CacheStats)
    reads stats
    reads if body.InMemory? then {body.memory as object} else {body.disk, body.disk.file}
  {
    && ViewOf(body) == Stream(bytes, 0, false)
    && (match body
        case InMemory(m) =>
          && fresh(m) && m.Valid() && stats.diskUsage == old(stats.diskUsage)
          && stats.SameStorages(old(stats.buffers) + {m}, old(stats.disks))
        case OnDisk(d) =>
          && fresh(d) && fresh(d.file) && d.Valid() && stats.diskUsage == old(stats.diskUsage) + |bytes|
          && stats.SameStorages(old(stats.buffers), old(stats.disks) + {d}))
  }

  predicate Available(config: Config, usage: int, size: int) {
    config.enabled && usage + size <= config.MaxSize()
  }

  predicate PrefersDisk(config: Config, usage: int, size: int) {
    config.enabled && size >= config.Threshold() && Available(config, usage, size)
  }

  /** Disk is chosen for bodies from the threshold on that fit under the maximum, both in megabytes. */
  lemma PrefersDiskIff(config: Config, usage: int, size: int)
    ensures PrefersDisk(config, usage, size) <==>
      config.enabled && size >= config.thresholdMB * 1048576 && usage + size <= config.maxSizeMB * 1048576
    ensures StreamsToDisk(config, usage, size) <==> PrefersDisk(config, usage, size) && size > 0
  {
  }

  method NewMemoryStorage(data: seq<Byte>, stats: CacheStats) returns (m: MemoryStorage)
    requires stats.Valid()
    modifies stats
    ensures stats.Valid() && NewlyStored(InMemory(m), data, stats)
    ensures stats.diskHits == old(stats.diskHits) && stats.memoryHits == old(stats.memoryHits)
  {
    m := new MemoryStorage(data);
    stats.IncrementMemoryBuffers(m);
  }

  /** A cache file holding the data, rewound to its start; on a failure it is closed and removed. */
  method WriteCacheFile(data: seq<Byte>, works: DiskWorks) returns (file: File?)
    ensures file != null <==> works.All()
    ensures file != null ==> fresh(file) && file.contents == data && file.offset == 0 && file.open && file.present
  {
    if !works.create {
      return null;
    }
    var made := new File();
    if works.write {
      made.Write(data);
      if works.rewind {
        var start := made.Seek(0, SEEK_START);
        return made;
      }
    }
    made.open, made.present := false, false;
    return null;
  }

  method NewDiskStorage(data: seq<Byte>, works: DiskWorks, stats: CacheStats) returns (d: DiskStorage?)
    requires stats.Valid()
    modifies stats
    ensures stats.Valid() && (d != null <==> works.All())
    ensures d != null ==> NewlyStored(OnDisk(d), data, stats)
    ensures d == null ==> stats.SameStorages(old(stats.buffers), old(stats.disks)) && stats.diskUsage == old(stats.diskUsage)
    ensures stats.diskHits == old(stats.diskHits) && stats.memoryHits == old(stats.memoryHits)
  {
    var file := WriteCacheFile(data, works);
    if file == null {
      return null;
    }
    d := new DiskStorage(file, |data|);
    stats.IncrementDiskFiles(d);
  }

  /** A body in hand goes to disk when the cache wants and has room for it, and to memory otherwise. */
  method CreateBodyStorage(data: seq<Byte>, config: Config, works: DiskWorks, stats: CacheStats) returns (body: Body)
    requires stats.Valid()
    modifies stats
    ensures stats.Valid() && NewlyStored(body, data, stats)
    ensures body.OnDisk? <==> PrefersDisk(config, old(stats.diskUsage), |data|) && works.All()
    ensures old(stats.diskUsage) <= config.MaxSize() ==> stats.diskUsage <= config.MaxSize()
    ensures stats.diskHits == old(stats.diskHits) && stats.memoryHits == old(stats.memoryHits)
  {
    if config.enabled && |data| >= config.Threshold() && Available(config, stats.diskUsage, |data|) {
      var d := NewDiskStorage(data, works, stats);
      if d != null {
        return OnDisk(d);
      }
    }
    var m := NewMemoryStorage(data, stats);
    return InMemory(m);
  }

  /** io.LimitReader with one byte more than the limit. */
  function Limited(input: seq<Byte>, maxBytes: int): seq<Byte> {
    input[..Min(|input|, if maxBytes + 1 < 0 then 0 else maxBytes + 1)]
  }

  lemma LimitedMeaning(input: seq<Byte>, maxBytes: int)
    ensures |Limited(input, maxBytes)| > maxBytes <==> |input| > maxBytes
    ensures |input| <= maxBytes ==> Limited(input, maxBytes) == input
  {
  }

  /** Streams the body straight into a cache file; a body over the limit is thrown away. */
  method ReadToDisk(input: seq<Byte>, readWorks: bool, maxBytes: int, works: DiskWorks, stats: CacheStats)
    returns (created: Created)
    requires stats.Valid()
    modifies stats
    ensures stats.Valid()
    ensures created.Stored? <==> works.All() && readWorks && |input| <= maxBytes
    ensures created.Stored? ==> created.body.OnDisk? && NewlyStored(created.body, input, stats)
    ensures !created.Stored? ==>
      stats.SameStorages(old(stats.buffers), old(stats.disks)) && stats.diskUsage == old(stats.diskUsage)
    ensures created.TooLarge? <==> works.create && works.write && readWorks && |input| > maxBytes
    ensures !created.ReadFailed?
    ensures stats.diskHits == old(stats.diskHits) + (if created.Stored? then 1 else 0)
    ensures stats.memoryHits == old(stats.memoryHits)
  {
    LimitedMeaning(input, maxBytes);
    var taken := Limited(input, maxBytes);
    if works.create && works.write && readWorks && |taken| > maxBytes {
      return TooLarge;
    }
    var d := NewDiskStorage(taken, works.(write := works.write && readWorks), stats);
    if d == null {
      return DiskFailed;
    }
    stats.diskHits := stats.diskHits + 1;
    return Stored(OnDisk(d));
  }

  /** Reads the whole body, then stores it like a body in hand. */
  method ReadToMemory(input: seq<Byte>, readWorks: bool, maxBytes: int, config: Config, works: DiskWorks, stats: CacheStats)
    returns (created: Created)
    requires stats.Valid()
    modifies stats
    ensures stats.Valid()
    ensures created.Stored? <==> readWorks && |input| <= maxBytes
    ensures created.Stored? ==> NewlyStored(created.body, input, stats)
    ensures !created.Stored? ==>
      stats.SameStorages(old(stats.buffers), old(stats.disks)) && stats.diskUsage == old(stats.diskUsage)
    ensures created.TooLarge? <==> readWorks && |input| > maxBytes
    ensures created.ReadFailed? <==> !readWorks
    ensures created.Stored? ==>
      (created.body.OnDisk? <==> PrefersDisk(config, old(stats.diskUsage), |input|) && works.All())
    ensures old(stats.diskUsage) <= config.MaxSize() ==> stats.diskUsage <= config.MaxSize()
    ensures stats.diskHits == old(stats.diskHits) + (if created.Stored? && created.body.OnDisk? then 1 else 0)
    ensures stats.memoryHits == old(stats.memoryHits) + (if created.Stored? && created.body.InMemory? then 1 else 0)
  {
    LimitedMeaning(input, maxBytes);
    var taken := Limited(input, maxBytes);
    if !readWorks {
      return ReadFailed;
    }
    if |taken| > maxBytes {
      return TooLarge;
    }
    var body := CreateBodyStorage(taken, config, works, stats);
    if body.InMemory? {
      stats.memoryHits := stats.memoryHits + 1;
    } else {
      stats.diskHits := stats.diskHits + 1;
    }
    return Stored(body);
  }

  /** Whether a body of this declared length goes straight to disk. */
  predicate StreamsToDisk(config: Config, usage: int, contentLength: int) {
    contentLength > 0 && PrefersDisk(config, usage, contentLength)
  }

  /**
   * A body from a reader is stored, byte for byte, iff it fits the limit (and nothing fails). The disk
   * is chosen before reading, on the declared length.
   */
  method CreateBodyStorageFromReader(
    input: seq<Byte>, readWorks: bool, contentLength: int, maxBytes: int,
    config: Config, works: DiskWorks, stats: CacheStats)
    returns (created: Created)
    requires stats.Valid()
    modifies stats
    ensures stats.Valid()
    ensures created.Stored? <==> Succeeds(config, old(stats.diskUsage), |input|, readWorks, contentLength, maxBytes, works)
    ensures created.Stored? ==> NewlyStored(created.body, input, stats)
    ensures !created.Stored? ==> stats.SameStorages(old(stats.buffers), old(stats.disks))
    ensures created.TooLarge? <==>
      readWorks && |input| > maxBytes
      && (StreamsToDisk(config, old(stats.diskUsage), contentLength) ==> works.create && works.write)
    ensures created.ReadFailed? <==> !readWorks && !StreamsToDisk(config, old(stats.diskUsage), contentLength)
    ensures created.Stored? ==>
      (created.body.OnDisk? <==> StreamsToDisk(config, old(stats.diskUsage), contentLength)
                                 || (PrefersDisk(config, old(stats.diskUsage), |input|) && works.All()))
    ensures stats.diskUsage
      == UsageAfter(config, old(stats.diskUsage), |input|, readWorks, contentLength, maxBytes, works)
    ensures stats.diskHits == old(stats.diskHits) + (if created.Stored? && created.body.OnDisk? then 1 else 0)
    ensures stats.memoryHits == old(stats.memoryHits) + (if created.Stored? && created.body.InMemory? then 1 else 0)
  {
    if config.enabled && contentLength > 0 && contentLength >= config.Threshold()
      && Available(config, stats.diskUsage, contentLength) {
      created := ReadToDisk(input, readWorks, maxBytes, works, stats);
    } else {
      created := ReadToMemory(input, readWorks, maxBytes, config, works, stats);
    }
  }

  // ---- when creation keeps the usage within the maximum ----

  predicate Succeeds(
    config: Config, usage: int, size: nat, readWorks: bool, contentLength: int, maxBytes: int, works: DiskWorks)
  {
    readWorks && size <= maxBytes && (StreamsToDisk(config, usage, contentLength) ==> works.All())
  }

  /** The disk usage after a creation from a reader of `size` bytes. */
  function UsageAfter(
    config: Config, usage: int, size: nat, readWorks: bool, contentLength: int, maxBytes: int, works: DiskWorks): int
  {
    if Succeeds(config, usage, size, readWorks, contentLength, maxBytes, works)
       && (StreamsToDisk(config, usage, contentLength) || (PrefersDisk(config, usage, size) && works.All()))
    then usage + size else usage
  }

  /** With room enough, a body of this declared length would go straight to disk. */
  predicate CanStream(config: Config, contentLength: int) {
    config.enabled && contentLength > 0 && config.Threshold() <= contentLength <= config.MaxSize()
  }

  /** What a caller can check beforehand: no streaming to disk, or a limit that the declared length covers. */
  predicate Bounded(config: Config, contentLength: int, maxBytes: int) {
    CanStream(config, contentLength) ==> maxBytes <= contentLength
  }

  /** A creation keeps the usage within the maximum, whatever is read and whatever fails, iff it is bounded. */
  lemma UsageBoundIff(config: Config, contentLength: int, maxBytes: int)
    ensures (forall usage: nat, size: nat, readWorks, works | usage <= config.MaxSize() ::
               UsageAfter(config, usage, size, readWorks, contentLength, maxBytes, works) <= config.MaxSize())
      <==> Bounded(config, contentLength, maxBytes)
  {
    if !Bounded(config, contentLength, maxBytes) {
      var usage: nat, size: nat := config.MaxSize() - contentLength, contentLength + 1;
      assert UsageAfter(config, usage, size, true, contentLength, maxBytes, DiskWorks(true, true, true)) > config.MaxSize();
    }
  }

  /** A declared length of one byte lets a body of a megabyte and a byte onto a disk cache of one megabyte. */
  lemma UnderstatedLengthOverflows()
    ensures var config := Config(true, 0, 1);
      UsageAfter(config, 0, BYTES_PER_MB + 1, true, 1, 2 * BYTES_PER_MB, DiskWorks(true, true, true)) > config.MaxSize()
  {
    assert Config(true, 0, 1).Threshold() == 0 && Config(true, 0, 1).MaxSize() == BYTES_PER_MB;
  }
}
