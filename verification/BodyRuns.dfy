/** Storages at work: one call after another on one storage, on twins, and on all bodies of a run of requests. */
module BodyRuns {
  import opened BodyCreation
  import opened BodyStorage
  import opened BodyStream

  ghost function Footprint(body: Body): set<object> {
    if body.InMemory? then {body.memory} else {body.disk, body.disk.file}
  }

  /** A counted, well-formed storage. */
  ghost predicate Sound(body: Body, stats: CacheStats)
    reads Footprint(body), stats
  {
    match body
    case InMemory(m) => m.Valid() && m in stats.buffers
    case OnDisk(d) => d.Valid() && d in stats.disks
  }

  /** One call on a storage of either kind. */
  method Perform(body: Body, op: Op, stats: CacheStats) returns (answer: Answer)
    requires Sound(body, stats) && stats.Valid()
    modifies Footprint(body), stats
    ensures Sound(body, stats) && stats.Valid() && stats.SameStorages(old(stats.buffers), old(stats.disks))
    ensures answer == Answered(old(ViewOf(body)), op, body.OnDisk?)
    ensures ViewOf(body) == After(old(ViewOf(body)), op)
    ensures stats.diskUsage
      == old(stats.diskUsage) - (if op.Close? && body.OnDisk? && !old(ViewOf(body).closed) then |ViewOf(body).bytes| else 0)
  {
    match body
    case InMemory(m) =>
      match op {
        case Read(n) =>
          var r := m.Read(n);
          answer := Data(r);
        case Seek(offset, whence) =>
          var r := m.Seek(offset, whence);
          answer := Position(r);
        case Bytes =>
          var r := m.Bytes();
          answer := Data(r);
        case Close =>
          m.Close(stats);
          answer := Done;
      }
    case OnDisk(d) =>
      match op {
        case Read(n) =>
          var r := d.Read(n);
          answer := Data(r);
        case Seek(offset, whence) =>
          var r := d.Seek(offset, whence);
          answer := Position(r);
        case Bytes =>
          var r := d.Bytes();
          answer := Data(r);
        case Close =>
          d.Close(stats);
          answer := Done;
      }
  }

  /**
   * The same calls on a memory storage and a disk storage of the same body: both stay at the same place, and
   * the answers tell them apart iff an empty buffer is read into at the end of the open body.
   */
  method PlayTwins(m: MemoryStorage, d: DiskStorage, ops: seq<Op>, stats: CacheStats)
    returns (fromMemory: seq<Answer>, fromDisk: seq<Answer>)
    requires Sound(InMemory(m), stats) && Sound(OnDisk(d), stats) && stats.Valid()
    requires m.View() == d.View()
    modifies m, d, d.file, stats
    ensures Sound(InMemory(m), stats) && Sound(OnDisk(d), stats) && stats.Valid()
    ensures m.View() == d.View() == AfterAll(old(m.View()), ops)
    ensures fromMemory == Play(old(m.View()), ops, false) && fromDisk == Play(old(m.View()), ops, true)
    ensures fromMemory == fromDisk <==> forall i :: 0 <= i < |ops| ==> !EmptyReadAtEnd(old(m.View()), ops, i)
  {
    ghost var start := m.View();
    fromMemory, fromDisk := [], [];
    for i := 0 to |ops|
      invariant Sound(InMemory(m), stats) && Sound(OnDisk(d), stats) && stats.Valid()
      invariant m.View() == d.View() == AfterAll(start, ops[..i])
      invariant fromMemory == Play(start, ops[..i], false) && fromDisk == Play(start, ops[..i], true)
    {
      assert ops[..i + 1][..i] == ops[..i];
      var a := Perform(InMemory(m), ops[i], stats);
      var b := Perform(OnDisk(d), ops[i], stats);
      fromMemory, fromDisk := fromMemory + [a], fromDisk + [b];
    }
    assert ops[..|ops|] == ops;
    StoragesAgreeIff(start, ops);
  }

  // ---- runs of requests ----

  datatype Event =
    | Create(input: seq<Byte>, readWorks: bool, contentLength: int, maxBytes: int, works: DiskWorks)
    | Use(index: nat, op: Op)

  ghost predicate AllSound(bodies: seq<Body>, stats: CacheStats)
    reads set i, o | 0 <= i < |bodies| && o in Footprint(bodies[i]) :: o
    reads stats
  {
    forall i :: 0 <= i < |bodies| ==> Sound(bodies[i], stats)
  }

  ghost predicate Apart(bodies: seq<Body>) {
    forall i, j :: 0 <= i < j < |bodies| ==> Footprint(bodies[i]) !! Footprint(bodies[j])
  }

  /** The reader holds no more than was declared, or the limit sees to it that usage cannot grow too far. */
  predicate Harmless(config: Config, event: Event) {
    event.Create? ==> |event.input| <= event.contentLength || Bounded(config, event.contentLength, event.maxBytes)
  }

  /** All bodies made so far, each with objects of its own. */
  ghost predicate Serving(bodies: seq<Body>, stats: CacheStats)
    reads set i, o | 0 <= i < |bodies| && o in Footprint(bodies[i]) :: o
    reads stats, stats.buffers, stats.disks
  {
    stats.Valid() && AllSound(bodies, stats) && Apart(bodies)
  }

  method Add(bodies: seq<Body>, event: Event, config: Config, stats: CacheStats) returns (more: seq<Body>)
    requires event.Create? && Serving(bodies, stats)
    modifies stats
    ensures Serving(more, stats)
    ensures bodies <= more && |more| <= |bodies| + 1
    ensures |more| > |bodies| ==> fresh(Footprint(more[|bodies|]))
    ensures old(stats.diskUsage) <= config.MaxSize() && Harmless(config, event) ==> stats.diskUsage <= config.MaxSize()
  {
    var created := CreateBodyStorageFromReader(
      event.input, event.readWorks, event.contentLength, event.maxBytes, config, event.works, stats);
    more := bodies;
    if created.Stored? {
      more := bodies + [created.body];
    }
  }

  method UseOne(bodies: seq<Body>, index: nat, op: Op, stats: CacheStats)
    requires index < |bodies| && Serving(bodies, stats)
    modifies Footprint(bodies[index]), stats
    ensures Serving(bodies, stats)
    ensures stats.diskUsage <= old(stats.diskUsage)
  {
    var answer := Perform(bodies[index], op, stats);
  }

  /**
   * Over any run of creations, reads, seeks and closes, repeated or not: the counters are the numbers and
   * sizes of the open storages, and harmless creations keep the disk usage within the maximum.
   */
  method Serve(events: seq<Event>, config: Config, stats: CacheStats) returns (bodies: seq<Body>)
    requires stats.Valid()
    modifies stats
    ensures Serving(bodies, stats)
    ensures old(stats.diskUsage) <= config.MaxSize() && (forall i :: 0 <= i < |events| ==> Harmless(config, events[i]))
      ==> stats.diskUsage <= config.MaxSize()
  {
    bodies := [];
    ghost var bounded := stats.diskUsage <= config.MaxSize() && forall i :: 0 <= i < |events| ==> Harmless(config, events[i]);
    for i := 0 to |events|
      invariant Serving(bodies, stats)
      invariant forall k :: 0 <= k < |bodies| ==> fresh(Footprint(bodies[k]))
      invariant bounded ==> stats.diskUsage <= config.MaxSize()
    {
      match events[i]
      case Create(_, _, _, _, _) =>
        assert bounded ==> Harmless(config, events[i]);
        bodies := Add(bodies, events[i], config, stats);
      case Use(index, op) =>
        if index < |bodies| {
          UseOne(bodies, index, op, stats);
        }
    }
  }
}
