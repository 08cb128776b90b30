/**
  Reading the journal's tail from disk while the Host appends to it and punches
  holes in it. Every access of the client is preceded by an arbitrary batch of Host
  steps, so a contract here speaks of every interleaving.
 */
module TailReader {
  import opened Bytes
  import opened VtScanner
  import opened ReplayAlignment
  import opened HostJournal
  import opened HoledWindow

  const RETRIES: nat := 3

  /** `data` holds the journal's bytes from `start` wherever nothing is punched. */
  ghost predicate TrueAbove(data: seq<byte>, start: nat, h: Host) {
    start + |data| <= |h.journal|
    && forall i :: 0 <= i < |data| && h.punched <= start + i ==> data[i] == h.journal[start + i]
  }

  // ------------------------------------------------------------------
  // The Host's whole run, access by access.
  // ------------------------------------------------------------------

  /** The Host after its batches `a` up to `b`. */
  ghost function After(schedule: nat -> seq<HostStep>, h: Host, a: nat, b: nat): (k: Host)
    requires a <= b
    decreases b
  {
    if a == b then h else Run(After(schedule, h, a, b - 1), schedule(b - 1))
  }

  /** The batches from `a` up to `b`, and nothing else, lead from `h` to `k`. */
  ghost predicate Reaches(schedule: nat -> seq<HostStep>, h: Host, a: nat, k: Host, b: nat) {
    a <= b && k == After(schedule, h, a, b)
  }

  /** At some moment of the run the published floor lies past `at`. */
  ghost predicate FloorPasses(schedule: nat -> seq<HostStep>, h: Host, a: nat, b: nat, at: nat) {
    exists k :: a <= k <= b && at < PublishedFloor(After(schedule, h, a, k))
  }

  /** At some moment of the run a reader that knows `len` bytes finds this floor. */
  ghost predicate FloorSeen(schedule: nat -> seq<HostStep>, h: Host, a: nat, b: nat, floor: nat, len: nat) {
    exists k :: a <= k <= b && floor == Min(PublishedFloor(After(schedule, h, a, k)), len)
  }

  lemma {:induction false} ReachesItself(schedule: nat -> seq<HostStep>, h: Host, a: nat)
    ensures Reaches(schedule, h, a, h, a)
  {
  }

  lemma {:induction false} ReachesTransitive(schedule: nat -> seq<HostStep>, h: Host, a: nat, k: Host, b: nat, l: Host,
                                             c: nat)
    requires Reaches(schedule, h, a, k, b) && Reaches(schedule, k, b, l, c)
    ensures Reaches(schedule, h, a, l, c)
    decreases c
  {
    if b < c {
      var before := After(schedule, k, b, c - 1);
      ReachesTransitive(schedule, h, a, k, b, before, c - 1);
    }
  }

  /** A later part of the run is part of the run. */
  lemma {:induction false} FloorPassesEarlier(schedule: nat -> seq<HostStep>, h: Host, a: nat, k: Host, b: nat, c: nat,
                                              from: nat, at: nat)
    requires Reaches(schedule, h, a, k, b) && FloorPasses(schedule, k, b, c, at) && from <= at
    ensures FloorPasses(schedule, h, a, c, from)
  {
    var n :| b <= n <= c && at < PublishedFloor(After(schedule, k, b, n));
    ReachesTransitive(schedule, h, a, k, b, After(schedule, k, b, n), n);
  }

  lemma {:induction false} FloorPassesLonger(schedule: nat -> seq<HostStep>, h: Host, a: nat, b: nat, c: nat, at: nat)
    requires FloorPasses(schedule, h, a, b, at) && b <= c
    ensures FloorPasses(schedule, h, a, c, at)
  {
    var n :| a <= n <= b && at < PublishedFloor(After(schedule, h, a, n));
    assert a <= n <= c;
  }

  lemma {:induction false} FloorSeenEarlier(schedule: nat -> seq<HostStep>, h: Host, a: nat, k: Host, b: nat, c: nat,
                                            floor: nat, len: nat)
    requires Reaches(schedule, h, a, k, b) && FloorSeen(schedule, k, b, c, floor, len)
    ensures FloorSeen(schedule, h, a, c, floor, len)
  {
    var n :| b <= n <= c && floor == Min(PublishedFloor(After(schedule, k, b, n)), len);
    ReachesTransitive(schedule, h, a, k, b, After(schedule, k, b, n), n);
  }

  /**
    `output.bin` and its sidecar as one client sees them. `schedule(k)` is what the
    Host does before the client's `k`-th access; `holes(k, i)` is what that access
    finds at offset `i` if the block there is deallocated while it reads.
   */
  class SharedJournal {
    const schedule: nat -> seq<HostStep>
    const holes: (nat, nat) -> byte
    var clock: nat
    var host: Host

    ghost predicate Valid()
      reads this
    {
      HostOk(host)
    }

    /** The Host has nothing more to do. */
    ghost predicate Quiet()
      reads this`clock
    {
      forall k :: clock <= k ==> schedule(k) == []
    }

    constructor (host: Host, schedule: nat -> seq<HostStep>, holes: (nat, nat) -> byte)
      requires HostOk(host)
      ensures Valid() && this.host == host && clock == 0
      ensures this.schedule == schedule && this.holes == holes
    {
      this.host := host;
      this.schedule := schedule;
      this.holes := holes;
      clock := 0;
    }

    /** The Host moves. */
    method Interfere()
      requires Valid()
      modifies this
      ensures Valid() && Evolves(old(host), host)
      ensures host == Run(old(host), schedule(old(clock))) && clock == old(clock) + 1
      ensures Reaches(schedule, old(host), old(clock), host, clock)
      ensures old(Quiet()) ==> Quiet() && host == old(host)
    {
      RunKeepsOk(host, schedule(clock));
      host := Run(host, schedule(clock));
      clock := clock + 1;
    }

    method Exists() returns (found: bool)
      requires Valid()
      modifies this
      ensures Valid() && Evolves(old(host), host)
      ensures Reaches(schedule, old(host), old(clock), host, clock)
      ensures old(Quiet()) ==> Quiet() && host == old(host)
      ensures found == host.created
    {
      Interfere();
      found := host.created;
    }

    method Length() returns (len: nat)
      requires Valid()
      modifies this
      ensures Valid() && Evolves(old(host), host)
      ensures Reaches(schedule, old(host), old(clock), host, clock)
      ensures old(Quiet()) ==> Quiet() && host == old(host)
      ensures len == host.flushed
    {
      Interfere();
      len := host.flushed;
    }

    /** `retained_from_for_output_at_len`. */
    method RetainedFrom(len: nat) returns (floor: nat)
      requires Valid()
      modifies this
      ensures Valid() && Evolves(old(host), host)
      ensures Reaches(schedule, old(host), old(clock), host, clock)
      ensures old(Quiet()) ==> Quiet() && host == old(host)
      ensures floor == RetainedFromAtLen(host.sidecar, len)
      ensures floor == Min(PublishedFloor(host), len)
    {
      Interfere();
      floor := RetainedFromAtLen(host.sidecar, len);
    }

    /** `output_retained_from`: the length and the floor are two accesses. */
    method OutputRetainedFrom() returns (floor: nat, len: nat)
      requires Valid()
      modifies this
      ensures Valid() && Evolves(old(host), host)
      ensures Reaches(schedule, old(host), old(clock), host, clock)
      ensures old(Quiet()) ==> Quiet() && host == old(host)
      ensures old(host.flushed) <= len <= host.flushed
      ensures floor == Min(PublishedFloor(host), len)
    {
      hide After;
      var fileLen := Length();
      ghost var h, at := host, clock;
      len := fileLen;
      floor := RetainedFrom(fileLen);
      ReachesTransitive(schedule, old(host), old(clock), h, at, host, clock);
    }

    /** A read finds the journal's bytes except where blocks are already gone. */
    method ReadAt(start: nat, count: nat) returns (data: seq<byte>)
      requires Valid() && start + count <= host.flushed
      modifies this
      ensures Valid() && Evolves(old(host), host)
      ensures Reaches(schedule, old(host), old(clock), host, clock)
      ensures old(Quiet()) ==> Quiet() && host == old(host)
      ensures |data| == count && TrueAbove(data, start, host)
    {
      Interfere();
      var j, punched, k, gone := host.journal, host.punched, clock, holes;
      data := seq(count, i requires 0 <= i < count && start + count <= |j| =>
        if punched <= start + i then j[start + i] else gone(k, start + i));
    }
  }

  datatype Tail = Tail(bytes: seq<byte>, next: nat)

  /** How a tail was obtained: no file yet, a read that passed its recheck, or a
      give-up after the last retry. `punched` is how far the journal was punched when the
      window was read. */
  datatype Provenance =
    | NoFile
    | Accepted(start: nat, floor: nat, epoch: nat, window: seq<byte>, punched: nat)
    | GaveUp

  function Desired(len: nat, replayBytes: nat, floor: nat): (d: nat) {
    Max(SaturatingSub(len, replayBytes), floor)
  }

  /** The start an alignment scan of `window` gives. */
  function StartFrom(window: seq<byte>, desired: nat, floor: nat): (start: nat) {
    if desired <= floor then floor
    else AlignedInWindow(window, ScanStart(desired, floor), desired)
  }

  lemma {:induction false} EvolvesTransitive(h: Host, k: Host, l: Host)
    requires Evolves(h, k) && Evolves(k, l)
    ensures Evolves(h, l) && h.flushed <= k.flushed <= l.flushed
  {
  }

  lemma {:induction false} WholeLater(window: seq<byte>, scanStart: nat, h: Host, k: Host)
    requires TrueAbove(window, scanStart, h) && Evolves(h, k)
    ensures WholeFrom(window, scanStart, h.punched, k.journal) && h.punched <= k.punched
  {
  }

  method AlignReplayTailStartFrom(disk: SharedJournal, desired: nat, floor: nat)
    returns (start: nat, ghost window: seq<byte>)
    requires disk.Valid() && floor <= desired <= disk.host.flushed
    modifies disk
    ensures disk.Valid() && Evolves(old(disk.host), disk.host)
    ensures Reaches(disk.schedule, old(disk.host), old(disk.clock), disk.host, disk.clock)
    ensures old(disk.Quiet()) ==> disk.Quiet() && disk.host == old(disk.host)
    ensures floor <= start <= desired
    ensures start == StartFrom(window, desired, floor)
    ensures floor < desired ==> |window| == desired - ScanStart(desired, floor)
    ensures TrueAbove(window, ScanStart(desired, floor), disk.host)
  {
    ReachesItself(disk.schedule, disk.host, disk.clock);
    hide After, Reaches;
    if desired <= floor {
      return floor, [];
    }
    var scanStart := ScanStart(desired, floor);
    var bytes := disk.ReadAt(scanStart, desired - scanStart);
    LastCutIsGreatest(bytes);
    start := AlignTailStartInWindow(bytes, scanStart, desired);
    window := bytes;
  }

  /** What an accepted read promises about the journal it was taken from. */
  ghost predicate AcceptedFrom(how: Provenance, tail: Tail, replayBytes: nat, h: Host)
    requires how.Accepted?
  {
    && how.floor <= how.start <= tail.next <= h.flushed <= |h.journal|
    && tail.bytes == h.journal[how.start..tail.next]
    && var desired := Desired(tail.next, replayBytes, how.floor);
    && desired <= tail.next
    && how.start == StartFrom(how.window, desired, how.floor)
    && (how.floor < desired ==> |how.window| == desired - ScanStart(desired, how.floor))
    && WholeFrom(how.window, ScanStart(desired, how.floor), how.punched, h.journal)
    && how.punched <= h.punched
    && (PublishedFloor(h) <= how.start || how.start == tail.next)
    && (how.floor == 0 || how.floor < tail.next ==>
          how.epoch <= how.floor && TransparentFloor(h.journal, how.epoch, how.floor))
  }

  /** One attempt: read the floor, the window and the tail, then look at the floor again.
      It fails only if the floor has passed the start meanwhile. */
  method TryReadTail(disk: SharedJournal, replayBytes: nat)
    returns (passed: bool, tail: Tail, ghost how: Provenance)
    requires disk.Valid()
    modifies disk
    ensures disk.Valid() && Evolves(old(disk.host), disk.host)
    ensures old(disk.host.flushed) <= tail.next <= disk.host.flushed
    ensures passed ==> how.Accepted? && AcceptedFrom(how, tail, replayBytes, disk.host)
    ensures !passed ==> how.GaveUp? && tail.bytes == []
    ensures Reaches(disk.schedule, old(disk.host), old(disk.clock), disk.host, disk.clock)
    ensures passed ==> FloorSeen(disk.schedule, old(disk.host), old(disk.clock), disk.clock, how.floor, tail.next)
    ensures old(disk.Quiet()) ==> disk.Quiet() && disk.host == old(disk.host) && passed
    ensures old(disk.Quiet()) ==> how.floor == PublishedFloor(disk.host) && tail.next == disk.host.flushed
  {
    hide HostOk, TrueAbove, StartFrom, AcceptedFrom, ScanStart, After, SharedJournal.Quiet;
    var floor, len := disk.OutputRetainedFrom();
    ghost var atFloor, floorTime := disk.host, disk.clock;
    FloorInFile(atFloor);
    var desired := Desired(len, replayBytes, floor);
    ghost var window: seq<byte>;
    var start;
    start, window := AlignReplayTailStartFrom(disk, desired, floor);
    ghost var atWindow, windowTime := disk.host, disk.clock;
    var data, stale, newestLen := ReadAndRecheck(disk, start, len);
    ReachesTransitive(disk.schedule, atFloor, floorTime, atWindow, windowTime, disk.host, disk.clock);
    ReachesTransitive(disk.schedule, old(disk.host), old(disk.clock), atFloor, floorTime, disk.host, disk.clock);
    EvolvesTransitive(atFloor, atWindow, disk.host);
    EvolvesTransitive(old(disk.host), atFloor, disk.host);
    hide Evolves;
    if stale {
      return false, Tail([], newestLen), GaveUp;
    }
    ghost var epoch := if floor == len then floor else atFloor.publishedEpoch;
    passed, tail, how := true, Tail(data, len), Accepted(start, floor, epoch, window, atWindow.punched);
    AcceptedHolds(how, tail, replayBytes, atFloor, atWindow, disk.host);
  }

  lemma {:induction false} FloorInFile(h: Host)
    requires HostOk(h)
    ensures PublishedFloor(h) <= h.flushed
  {
  }

  /** Read up to `len`, then look at the floor again: unless it has passed the start, the
      bytes are the journal's. */
  method ReadAndRecheck(disk: SharedJournal, start: nat, len: nat)
    returns (data: seq<byte>, stale: bool, newestLen: nat)
    requires disk.Valid() && start <= len <= disk.host.flushed
    modifies disk
    ensures disk.Valid() && Evolves(old(disk.host), disk.host)
    ensures Reaches(disk.schedule, old(disk.host), old(disk.clock), disk.host, disk.clock)
    ensures old(disk.Quiet()) ==> disk.Quiet() && disk.host == old(disk.host)
    ensures len <= newestLen <= disk.host.flushed <= |disk.host.journal|
    ensures |data| == len - start
    ensures !stale ==> data == disk.host.journal[start..len]
    ensures stale <==> start < Min(PublishedFloor(disk.host), newestLen)
  {
    hide FloorsTransparent, After, Reaches;
    data := disk.ReadAt(start, len - start);
    ghost var atRead, readTime := disk.host, disk.clock;
    var newestFloor;
    newestFloor, newestLen := disk.OutputRetainedFrom();
    ReachesTransitive(disk.schedule, old(disk.host), old(disk.clock), atRead, readTime, disk.host, disk.clock);
    stale := start < newestFloor;
    if !stale {
      RecheckedIsTrue(data, start, len, newestLen, atRead, disk.host);
    }
  }

  lemma {:induction false} AcceptedHolds(how: Provenance, tail: Tail, replayBytes: nat, atFloor: Host, atWindow: Host,
                                         h: Host)
    requires how.Accepted? && HostOk(atFloor) && HostOk(h) && Evolves(atFloor, h) && Evolves(atWindow, h)
    requires tail.next <= h.flushed && how.floor == Min(PublishedFloor(atFloor), tail.next)
    requires how.epoch == if how.floor == tail.next then how.floor else atFloor.publishedEpoch
    requires
      var desired := Desired(tail.next, replayBytes, how.floor);
      && how.floor <= how.start <= desired
      && how.start == StartFrom(how.window, desired, how.floor)
      && (how.floor < desired ==> |how.window| == desired - ScanStart(desired, how.floor))
      && TrueAbove(how.window, ScanStart(desired, how.floor), atWindow)
    requires how.punched == atWindow.punched
    requires PublishedFloor(h) <= how.start || how.start == tail.next
    requires tail.bytes == h.journal[how.start..tail.next]
    ensures AcceptedFrom(how, tail, replayBytes, h)
  {
    WholeLater(how.window, ScanStart(Desired(tail.next, replayBytes, how.floor), how.floor), atWindow, h);
    hide TrueAbove, WholeFrom, StartFrom, TransparentFloor, FloorsTransparent;
    if how.floor == 0 || how.floor < tail.next {
      FloorStaysTransparent(atFloor, h, how.epoch, how.floor);
    }
  }

  /**
    The boundary-aligned tail. Whatever the Host does meanwhile, the result is the
    journal's own bytes ending at the returned offset — never a deallocated block —
    or nothing; the offset is at least the length the file had on entry; at most
    `retries + 1` attempts are made, all of them only if the result is empty or the
    last one passed; and one is enough when the Host is quiet. The replay is as long as
    asked for, or begins at a floor the Host had published, and alignment lengthens it by
    at most the lookback.
   */
  method ReadReplayTail(disk: SharedJournal, replayBytes: nat, retries: nat)
    returns (tail: Tail, ghost how: Provenance, ghost attempts: nat)
    requires disk.Valid()
    modifies disk
    ensures disk.Valid() && Evolves(old(disk.host), disk.host)
    ensures old(disk.host.flushed) <= tail.next <= disk.host.flushed
    ensures 1 <= attempts <= retries + 1
    ensures how.Accepted? ==> AcceptedFrom(how, tail, replayBytes, disk.host)
    ensures how.GaveUp? ==> tail.bytes == [] && attempts == retries + 1
    ensures how.NoFile? ==> tail == Tail([], 0) && !old(disk.host.created)
    ensures Reaches(disk.schedule, old(disk.host), old(disk.clock), disk.host, disk.clock)
    ensures how.Accepted? ==> how.start == how.floor || how.start + replayBytes <= tail.next
    ensures how.Accepted? ==> tail.next <= how.start + replayBytes + LOOKBACK
    ensures how.Accepted? ==> FloorSeen(disk.schedule, old(disk.host), old(disk.clock), disk.clock, how.floor, tail.next)
    ensures old(disk.Quiet()) ==> attempts == 1 && !how.GaveUp? && disk.host == old(disk.host)
    ensures old(disk.Quiet()) && how.Accepted? ==>
      how.floor == PublishedFloor(disk.host) && tail.next == disk.host.flushed
    decreases retries
  {
    hide HostOk, AcceptedFrom, After, Reaches, FloorSeen;
    var found := disk.Exists();
    ghost var h1, at1 := disk.host, disk.clock;
    if !found {
      assert HolesBelowFloor(disk.host) by { HostHolesBelowFloor(disk.host); }
      return Tail([], 0), NoFile, 1;
    }
    var passed;
    passed, tail, how := TryReadTail(disk, replayBytes);
    ghost var h2, at2 := disk.host, disk.clock;
    ReachesTransitive(disk.schedule, old(disk.host), old(disk.clock), h1, at1, h2, at2);
    attempts := 1;
    if passed {
      AcceptedBounds(how, tail, replayBytes, disk.host);
      FloorSeenEarlier(disk.schedule, old(disk.host), old(disk.clock), h1, at1, at2, how.floor, tail.next);
    } else if retries > 0 {
      ghost var more;
      tail, how, more := ReadReplayTail(disk, replayBytes, retries - 1);
      attempts := more + 1;
      ReachesTransitive(disk.schedule, old(disk.host), old(disk.clock), h2, at2, disk.host, disk.clock);
      if how.Accepted? {
        FloorSeenEarlier(disk.schedule, old(disk.host), old(disk.clock), h2, at2, disk.clock, how.floor, tail.next);
      }
    }
  }

  lemma {:induction false} AcceptedBounds(how: Provenance, tail: Tail, replayBytes: nat, h: Host)
    requires how.Accepted? && AcceptedFrom(how, tail, replayBytes, h)
    ensures how.start == how.floor || how.start + replayBytes <= tail.next
    ensures tail.next <= how.start + replayBytes + LOOKBACK
  {
    hide TransparentFloor, WholeFrom, LastCut;
    LastCutBounds(how.window);
  }

  lemma {:induction false} LastCutBounds(window: seq<byte>)
    ensures LastCut(window) <= |window|
  {
  }

  lemma {:induction false} HostHolesBelowFloor(h: Host)
    requires HostOk(h)
    ensures HolesBelowFloor(h)
  {
  }

  /** Data whose start is not below the floor read afterwards has met no hole. */
  lemma {:induction false} RecheckedIsTrue(data: seq<byte>, start: nat, len: nat, newestLen: nat, h: Host, k: Host)
    requires TrueAbove(data, start, h) && Evolves(h, k) && HolesBelowFloor(k)
    requires start + |data| == len <= newestLen && len <= |k.journal|
    requires Min(PublishedFloor(k), newestLen) <= start
    ensures data == k.journal[start..len]
  {
  }

  lemma {:induction false} FloorStaysTransparent(h: Host, k: Host, epoch: nat, floor: nat)
    requires HostOk(h) && Evolves(h, k)
    requires (floor == PublishedFloor(h) && epoch == h.publishedEpoch) || epoch == floor == 0
    ensures epoch <= floor <= |k.journal| && TransparentFloor(k.journal, epoch, floor)
  {
    if floor == PublishedFloor(h) && epoch == h.publishedEpoch {
      var more := k.journal[|h.journal|..];
      assert k.journal == h.journal + more;
      TransparentFloorExtends(h.journal, more, epoch, floor);
    }
  }
}
