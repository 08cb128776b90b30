/**
  The attach client's output side: it replays a tail, follows the Host's live
  stream, falls back to the journal on disk when the stream fails, and rebases when
  the retention floor passes its offset.
 */
module AttachClient {
  import opened Bytes
  import opened VtScanner
  import opened ReplayAlignment
  import opened HostJournal
  import opened HoledWindow
  import opened TailReader
  import opened TerminalReset
  import opened Wrappers

  const READ_BUFFER_BYTES: nat := 64 * 1024

  datatype StreamStatus = Running | Exited | Failed

  /** A Host VT snapshot: a screen for the journal up to `offset`. */
  datatype Snapshot = Snapshot(bytes: seq<byte>, offset: nat)

  /** What the terminal was last reset to: a snapshot, or a tail read from the
      journal as it then was. */
  datatype Base =
    | FromSnapshot(bytes: seq<byte>)
    | FromTail(modes: TerminalModes, how: Provenance, tail: Tail, at: Host)

  /** The bytes written between the reset and the first journal byte shown. */
  function Preface(base: Base): (bytes: seq<byte>) {
    match base
    case FromSnapshot(bytes) => bytes
    case FromTail(modes, _, _, _) => Preamble(modes)
  }

  /**
    Since the last reset, at `head`, standard output is the reset, the preface, and
    then exactly the journal's bytes from `from` up to `current`.
   */
  ghost predicate Shows(stdout: seq<byte>, head: nat, base: Base, from: nat, current: nat,
                        j: seq<byte>)
  {
    && head <= |stdout|
    && from <= current <= |j|
    && stdout[head..] == REPLAY_RESET + Preface(base) + j[from..current]
  }

  /** Between two moments the journal's next bytes were written, and nothing else. */
  ghost predicate WroteNext(before: seq<byte>, current: nat, stdout: seq<byte>, next: nat, j: seq<byte>) {
    current <= next <= |j| && stdout == before + j[current..next]
  }

  lemma {:induction false} WroteNothing(stdout: seq<byte>, current: nat, j: seq<byte>)
    requires current <= |j|
    ensures WroteNext(stdout, current, stdout, current, j)
  {
  }

  lemma {:induction false} WroteMore(first: seq<byte>, a: nat, second: seq<byte>, b: nat, third: seq<byte>, c: nat,
                                     j: seq<byte>, k: seq<byte>)
    requires WroteNext(first, a, second, b, j) && WroteNext(second, b, third, c, k) && j <= k
    ensures WroteNext(first, a, third, c, k)
  {
    assert j[a..b] == k[a..b];
    SliceJoin(k, a, b, c);
    assert (first + k[a..b]) + k[b..c] == first + (k[a..b] + k[b..c]);
  }

  /** The base is a tail of this journal that begins where showing began. */
  ghost predicate BaseOk(base: Base, from: nat, current: nat, replayBytes: nat, h: Host) {
    base.FromTail? ==>
      && HostOk(base.at)
      && Evolves(base.at, h)
      && base.tail.next <= current
      && from <= base.tail.next
      && (base.how.Accepted? ==>
            from == base.how.start && AcceptedFrom(base.how, base.tail, replayBytes, base.at))
  }

  lemma {:induction false} BaseOkLater(base: Base, from: nat, current: nat, next: nat, replayBytes: nat, h: Host)
    requires BaseOk(base, from, current, replayBytes, h) && current <= next
    ensures BaseOk(base, from, next, replayBytes, h)
  {
  }

  lemma {:induction false} ShowsMore(stdout: seq<byte>, head: nat, base: Base, from: nat, current: nat,
                  j: seq<byte>, data: seq<byte>, next: nat)
    requires Shows(stdout, head, base, from, current, j)
    requires current <= next <= |j| && data == j[current..next]
    ensures Shows(stdout + data, head, base, from, next, j)
  {
    assert (stdout + data)[head..] == stdout[head..] + data;
    SliceJoin(j, from, current, next);
    var front := REPLAY_RESET + Preface(base);
    assert (front + j[from..current]) + data == front + (j[from..current] + data);
  }

  lemma {:induction false} ShowsAfterReset(stdout: seq<byte>, base: Base, from: nat, current: nat, j: seq<byte>)
    requires from <= current <= |j|
    ensures Shows(stdout + REPLAY_RESET + Preface(base) + j[from..current], |stdout|, base, from,
                  current, j)
  {
    var front := REPLAY_RESET + Preface(base) + j[from..current];
    assert stdout + REPLAY_RESET + Preface(base) + j[from..current] == stdout + front;
  }

  lemma {:induction false} ShowsInLongerJournal(stdout: seq<byte>, head: nat, base: Base, from: nat, current: nat,
                             j: seq<byte>, k: seq<byte>)
    requires Shows(stdout, head, base, from, current, j) && j <= k
    ensures Shows(stdout, head, base, from, current, k)
  {
    assert j[from..current] == k[from..current];
  }

  // ------------------------------------------------------------------
  // What the terminal makes of it.
  // ------------------------------------------------------------------

  /**
    Whatever state the terminal was in before, after a tail rebase its parser is
    where reading the shown slice of the journal from Ground would put it.
   */
  lemma {:induction false} TerminalReadsShownSlice(s: ScanState, stdout: seq<byte>, head: nat, base: Base,
                                from: nat, current: nat, j: seq<byte>)
    requires Shows(stdout, head, base, from, current, j) && base.FromTail?
    ensures Scan(s, stdout) == Scan(Ground, j[from..current])
  {
    hide Scan, Preamble;
    ScanAppend(s, stdout[..head], stdout[head..]);
    assert stdout == stdout[..head] + stdout[head..];
    RebaseReadsReplayFromGround(Scan(s, stdout[..head]), base.modes, j[from..current]);
  }

  ghost predicate IsAccepted(base: Base, replayBytes: nat) {
    base.FromTail? && base.how.Accepted? && AcceptedFrom(base.how, base.tail, replayBytes, base.at)
  }

  /** The first offset the scan of an accepted tail read. */
  function ScanBegan(base: Base, replayBytes: nat): (at: nat)
    requires base.FromTail? && base.how.Accepted?
  {
    ScanStart(Desired(base.tail.next, replayBytes, base.how.floor), base.how.floor)
  }

  /**
    The window had no hole in it when it was read, and the parser is known where the scan
    began: in Ground, at a transparent floor, or past a CAN or SUB.
   */
  ghost predicate ScanKnown(base: Base, replayBytes: nat) {
    && IsAccepted(base, replayBytes)
    && (base.how.floor == 0 || base.how.floor < base.tail.next)
    && var desired := Desired(base.tail.next, replayBytes, base.how.floor);
    && base.how.punched <= ScanBegan(base, replayBytes)
    && ScanBeginsKnown(base.at.journal, base.how.epoch, desired, base.how.floor, base.tail.next)
  }

  /**
    The floor found at the recheck lies within the scanned bytes, at or before the start,
    and the scan was harmless before it. Nothing need be known about the parser where the
    scan began.
   */
  ghost predicate CaughtUp(base: Base, replayBytes: nat) {
    && IsAccepted(base, replayBytes) && HostOk(base.at)
    && base.how.floor < Desired(base.tail.next, replayBytes, base.how.floor)
    && var scanStart, floor := ScanBegan(base, replayBytes), PublishedFloor(base.at);
    && scanStart <= floor <= base.how.start
    && (base.at.publishedEpoch == floor || floor < base.tail.next)
    && floor <= scanStart + |base.how.window|
    && ScansHarmlessly(base.how.window, scanStart, base.how.punched, base.at.publishedEpoch, floor)
  }

  ghost predicate WellBased(base: Base, replayBytes: nat) {
    ScanKnown(base, replayBytes) || CaughtUp(base, replayBytes)
  }

  /** Where the terminal stream the replay belongs to begins. */
  ghost function EpochOf(base: Base, replayBytes: nat): (epoch: nat)
    requires WellBased(base, replayBytes)
  {
    if ScanKnown(base, replayBytes) then base.how.epoch else base.at.publishedEpoch
  }

  /** Nothing has to be known about the parser when the lookback reaches down to the
      floor and nothing above the floor had gone when it was read. */
  lemma {:induction false} WellBasedNearFloor(base: Base, replayBytes: nat)
    requires IsAccepted(base, replayBytes)
    requires base.how.floor == 0 || base.how.floor < base.tail.next
    requires Desired(base.tail.next, replayBytes, base.how.floor) <= base.how.floor + LOOKBACK
    requires base.how.punched <= base.how.floor
    ensures WellBased(base, replayBytes) && EpochOf(base, replayBytes) == base.how.epoch
  {
    hide TransparentFloor, WholeFrom, StartFrom, Scan, LeadingContinuations, CaughtUp;
    var desired := Desired(base.tail.next, replayBytes, base.how.floor);
    assert ScanStart(desired, base.how.floor) == base.how.floor;
    assert ScanKnown(base, replayBytes);
  }

  /** Nor when the Host has trimmed into the window meanwhile, what it deallocated was read
      as zeros, and the new floor was not forced past the first true byte of the window. */
  lemma {:induction false} WellBasedAfterTrim(base: Base, replayBytes: nat)
    requires IsAccepted(base, replayBytes) && HostOk(base.at)
    requires base.how.floor < Desired(base.tail.next, replayBytes, base.how.floor)
    requires ScanBegan(base, replayBytes) <= PublishedFloor(base.at) < base.tail.next
    requires base.at.publishedEpoch <= Max(ScanBegan(base, replayBytes), base.how.punched)
    requires forall i :: 0 <= i < |base.how.window| && ScanBegan(base, replayBytes) + i < base.how.punched ==>
      base.how.window[i] == 0
    ensures WellBased(base, replayBytes)
  {
    hide TransparentFloor, WholeFrom, Scan, FloorsTransparent, ScanKnown, LastCut;
    var window, scanStart, punched := base.how.window, ScanBegan(base, replayBytes), base.how.punched;
    ZerosAreHarmless(window, scanStart, punched);
    assert Origin(window, scanStart, punched) <= PublishedFloor(base.at) ==>
      ScansHarmlessly(window, scanStart, punched, base.at.publishedEpoch, PublishedFloor(base.at));
    assert CaughtUp(base, replayBytes);
  }

  /** At the rebase, reading the replay from Ground is reading the whole epoch. */
  lemma {:induction false} WellBasedResynchronises(base: Base, replayBytes: nat)
    requires WellBased(base, replayBytes)
    ensures EpochOf(base, replayBytes) <= base.how.start
    ensures Scan(Ground, base.at.journal[base.how.start..base.tail.next])
            == Scan(Ground, base.at.journal[EpochOf(base, replayBytes)..base.tail.next])
  {
    hide Scan, ScanBeginsKnown, TransparentFloor, WholeFrom, StartFrom;
    if ScanKnown(base, replayBytes) {
      var desired := Desired(base.tail.next, replayBytes, base.how.floor);
      AcceptedIsAligned(base.how, base.tail, replayBytes, base.at);
      TailStartResynchronises(base.at.journal, base.how.epoch, desired, base.how.floor, base.tail.next);
    } else {
      CaughtUpResynchronises(base, replayBytes);
    }
  }

  lemma {:induction false} CaughtUpResynchronises(base: Base, replayBytes: nat)
    requires CaughtUp(base, replayBytes)
    ensures base.at.publishedEpoch <= base.how.start
    ensures Scan(Ground, base.at.journal[base.how.start..base.tail.next])
            == Scan(Ground, base.at.journal[base.at.publishedEpoch..base.tail.next])
  {
    hide Scan, TransparentFloor, WholeFrom, ScansHarmlessly;
    var how, window, scanStart := base.how, base.how.window, ScanBegan(base, replayBytes);
    LastCutBounds(window);
    hide LastCut;
    StartPastFloorResynchronises(base.at.journal, base.at.publishedEpoch, PublishedFloor(base.at), window,
                                 scanStart, how.punched, base.tail.next);
  }

  /**
    The rebase theorem. When the last reset was well based, the terminal's parser is
    exactly where the journal itself, read from the beginning of its epoch, would put
    it — at the rebase and at every later offset, whatever state the terminal was in
    before.
   */
  lemma {:induction false} TerminalFollowsJournal(s: ScanState, stdout: seq<byte>, head: nat, base: Base,
                               from: nat, current: nat, replayBytes: nat, h: Host)
    requires Shows(stdout, head, base, from, current, h.journal)
    requires BaseOk(base, from, current, replayBytes, h)
    requires WellBased(base, replayBytes)
    ensures EpochOf(base, replayBytes) <= from
    ensures Scan(s, stdout) == Scan(Ground, h.journal[EpochOf(base, replayBytes)..current])
  {
    hide Scan, HostOk, ScanKnown, CaughtUp, EpochOf, TransparentFloor, WholeFrom, StartFrom;
    WellBasedIsAccepted(base, replayBytes);
    var epoch, end, j := EpochOf(base, replayBytes), base.tail.next, base.at.journal;
    WellBasedResynchronises(base, replayBytes);
    assert h.journal[from..end] == j[from..end];
    assert h.journal[epoch..end] == j[epoch..end];
    ScanSplit(Ground, h.journal, from, end, current);
    ScanSplit(Ground, h.journal, epoch, end, current);
    TerminalReadsShownSlice(s, stdout, head, base, from, current, h.journal);
  }

  lemma {:induction false} WellBasedIsAccepted(base: Base, replayBytes: nat)
    requires WellBased(base, replayBytes)
    ensures IsAccepted(base, replayBytes)
  {
  }

  /** An accepted read whose window was still whole starts where the true bytes say. */
  lemma {:induction false} AcceptedIsAligned(how: Provenance, tail: Tail, replayBytes: nat, h: Host)
    requires how.Accepted? && AcceptedFrom(how, tail, replayBytes, h)
    requires how.punched <= ScanStart(Desired(tail.next, replayBytes, how.floor), how.floor)
    ensures how.start
            == TailStart(h.journal, Desired(tail.next, replayBytes, how.floor), how.floor)
  {
    var desired := Desired(tail.next, replayBytes, how.floor);
    var scanStart := ScanStart(desired, how.floor);
    hide TransparentFloor, LastCut;
    if how.floor < desired {
      WindowSlice(how.window, scanStart, how.punched, h.journal, 0, |how.window|);
      assert how.window[0..|how.window|] == how.window;
      assert how.window == h.journal[scanStart..desired];
    }
  }

  // ------------------------------------------------------------------
  // The client.
  // ------------------------------------------------------------------

  /** A frame that carries the journal bytes it claims to. */
  ghost predicate TruthfulFrame(data: seq<byte>, next: nat, j: seq<byte>) {
    |data| <= next <= |j| && data == j[next - |data|..next]
  }

  /**
    What can happen between two looks at the client. The Host moves before every one
    of them.
    - `FrameArrives`: the stream thread receives the journal slice of `count` bytes
      at `start` (or as much of it as exists); `written` is whether standard output
      took it
    - `StreamCloses`: the stream ends or breaks
    - `MainWakes`: the main loop looks at its wake pipe
    - `DiskPump`: the main loop reads the journal; the kernel returns at most `limit`
      bytes
   */
  datatype Event =
    | FrameArrives(start: nat, count: nat, exited: bool, written: bool)
    | StreamCloses
    | MainWakes
    | DiskPump(limit: nat)

  class Client {
    const disk: SharedJournal
    const replayBytes: nat
    /** The modes the manifest lists at each moment. */
    const modesAt: nat -> TerminalModes

    var stdout: seq<byte>
    var offset: nat
    var useStream: bool
    var streamAlive: bool
    var streamStatus: StreamStatus
    var expectedOffset: nat
    var streamOffset: nat
    var woken: bool
    var ended: bool
    ghost var head: nat
    ghost var base: Base
    ghost var from: nat

    /** The offset just past the last byte shown. */
    function Current(): (c: nat)
      reads this
    {
      if useStream then streamOffset else offset
    }

    ghost predicate Valid()
      reads this, disk
    {
      && disk.Valid()
      && Shows(stdout, head, base, from, Current(), disk.host.journal)
      && BaseOk(base, from, Current(), replayBytes, disk.host)
      && (streamAlive ==> useStream && streamStatus.Running? && expectedOffset == streamOffset)
      && (useStream && !streamAlive && !ended ==> woken && !streamStatus.Running?)
    }

    constructor (disk: SharedJournal, replayBytes: nat, modesAt: nat -> TerminalModes)
      ensures this.disk == disk && this.replayBytes == replayBytes && this.modesAt == modesAt
      ensures stdout == [] && !ended
    {
      this.disk := disk;
      this.replayBytes := replayBytes;
      this.modesAt := modesAt;
      stdout := [];
      offset, useStream, streamAlive, streamStatus := 0, false, false, Running;
      expectedOffset, streamOffset, woken, ended := 0, 0, false, false;
    }

    /** The Host moves; what has been shown stays a slice of the journal. */
    method HostMoves()
      requires Valid()
      modifies disk
      ensures Valid() && Evolves(old(disk.host), disk.host)
      ensures Reaches(disk.schedule, old(disk.host), old(disk.clock), disk.host, disk.clock)
    {
      ghost var before := disk.host;
      disk.Interfere();
      Refresh(before);
    }

    /** Validity survives the Host. */
    lemma {:induction false} Refresh(before: Host)
      requires disk.Valid() && Evolves(before, disk.host)
      requires Shows(stdout, head, base, from, Current(), before.journal)
      requires BaseOk(base, from, Current(), replayBytes, before)
      ensures Shows(stdout, head, base, from, Current(), disk.host.journal)
      ensures BaseOk(base, from, Current(), replayBytes, disk.host)
    {
      ShowsInLongerJournal(stdout, head, base, from, Current(), before.journal, disk.host.journal);
    }

    /** Reset, preamble, replay: the terminal now shows the tail and nothing else. */
    method Rebase() returns (count: nat)
      requires disk.Valid()
      modifies this`stdout, this`offset, this`head, this`base, this`from, disk
      ensures disk.Valid() && Evolves(old(disk.host), disk.host)
      ensures Shows(stdout, head, base, from, offset, disk.host.journal)
      ensures BaseOk(base, from, offset, replayBytes, disk.host)
      ensures base.FromTail? && head == |old(stdout)|
      ensures stdout == old(stdout) + REPLAY_RESET + Preface(base) + base.tail.bytes
      ensures offset == base.tail.next >= old(disk.host.flushed)
      ensures count == |base.tail.bytes|
      ensures base.modes == modesAt(disk.clock)
      ensures base.how.Accepted? ==>
        && (base.how.start == base.how.floor || base.how.start + replayBytes <= offset)
        && offset <= base.how.start + replayBytes + LOOKBACK
      ensures Reaches(disk.schedule, old(disk.host), old(disk.clock), disk.host, disk.clock)
    {
      hide After, Reaches;
      var tail, how, attempts := ReadReplayTail(disk, replayBytes, RETRIES);
      var modes := modesAt(disk.clock);
      var preamble := RestoreSequence(modes);
      ghost var start := if how.Accepted? then how.start else tail.next;
      base := FromTail(modes, how, tail, disk.host);
      from := start;
      head := |stdout|;
      ShowsAfterReset(stdout, base, start, tail.next, disk.host.journal);
      stdout := stdout + REPLAY_RESET + preamble + tail.bytes;
      offset := tail.next;
      count := |tail.bytes|;
    }

    /** Reset, then the Host's own screen. */
    method ShowSnapshot(snapshot: Snapshot)
      requires snapshot.offset <= |disk.host.journal|
      modifies this`stdout, this`offset, this`head, this`base, this`from
      ensures Shows(stdout, head, base, from, offset, disk.host.journal)
      ensures base == FromSnapshot(snapshot.bytes) && offset == from == snapshot.offset && head == |old(stdout)|
      ensures stdout == old(stdout) + REPLAY_RESET + snapshot.bytes
    {
      head := |stdout|;
      base := FromSnapshot(snapshot.bytes);
      offset := snapshot.offset;
      from := offset;
      ShowsAfterReset(stdout, base, from, from, disk.host.journal);
      assert disk.host.journal[from..from] == [];
      stdout := stdout + REPLAY_RESET + snapshot.bytes;
      assert stdout + [] == stdout;
    }

    /**
      First attach: a snapshot of the journal up to its offset if the Host gave one,
      else a tail replay; then the live stream from there, if it connects.
     */
    method Attach(snapshot: Option<Snapshot>, connected: bool)
      requires disk.Valid() && !ended
      requires snapshot.Some? ==> snapshot.value.offset <= |disk.host.journal|
      modifies this, disk
      ensures Valid() && Evolves(old(disk.host), disk.host)
      ensures useStream == connected && !ended
      ensures snapshot.Some? ==> Current() == from == snapshot.value.offset
      ensures snapshot.Some? ==> stdout == old(stdout) + REPLAY_RESET + snapshot.value.bytes
      ensures snapshot.None? ==> base.FromTail? && Current() == base.tail.next
      ensures snapshot.None? ==>
        stdout == old(stdout) + REPLAY_RESET + Preface(base) + base.tail.bytes
      ensures snapshot.None? ==> base.modes == modesAt(disk.clock)
      ensures snapshot.None? && base.how.Accepted? ==>
        && (base.how.start == base.how.floor || base.how.start + replayBytes <= Current())
        && Current() <= base.how.start + replayBytes + LOOKBACK
    {
      hide HolesBelowFloor, FloorsTransparent, AcceptedFrom, Preamble, Preface, Shows, After, Reaches;
      if snapshot.Some? {
        ShowSnapshot(snapshot.value);
      } else {
        var _ := Rebase();
      }
      useStream, streamAlive, streamStatus := connected, connected, Running;
      expectedOffset, streamOffset, woken := offset, offset, false;
    }

    /** The stream thread gives up and wakes the main loop. */
    method StreamFails()
      requires Valid() && streamAlive
      modifies this`streamAlive, this`streamStatus, this`woken
      ensures Valid() && Current() == old(Current())
      ensures !streamAlive && streamStatus.Failed? && woken
    {
      streamStatus := Failed;
      woken := true;
      streamAlive := false;
    }

    /**
      One frame of the live stream. It is shown only when it begins exactly at the
      offset already shown; anything else ends the stream without a byte written.
     */
    method OnFrame(data: seq<byte>, next: nat, exited: bool, written: bool)
      requires Valid() && streamAlive && TruthfulFrame(data, next, disk.host.journal)
      modifies this`stdout, this`streamAlive, this`streamStatus, this`woken, this`expectedOffset,
               this`streamOffset
      ensures Valid()
      ensures old(Current()) <= Current()
      ensures next - |data| == old(Current()) && (written || data == [])
        ==> Current() == next && stdout == old(stdout) + data
            && (exited ==> streamStatus.Exited? && woken) && (!exited ==> streamAlive)
      ensures !(next - |data| == old(Current()) && (written || data == []))
        ==> Current() == old(Current()) && stdout == old(stdout) && streamStatus.Failed? && woken
    {
      hide HolesBelowFloor, FloorsTransparent, AcceptedFrom, Preface;
      var chunkStart := SaturatingSub(next, |data|);
      if chunkStart != expectedOffset {
        StreamFails();
        return;
      }
      if data != [] {
        if !written {
          StreamFails();
          return;
        }
        ShowsMore(stdout, head, base, from, streamOffset, disk.host.journal, data, next);
        stdout := stdout + data;
      } else {
        assert stdout + data == stdout;
      }
      expectedOffset := next;
      streamOffset := expectedOffset;
      if exited {
        streamStatus := Exited;
        woken := true;
        streamAlive := false;
      }
    }

    /** The stream delivers as much of a journal slice as exists. */
    method OnArrival(start: nat, count: nat, exited: bool, written: bool)
      requires Valid() && streamAlive
      modifies this`stdout, this`streamAlive, this`streamStatus, this`woken, this`expectedOffset,
               this`streamOffset
      ensures Valid()
      ensures WroteNext(old(stdout), old(Current()), stdout, Current(), disk.host.journal)
      ensures start == old(Current()) && start + count <= |disk.host.journal| && written ==> Current() == start + count
    {
      CurrentInJournal();
      WroteNothing(stdout, Current(), disk.host.journal);
      hide Shows, BaseOk, HostOk;
      var j := disk.host.journal;
      var first := Min(start, |j|);
      var next := Min(first + count, |j|);
      OnFrame(j[first..next], next, exited, written);
    }

    lemma {:induction false} CurrentInJournal()
      requires Valid()
      ensures Current() <= |disk.host.journal|
    {
    }

    /** The main loop finds the stream over: it stops, or takes the offset the stream
        reached and carries on from disk. */
    method OnWake()
      requires Valid() && !ended
      modifies this`useStream, this`offset, this`woken, this`ended
      ensures Valid() && Current() == old(Current())
      ensures old(useStream && streamStatus.Failed?) ==> !useStream && offset == old(streamOffset)
      ensures old(useStream && streamStatus.Exited?) ==> ended
    {
      if useStream && woken {
        woken := false;
        match streamStatus
        case Exited => ended := true;
        case Failed =>
          useStream := false;
          offset := streamOffset;
        case Running =>
      }
    }

    lemma {:induction false} OffsetInJournal()
      requires Valid() && !useStream
      ensures offset <= |disk.host.journal|
    {
    }

    /**
      One pass over the journal on disk. It shows nothing, or the journal's next bytes,
      or a fresh tail after a reset; it never steps back, and it moves forward whenever
      the file already held more than has been shown. It resets only if the published
      floor passed the offset meanwhile, and shows bytes without a reset only if the floor
      has not passed them.
     */
    method PumpNewOutput(limit: nat) returns (count: nat)
      requires Valid() && !useStream
      modifies this`stdout, this`offset, this`head, this`base, this`from, disk
      ensures Valid() && Evolves(old(disk.host), disk.host)
      ensures old(offset) <= offset
      ensures old(offset) < old(disk.host.flushed) && limit > 0 ==> old(offset) < offset
      ensures
        || (stdout == old(stdout) + disk.host.journal[old(offset)..offset]
            && count == offset - old(offset)
            && base == old(base) && from == old(from) && head == old(head)
            && (old(offset) < offset ==> PublishedFloor(disk.host) <= old(offset)))
        || (FloorPasses(disk.schedule, old(disk.host), old(disk.clock), disk.clock, old(offset))
            && base.FromTail? && head == |old(stdout)|
            && stdout == old(stdout) + REPLAY_RESET + Preface(base) + base.tail.bytes
            && count == |base.tail.bytes|)
      ensures Reaches(disk.schedule, old(disk.host), old(disk.clock), disk.host, disk.clock)
    {
      hide Shows, BaseOk, HolesBelowFloor, FloorsTransparent, Preface, After;
      ghost var h0 := disk.host;
      OffsetInJournal();
      var data, stale := ReadNext(limit);
      ghost var h1, at1 := disk.host, disk.clock;
      if stale {
        FloorInFile(disk.host);
        count := Rebase();
        ReachesTransitive(disk.schedule, h0, old(disk.clock), h1, at1, disk.host, disk.clock);
        return;
      }
      Refresh(h0);
      Show(data);
      count := |data|;
    }

    /** Length, floor, read, floor again: the journal's next bytes, unless the floor has
        passed the offset before or after the read. */
    method ReadNext(limit: nat) returns (data: seq<byte>, stale: bool)
      requires disk.Valid() && offset <= |disk.host.journal|
      modifies disk
      ensures disk.Valid() && Evolves(old(disk.host), disk.host)
      ensures stale ==> offset < PublishedFloor(disk.host)
      ensures !stale ==> offset + |data| <= |disk.host.journal|
      ensures !stale ==> data == disk.host.journal[offset..offset + |data|]
      ensures !stale && offset < old(disk.host.flushed) && limit > 0 ==> data != []
      ensures !stale && data != [] ==> PublishedFloor(disk.host) <= offset
      ensures Reaches(disk.schedule, old(disk.host), old(disk.clock), disk.host, disk.clock)
    {
      hide HolesBelowFloor, FloorsTransparent, After, Reaches;
      var len := disk.Length();
      ghost var h1, at1 := disk.host, disk.clock;
      var floor, seen := disk.OutputRetainedFrom();
      ghost var h2, at2 := disk.host, disk.clock;
      ReachesTransitive(disk.schedule, old(disk.host), old(disk.clock), h1, at1, h2, at2);
      if offset < floor {
        return [], true;
      }
      data, stale := [], false;
      if offset < len {
        data, stale := ReadRechecked(Min(limit, Min(len - offset, READ_BUFFER_BYTES)));
        ReachesTransitive(disk.schedule, old(disk.host), old(disk.clock), h2, at2, disk.host, disk.clock);
      }
    }

    /** Write the journal's next bytes. */
    method Show(data: seq<byte>)
      requires Valid() && !useStream && offset + |data| <= |disk.host.journal|
      requires data == disk.host.journal[offset..offset + |data|]
      modifies this`stdout, this`offset
      ensures Valid() && stdout == old(stdout) + data && offset == old(offset) + |data|
    {
      ShowsMore(stdout, head, base, from, offset, disk.host.journal, data, offset + |data|);
      BaseOkLater(base, from, offset, offset + |data|, replayBytes, disk.host);
      hide Shows, BaseOk;
      stdout := stdout + data;
      offset := offset + |data|;
    }

    /** Read `n` bytes at the offset and look at the floor again: unless it has passed
        the offset, the bytes are the journal's. */
    method ReadRechecked(n: nat) returns (data: seq<byte>, stale: bool)
      requires disk.Valid() && offset < disk.host.flushed && offset + n <= disk.host.flushed
      modifies disk
      ensures disk.Valid() && Evolves(old(disk.host), disk.host)
      ensures |data| == n
      ensures !stale ==> offset + n <= |disk.host.journal|
      ensures !stale ==> data == disk.host.journal[offset..offset + n]
      ensures stale ==> offset < PublishedFloor(disk.host)
      ensures !stale && n > 0 ==> PublishedFloor(disk.host) <= offset
      ensures Reaches(disk.schedule, old(disk.host), old(disk.clock), disk.host, disk.clock)
    {
      hide After, Reaches;
      if n == 0 {
        data := disk.ReadAt(offset, 0);
        return data, false;
      }
      var newestLen;
      data, stale, newestLen := ReadAndRecheck(disk, offset, offset + n);
    }

    /** The frame is the journal's next bytes, is complete, and is taken. */
    ghost predicate Delivers(event: Event)
      reads this, disk
    {
      && event.FrameArrives? && streamAlive
      && event.start == Current() && event.start + event.count <= |disk.host.journal|
      && event.written
    }

    /** The pump has something to read. */
    ghost predicate CanPump(event: Event)
      reads this, disk
    {
      event.DiskPump? && event.limit > 0 && !useStream && offset < disk.host.flushed
    }

    /** The stream thread, the main loop and the Host take one turn. Nothing but the
        journal's next bytes is written, unless the floor passes the offset during a pump. */
    method Handle(event: Event)
      requires Valid() && !ended
      modifies this, disk
      ensures Valid() && Evolves(old(disk.host), disk.host)
      ensures old(Current()) <= Current()
      ensures old(Delivers(event)) ==> Current() == event.start + event.count
      ensures old(CanPump(event)) ==> old(Current()) < Current()
      ensures event.StreamCloses? && old(streamAlive) ==> !streamAlive && streamStatus.Failed? && woken
      ensures event.MainWakes? && old(useStream && streamStatus.Failed?) ==> !useStream && offset == old(streamOffset)
      ensures Reaches(disk.schedule, old(disk.host), old(disk.clock), disk.host, disk.clock)
      ensures
        || (WroteNext(old(stdout), old(Current()), stdout, Current(), disk.host.journal)
            && base == old(base) && from == old(from) && head == old(head))
        || (event.DiskPump? && !old(useStream)
            && FloorPasses(disk.schedule, old(disk.host), old(disk.clock), disk.clock, old(Current())))
    {
      HostMoves();
      CurrentInJournal();
      hide Shows, BaseOk, HostOk, After, Reaches, FloorPasses;
      ghost var h1, at1 := disk.host, disk.clock;
      WroteNothing(stdout, Current(), disk.host.journal);
      match event
      case FrameArrives(start, count, exited, written) =>
        if streamAlive {
          OnArrival(start, count, exited, written);
        }
      case StreamCloses =>
        if streamAlive {
          StreamFails();
        }
      case MainWakes =>
        OnWake();
      case DiskPump(limit) =>
        if !useStream {
          var _ := PumpNewOutput(limit);
          ReachesTransitive(disk.schedule, old(disk.host), old(disk.clock), h1, at1, disk.host, disk.clock);
          if FloorPasses(disk.schedule, h1, at1, disk.clock, old(Current())) {
            FloorPassesEarlier(disk.schedule, old(disk.host), old(disk.clock), h1, at1, disk.clock, old(Current()),
                               old(Current()));
          }
        }
    }

    /** The terminal's parser is where the journal, read from the beginning of the epoch
        of the last rebase, would put it. */
    lemma {:induction false} TerminalAgrees(s: ScanState)
      requires Valid() && WellBased(base, replayBytes)
      ensures EpochOf(base, replayBytes) <= Current() <= |disk.host.journal|
      ensures Scan(s, stdout) == Scan(Ground, disk.host.journal[EpochOf(base, replayBytes)..Current()])
    {
      hide Scan, WellBased, EpochOf;
      TerminalFollowsJournal(s, stdout, head, base, from, Current(), replayBytes, disk.host);
    }

    /**
      Every interleaving. However the Host's appends, flushes, floors and punches fall
      among the client's frames, failures, wakes and reads, after any number of events
      standard output since the last reset is the reset, its preface, and one
      contiguous slice of the journal ending at the client's offset — no gap, no
      repeat across the switch from stream to disk, no deallocated byte — and the
      offset has not gone back. If the last rebase was well based, a terminal that was
      in any state before parses on as if it had read the journal itself. As long as the
      published floor does not pass the offset, nothing is reset and nothing but the
      journal's next bytes is written.
     */
    method Follow(events: seq<Event>)
      requires Valid()
      modifies this, disk
      ensures Valid() && Evolves(old(disk.host), disk.host)
      ensures old(Current()) <= Current() <= |disk.host.journal|
      ensures head <= |stdout| && from <= Current()
      ensures stdout[head..] == REPLAY_RESET + Preface(base) + disk.host.journal[from..Current()]
      ensures WellBased(base, replayBytes) ==>
        EpochOf(base, replayBytes) <= Current()
        && forall s :: Scan(s, stdout) == Scan(Ground, disk.host.journal[EpochOf(base, replayBytes)..Current()])
      ensures events != [] && !old(ended) && (old(CanPump(events[0])) || (old(Delivers(events[0])) && events[0].count > 0))
        ==> old(Current()) < Current()
      ensures Reaches(disk.schedule, old(disk.host), old(disk.clock), disk.host, disk.clock)
      ensures !FloorPasses(disk.schedule, old(disk.host), old(disk.clock), disk.clock, old(Current())) ==>
        && base == old(base) && from == old(from) && head == old(head)
        && stdout == old(stdout) + disk.host.journal[old(Current())..Current()]
    {
      CurrentInJournal();
      ReachesItself(disk.schedule, disk.host, disk.clock);
      WroteNothing(stdout, Current(), disk.host.journal);
      var i := 0;
      while i < |events| && !ended
        invariant 0 <= i <= |events|
        invariant Valid() && Evolves(old(disk.host), disk.host)
        invariant old(Current()) <= Current()
        invariant i == 0 ==> unchanged(this) && unchanged(disk)
        invariant i > 0 && !old(ended) && (old(CanPump(events[0])) || (old(Delivers(events[0])) && events[0].count > 0))
          ==> old(Current()) < Current()
        invariant Reaches(disk.schedule, old(disk.host), old(disk.clock), disk.host, disk.clock)
        invariant FloorPasses(disk.schedule, old(disk.host), old(disk.clock), disk.clock, old(Current()))
                  || (WroteNext(old(stdout), old(Current()), stdout, Current(), disk.host.journal)
                      && base == old(base) && from == old(from) && head == old(head))
      {
        hide Shows, BaseOk, HostOk, After, Reaches, FloorPasses, WroteNext;
        ghost var h, at, shown, current := disk.host, disk.clock, stdout, Current();
        Handle(events[i]);
        ReachesTransitive(disk.schedule, old(disk.host), old(disk.clock), h, at, disk.host, disk.clock);
        if FloorPasses(disk.schedule, old(disk.host), old(disk.clock), at, old(Current())) {
          FloorPassesLonger(disk.schedule, old(disk.host), old(disk.clock), at, disk.clock, old(Current()));
        } else if FloorPasses(disk.schedule, h, at, disk.clock, current) {
          FloorPassesEarlier(disk.schedule, old(disk.host), old(disk.clock), h, at, disk.clock, old(Current()), current);
        } else {
          WroteMore(old(stdout), old(Current()), shown, current, stdout, Current(), h.journal, disk.host.journal);
        }
        i := i + 1;
      }
      if WellBased(base, replayBytes) {
        hide WellBased, BaseOk, Scan, EpochOf;
        forall s ensures EpochOf(base, replayBytes) <= Current() <= |disk.host.journal|
                         && Scan(s, stdout) == Scan(Ground, disk.host.journal[EpochOf(base, replayBytes)..Current()])
        {
          TerminalAgrees(s);
        }
      }
    }
  }

  /**
    A whole session, from a Host that has produced nothing yet, or one that replaces
    another: the Host runs, the client attaches, and events follow in any order.
   */
  method Session(gap: seq<byte>, schedule: nat -> seq<HostStep>, holes: (nat, nat) -> byte, replayBytes: nat,
                 modesAt: nat -> TerminalModes, snapshot: Option<Snapshot>, connected: bool, events: seq<Event>)
    returns (client: Client)
    ensures fresh(client) && fresh(client.disk) && client.Valid()
    ensures client.disk.schedule == schedule && client.disk.holes == holes
    ensures client.replayBytes == replayBytes && client.modesAt == modesAt
    ensures client.head <= |client.stdout| && client.from <= client.Current() <= |client.disk.host.journal|
    ensures client.stdout[client.head..]
            == REPLAY_RESET + Preface(client.base) + client.disk.host.journal[client.from..client.Current()]
    ensures WellBased(client.base, replayBytes) ==>
      EpochOf(client.base, replayBytes) <= client.Current()
      && forall s :: Scan(s, client.stdout)
                     == Scan(Ground, client.disk.host.journal[EpochOf(client.base, replayBytes)..client.Current()])
  {
    hide *;
    FreshHostOk();
    ReplacementHostOk(gap);
    var host := if gap == [] then FRESH_HOST else ReplacementHost(gap);
    var disk := new SharedJournal(host, schedule, holes);
    disk.Interfere();
    client := new Client(disk, replayBytes, modesAt);
    var taken := if snapshot.Some? && snapshot.value.offset > |disk.host.journal| then None else snapshot;
    client.Attach(taken, connected);
    client.Follow(events);
  }
}
