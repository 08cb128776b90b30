/**
  The session Host's side of the journal: it appends output, flushes it to
  `output.bin`, and trims the front by publishing a floor in
  `output-retention.json` and then punching holes below it. Every step here can
  fall between any two steps of an attached client.
 */
module HostJournal {
  import opened Bytes
  import opened VtScanner
  import opened ReplayAlignment
  import Utf8Framing
  import opened Wrappers

  const CONTROL_SLACK: nat := 64 * 1024

  // ------------------------------------------------------------------
  // Choosing a floor (safe_output_retention_boundary).
  // ------------------------------------------------------------------

  /** A floor, and whether it had to be cut inside a control string. */
  datatype Floor = Floor(at: nat, forced: bool)

  /** Like the client's scan, but in Ground every byte that does not continue a
      character is a cut. */
  function FloorCut(s: ScanState, b: byte, i: nat, cut: nat): (next: nat) {
    if EndsUnit(s, b) then i + 1
    else if (b == ESC && RestartsOnEscape(s)) || (s.Ground? && !IsContinuation(b)) then i
    else cut
  }

  function FloorCutUpTo(j: seq<byte>, safeStart: nat, n: nat): (cut: nat)
    requires safeStart <= n <= |j|
    ensures safeStart <= cut <= n
    decreases n
  {
    if n == safeStart then safeStart
    else FloorCut(StateAt(j, safeStart, n - 1), j[n - 1], n - 1, FloorCutUpTo(j, safeStart, n - 1))
  }

  /** The last byte at or before `p`, not below `low`, that begins a character. */
  function CharacterStartBefore(j: seq<byte>, low: nat, p: nat): (at: nat)
    requires low <= p < |j|
    ensures low <= at <= p
    ensures forall i :: at < i <= p ==> IsContinuation(j[i])
    ensures at == low || !IsContinuation(j[at])
  {
    if p == low || !IsContinuation(j[p]) then p else CharacterStartBefore(j, low, p - 1)
  }

  /** Where to cut when an unterminated control string leaves no cut nearby. */
  function ForcedFloor(j: seq<byte>, safeStart: nat, desired: nat): (at: nat)
    requires safeStart <= desired < |j|
    ensures safeStart <= at <= desired
  {
    var at := CharacterStartBefore(j, Max(SaturatingSub(desired, 3), safeStart), desired);
    if IsContinuation(j[at]) then desired else at
  }

  function RetentionBoundary(j: seq<byte>, safeStart: nat, desired: nat): (floor: Floor)
    requires desired < |j|
    ensures safeStart <= floor.at <= Max(safeStart, desired)
  {
    if desired <= safeStart then Floor(safeStart, false)
    else
      var cut := FloorCutUpTo(j, safeStart, desired);
      if desired - cut <= CONTROL_SLACK then Floor(cut, false)
      else Floor(ForcedFloor(j, safeStart, desired), true)
  }

  /** Offset `c` can be cut at: something ended there, an ESC opens there, or a byte that
      does not continue a character stands there in Ground. */
  predicate IsFloorCut(j: seq<byte>, safeStart: nat, n: nat, c: nat)
    requires safeStart <= c <= n <= |j|
  {
    || c == safeStart
    || EndsUnit(StateAt(j, safeStart, c - 1), j[c - 1])
    || (c < n && var s := StateAt(j, safeStart, c);
                 (j[c] == ESC && RestartsOnEscape(s)) || (s.Ground? && !IsContinuation(j[c])))
  }

  /** The floor scan settles on the greatest cut. */
  lemma {:induction false} FloorCutIsGreatest(j: seq<byte>, safeStart: nat, n: nat)
    requires safeStart <= n <= |j|
    ensures IsFloorCut(j, safeStart, n, FloorCutUpTo(j, safeStart, n))
    ensures forall c :: FloorCutUpTo(j, safeStart, n) < c <= n ==> !IsFloorCut(j, safeStart, n, c)
    decreases n
  {
    hide StateAt, EndsUnit;
    if n > safeStart {
      FloorCutIsGreatest(j, safeStart, n - 1);
      forall c | FloorCutUpTo(j, safeStart, n) < c < n ensures !IsFloorCut(j, safeStart, n, c) {
        assert !IsFloorCut(j, safeStart, n - 1, c);
      }
    }
  }

  /** Every cut the floor scan settles on is transparent to the parser. */
  lemma {:induction false} FloorCutTransparent(j: seq<byte>, safeStart: nat, n: nat)
    requires safeStart <= n <= |j|
    ensures
      var cut := FloorCutUpTo(j, safeStart, n);
      || StateAt(j, safeStart, cut).Ground?
      || (cut < n && j[cut] == ESC && RestartsOnEscape(StateAt(j, safeStart, cut)))
    decreases n
  {
    hide StateAt;
    if n > safeStart {
      FloorCutTransparent(j, safeStart, n - 1);
      StateStep(j, safeStart, n - 1);
    } else {
      ScanFromNothing(j, safeStart);
    }
  }

  lemma {:induction false} ScanFromNothing(j: seq<byte>, at: nat)
    requires at <= |j|
    ensures StateAt(j, at, at) == Ground
  {
  }

  lemma {:induction false} UnforcedFloorTransparent(j: seq<byte>, safeStart: nat, desired: nat)
    requires safeStart <= desired < |j| && !RetentionBoundary(j, safeStart, desired).forced
    ensures TransparentFloor(j, safeStart, RetentionBoundary(j, safeStart, desired).at)
  {
    var floor := RetentionBoundary(j, safeStart, desired).at;
    if safeStart < desired {
      FloorCutTransparent(j, safeStart, desired);
      forall x | floor < x <= |j|
        ensures Scan(Ground, j[floor..x]) == Scan(Ground, j[safeStart..x])
      {
        ScanSplit(Ground, j, safeStart, floor, x);
        TransparentCutScan(StateAt(j, safeStart, floor), j[floor..x]);
      }
    }
  }

  /** Transparency is transitive and survives further output. */
  lemma {:induction false} TransparentFloorsCompose(j: seq<byte>, a: nat, b: nat, c: nat)
    requires a <= b <= c <= |j| && TransparentFloor(j, a, b) && TransparentFloor(j, b, c)
    ensures TransparentFloor(j, a, c)
  {
  }

  lemma {:induction false} TransparentFloorExtends(j: seq<byte>, more: seq<byte>, anchor: nat, floor: nat)
    requires anchor <= floor <= |j| && TransparentFloor(j, anchor, floor)
    requires floor < |j| || anchor == floor
    ensures TransparentFloor(j + more, anchor, floor)
  {
    var all := j + more;
    hide Scan;
    forall x | floor < x <= |all| && anchor < floor
      ensures Scan(Ground, all[floor..x]) == Scan(Ground, all[anchor..x])
    {
      if x <= |j| {
        assert all[floor..x] == j[floor..x] && all[anchor..x] == j[anchor..x];
      } else {
        assert all[floor..|j|] == j[floor..|j|] && all[anchor..|j|] == j[anchor..|j|];
        ScanSplit(Ground, all, floor, |j|, x);
        ScanSplit(Ground, all, anchor, |j|, x);
      }
    }
  }

  /** A forced floor never splits a character of a well-formed journal. */
  lemma {:induction false} ForcedFloorKeepsCharacters(j: seq<byte>, safeStart: nat, desired: nat)
    requires safeStart <= desired < |j| && RetentionBoundary(j, safeStart, desired).forced
    requires Utf8Framing.WellFormed(j)
    ensures Utf8Framing.CharBoundary(j, RetentionBoundary(j, safeStart, desired).at)
  {
    hide Utf8Framing.CharBoundary, Utf8Framing.WellFormed;
    var low := desired - 3;
    FourBytesHoldStart(j, low);
    Utf8Framing.BoundaryIffNotContinuation(j, ForcedFloor(j, safeStart, desired));
  }

  /** Four continuation bytes in a row are not UTF-8. */
  lemma {:induction false} FourBytesHoldStart(j: seq<byte>, p: nat)
    requires Utf8Framing.WellFormed(j) && p + 3 < |j|
    ensures exists i :: p <= i <= p + 3 && !IsContinuation(j[i])
    decreases |j|
  {
    var n :| 0 < n <= |j| && Utf8Framing.IsChar(j[..n]) && Utf8Framing.WellFormed(j[n..]);
    if p >= n {
      FourBytesHoldStart(j[n..], p - n);
      var i :| p - n <= i <= p - n + 3 && !IsContinuation(j[n..][i]);
      assert !IsContinuation(j[n + i]);
    } else if p == 0 {
      Utf8Framing.CharShape(j, n, 0);
    } else {
      var m :| 0 < m <= |j[n..]| && Utf8Framing.IsChar(j[n..][..m]) && Utf8Framing.WellFormed(j[n..][m..]);
      Utf8Framing.CharShape(j[n..], m, 0);
      assert n <= 4 && !IsContinuation(j[n]);
    }
  }

  /** The ESC at `p` opens a sequence, a byte outside ASCII follows it, and from there to the
      wanted floor there are only continuation bytes. */
  predicate IsWideEscapeBefore(j: seq<byte>, safeStart: nat, desired: nat, p: nat)
    requires desired <= |j|
  {
    && safeStart <= p && p + 1 < desired
    && IsOpening(j, safeStart, p) && !IsAscii(j[p + 1])
    && forall i :: p + 2 <= i < desired ==> IsContinuation(j[i])
  }

  /**
    In a well-formed journal the new floor splits a character in exactly two situations:
    the old floor stood inside one and nothing but its bytes lie before the wanted floor,
    or an ESC that opens a sequence is followed by a byte outside ASCII and the wanted floor
    lies within that byte's character.
   */
  lemma {:induction false} FloorSplitsCharacter(j: seq<byte>, safeStart: nat, desired: nat)
    requires safeStart < |j| && desired < |j| && Utf8Framing.WellFormed(j)
    ensures !Utf8Framing.CharBoundary(j, RetentionBoundary(j, safeStart, desired).at) <==>
            || (IsContinuation(j[safeStart]) && forall i :: safeStart <= i < desired ==> IsContinuation(j[i]))
            || exists p: nat :: IsWideEscapeBefore(j, safeStart, desired, p)
  {
    hide Utf8Framing.CharBoundary, Utf8Framing.WellFormed, StateAt, FloorCutUpTo, ForcedFloor;
    var floor := RetentionBoundary(j, safeStart, desired);
    Utf8Framing.BoundaryIffNotContinuation(j, floor.at);
    if safeStart < desired {
      var cut := FloorCutUpTo(j, safeStart, desired);
      if IsContinuation(j[safeStart]) && forall i :: safeStart <= i < desired ==> IsContinuation(j[i]) {
        OnlyContinuations(j, safeStart, desired);
        FewContinuations(j, safeStart, desired);
      }
      if p: nat :| IsWideEscapeBefore(j, safeStart, desired, p) {
        WideEscapeIsFloorCut(j, safeStart, desired, p);
        FewContinuations(j, p + 2, desired);
        WideEscapeContinues(j, p);
      }
      if floor.forced {
        ForcedFloorKeepsCharacters(j, safeStart, desired);
      } else if IsContinuation(j[cut]) {
        SplittingCut(j, safeStart, desired);
      }
    }
  }

  /** A well-formed journal has at most three continuation bytes in a row. */
  lemma {:induction false} FewContinuations(j: seq<byte>, a: nat, b: nat)
    requires Utf8Framing.WellFormed(j) && a <= b <= |j|
    requires forall i :: a <= i < b ==> IsContinuation(j[i])
    ensures b - a <= 3
  {
    hide Utf8Framing.WellFormed;
    if b - a > 3 {
      FourBytesHoldStart(j, a);
    }
  }

  lemma {:induction false} OnlyContinuations(j: seq<byte>, safeStart: nat, n: nat)
    requires safeStart <= n <= |j| && forall i :: safeStart <= i < n ==> IsContinuation(j[i])
    ensures FloorCutUpTo(j, safeStart, n) == safeStart && StateAt(j, safeStart, n).Ground?
    decreases n
  {
    hide StateAt;
    if n > safeStart {
      OnlyContinuations(j, safeStart, n - 1);
      StateStep(j, safeStart, n - 1);
    } else {
      ScanFromNothing(j, safeStart);
    }
  }

  lemma {:induction false} WideEscapeIsFloorCut(j: seq<byte>, safeStart: nat, n: nat, p: nat)
    requires n <= |j| && IsWideEscapeBefore(j, safeStart, n, p)
    ensures FloorCutUpTo(j, safeStart, n) == p + 2 && StateAt(j, safeStart, n).Ground?
    decreases n
  {
    hide StateAt;
    StateStep(j, safeStart, n - 1);
    if n > p + 2 {
      WideEscapeIsFloorCut(j, safeStart, n - 1, p);
    } else {
      StateStep(j, safeStart, p);
    }
  }

  /** A cut inside a character comes from one of the two situations. */
  lemma {:induction false} SplittingCut(j: seq<byte>, safeStart: nat, desired: nat)
    requires safeStart < desired < |j| && Utf8Framing.WellFormed(j)
    requires IsContinuation(j[FloorCutUpTo(j, safeStart, desired)])
    ensures || (forall i :: safeStart <= i < desired ==> IsContinuation(j[i]))
            || exists p: nat :: IsWideEscapeBefore(j, safeStart, desired, p)
  {
    hide Utf8Framing.WellFormed, Utf8Framing.CharBoundary, StateAt, FloorCutUpTo;
    var cut := FloorCutUpTo(j, safeStart, desired);
    FloorCutIsGreatest(j, safeStart, desired);
    if cut == safeStart {
      ScanFromNothing(j, safeStart);
      ContinuationsUpTo(j, safeStart, desired, cut, desired);
    } else {
      var s, b := StateAt(j, safeStart, cut - 1), j[cut - 1];
      StateStep(j, safeStart, cut - 1);
      ContinuationsUpTo(j, safeStart, desired, cut, desired);
      if IsAscii(b) {
        Utf8Framing.AsciiEndsCharacter(j, cut - 1);
        Utf8Framing.BoundaryIffNotContinuation(j, cut);
        assert false;
      }
      if !s.Escape? {
        EndsUnitIsAscii(s, b);
        assert false;
      }
      EscapeStateFollowsEscape(j, safeStart, cut - 1);
      StateStep(j, safeStart, cut - 2);
      assert IsWideEscapeBefore(j, safeStart, desired, cut - 2);
    }
  }

  /** After the last cut, read in Ground, only continuation bytes follow. */
  lemma {:induction false} ContinuationsUpTo(j: seq<byte>, safeStart: nat, n: nat, cut: nat, i: nat)
    requires safeStart <= cut <= i <= n <= |j| && StateAt(j, safeStart, cut).Ground?
    requires cut < |j| && IsContinuation(j[cut])
    requires forall c :: cut < c <= n ==> !IsFloorCut(j, safeStart, n, c)
    ensures StateAt(j, safeStart, i).Ground? && forall k :: cut <= k < i ==> IsContinuation(j[k])
    decreases i
  {
    hide StateAt;
    if i > cut {
      ContinuationsUpTo(j, safeStart, n, cut, i - 1);
      StateStep(j, safeStart, i - 1);
      assert i - 1 > cut ==> !IsFloorCut(j, safeStart, n, i - 1);
    }
  }

  /** ESC followed by `e` acute: the floor falls between the two bytes of the letter. */
  lemma {:induction false} FloorSplitsWideEscape()
    ensures
      var j: seq<byte> := [ESC, 0xc3, 0xa9];
      && Utf8Framing.WellFormed(j)
      && RetentionBoundary(j, 0, 2) == Floor(2, false)
      && !Utf8Framing.CharBoundary(j, 2)
  {
    var j: seq<byte> := [ESC, 0xc3, 0xa9];
    WideEscapeIsSplit();
    hide StateAt;
    ScanFromNothing(j, 0);
    assert IsWideEscapeBefore(j, 0, 2, 0);
    WideEscapeIsFloorCut(j, 0, 2, 0);
  }

  // ------------------------------------------------------------------
  // State and steps.
  // ------------------------------------------------------------------

  /** `output-retention.json` as a reader finds it. */
  datatype Sidecar = Missing | Malformed | Published(version: nat, retainedFrom: nat)

  /** The floor a reader takes from the sidecar, given the file length it saw. */
  function RetainedFromAtLen(sidecar: Sidecar, len: nat): (floor: nat) {
    if sidecar.Published? && sidecar.version == 1 then Min(sidecar.retainedFrom, len) else 0
  }

  /**
    - `journal`: every byte the workload has produced; the live stream carries these
    - `created`, `flushed`: whether `output.bin` exists, and its length
    - `sidecar`: the published floor
    - `retainedFrom`: the writer's own floor
    - `pending`: a floor published but not yet punched up to
    - `punched`: bytes below this may have been deallocated
    - `epoch`, `publishedEpoch`: where the terminal stream the writer's floor and the
      published floor belong to begins: 0, or the last floor cut inside a control
      string
    - `disabled`: trimming has been given up
   */
  datatype Host = Host(
    journal: seq<byte>,
    created: bool,
    flushed: nat,
    sidecar: Sidecar,
    retainedFrom: nat,
    pending: Option<Floor>,
    punched: nat,
    epoch: nat,
    publishedEpoch: nat,
    disabled: bool)

  datatype HostStep =
    | Create
    | Append(bytes: seq<byte>)
    | Flush(count: nat)
    | PublishFloor(desired: nat, block: nat)
    | Punch(block: nat)
    | PunchFails(restored: bool)

  /** Filesystems deallocate whole blocks only. */
  function PunchEnd(floor: nat, block: nat): (end: nat)
    requires block > 0
    ensures end <= floor
  {
    floor - floor % block
  }

  /** One Host step; a step that is not enabled changes nothing. */
  function Apply(h: Host, step: HostStep): (k: Host) {
    match step
    case Create => h.(created := true)
    case Append(bytes) => h.(journal := h.journal + bytes)
    case Flush(count) =>
      if h.created && h.pending.None? && h.flushed + count <= |h.journal|
      then h.(flushed := h.flushed + count) else h
    case PublishFloor(desired, block) =>
      if h.disabled || h.pending.Some? || h.flushed <= desired || |h.journal| < h.flushed || block == 0
      then h
      else
        var next := RetentionBoundary(h.journal, h.retainedFrom, desired);
        if next.at <= h.retainedFrom || PunchEnd(next.at, block) <= PunchEnd(h.retainedFrom, block)
        then h
        else h.(sidecar := Published(1, next.at), pending := Some(next),
                publishedEpoch := if next.forced then next.at else h.epoch)
    case Punch(block) =>
      if h.pending.None? || block == 0 then h
      else
        var next := h.pending.value.at;
        h.(punched := Max(h.punched, PunchEnd(next, block)), retainedFrom := next, pending := None,
           epoch := h.publishedEpoch)
    case PunchFails(restored) =>
      if h.pending.None? then h
      else if restored then
        h.(pending := None, disabled := true, sidecar := Published(1, h.retainedFrom),
           publishedEpoch := h.epoch)
      else h.(pending := None, disabled := true)
  }

  function Run(h: Host, steps: seq<HostStep>): (k: Host) {
    if steps == [] then h else Apply(Run(h, steps[..|steps| - 1]), steps[|steps| - 1])
  }

  /** The floor now in the sidecar, before any clamping. */
  function PublishedFloor(h: Host): (floor: nat) {
    if h.sidecar.Published? && h.sidecar.version == 1 then h.sidecar.retainedFrom else 0
  }

  // ------------------------------------------------------------------
  // What every run keeps.
  // ------------------------------------------------------------------

  /** No reader that respects the published floor can meet a hole, and the floor is
      a point of the file. */
  ghost predicate HolesBelowFloor(h: Host) {
    && h.punched <= h.retainedFrom <= PublishedFloor(h)
    && h.flushed <= |h.journal|
    && PublishedFloor(h) <= h.flushed
    && (h.retainedFrom < h.flushed || h.epoch == h.retainedFrom)
    && (PublishedFloor(h) < h.flushed || h.publishedEpoch == PublishedFloor(h))
    && (h.flushed > 0 ==> h.created)
    && (h.pending.Some? ==> PublishedFloor(h) == h.pending.value.at)
  }

  /** Both floors can be cut at without the parser noticing. */
  ghost predicate FloorsTransparent(h: Host) {
    && h.epoch <= h.retainedFrom <= |h.journal|
    && h.publishedEpoch <= PublishedFloor(h) <= |h.journal|
    && TransparentFloor(h.journal, h.epoch, h.retainedFrom)
    && TransparentFloor(h.journal, h.publishedEpoch, PublishedFloor(h))
  }

  ghost predicate HostOk(h: Host) {
    HolesBelowFloor(h) && FloorsTransparent(h)
  }

  /** What a reader may rely on between two of its own steps. */
  ghost predicate Evolves(h: Host, k: Host) {
    && h.journal <= k.journal
    && h.flushed <= k.flushed
    && h.punched <= k.punched
    && (h.created ==> k.created)
  }

  const FRESH_HOST: Host :=
    Host([], false, 0, Missing, 0, None, 0, 0, 0, false)

  lemma {:induction false} FreshHostOk()
    ensures HostOk(FRESH_HOST)
  {
  }

  /** A replacement Host: the file is a sparse gap up to the old high-water mark, that mark
      is the published floor, and a terminal stream begins there. `gap` stands for the
      offsets below it, which nobody may read. */
  function ReplacementHost(gap: seq<byte>): (h: Host) {
    Host(gap, true, |gap|, Published(1, |gap|), |gap|, None, |gap|, |gap|, |gap|, false)
  }

  lemma {:induction false} ReplacementHostOk(gap: seq<byte>)
    ensures HostOk(ReplacementHost(gap))
  {
  }

  lemma {:induction false} ApplyKeepsFloors(h: Host, step: HostStep)
    requires HostOk(h)
    ensures FloorsTransparent(Apply(h, step))
  {
    hide RetentionBoundary;
    match step
    case Append(bytes) =>
      TransparentFloorExtends(h.journal, bytes, h.publishedEpoch, PublishedFloor(h));
      TransparentFloorExtends(h.journal, bytes, h.epoch, h.retainedFrom);
    case PublishFloor(desired, block) =>
      var k := Apply(h, step);
      if k != h {
        var next := RetentionBoundary(h.journal, h.retainedFrom, desired);
        if !next.forced {
          UnforcedFloorTransparent(h.journal, h.retainedFrom, desired);
          TransparentFloorsCompose(h.journal, h.epoch, h.retainedFrom, next.at);
        }
      }
    case _ =>
  }

  lemma {:induction false} ApplyKeepsHoles(h: Host, step: HostStep)
    requires HolesBelowFloor(h)
    ensures HolesBelowFloor(Apply(h, step)) && Evolves(h, Apply(h, step))
  {
    hide RetentionBoundary;
  }

  /**
    In every run of the Host, holes stay below the published floor, the file and
    the journal only grow, and both floors stay transparent: the parser state of
    the whole stream since its last forced cut is the state of the stream read
    from the floor.
   */
  lemma {:induction false} RunKeepsOk(h: Host, steps: seq<HostStep>)
    requires HostOk(h)
    ensures HostOk(Run(h, steps)) && Evolves(h, Run(h, steps))
    decreases |steps|
  {
    if steps != [] {
      var before := Run(h, steps[..|steps| - 1]);
      RunKeepsOk(h, steps[..|steps| - 1]);
      ApplyKeepsFloors(before, steps[|steps| - 1]);
      ApplyKeepsHoles(before, steps[|steps| - 1]);
    }
  }
}
