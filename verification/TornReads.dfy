/**
  Two reads that pass every check of the tail reader and still start inside a control
  string: one whose window was torn by a punch, and one whose holes were all zeros but
  whose new floor was forced inside a control string.
 */
module TornReads {
  import opened Bytes
  import opened VtScanner
  import opened ReplayAlignment
  import opened HoledWindow
  import opened HostJournal
  import opened TailReader
  import opened Wrappers

  lemma {:induction false} RunSnoc(h: Host, steps: seq<HostStep>, step: HostStep)
    ensures Run(h, steps + [step]) == Apply(Run(h, steps), step)
  {
    assert (steps + [step])[..|steps|] == steps;
  }

  /** A Host that writes a journal, publishes a floor and punches below it. */
  function Trimming(j: seq<byte>, desired: nat, block: nat): (steps: seq<HostStep>) {
    [Create, Append(j), Flush(|j|), PublishFloor(desired, block), Punch(block)]
  }

  /** The Host those steps lead to. */
  function Trimmed(j: seq<byte>, floor: Floor, block: nat): (h: Host)
    requires block > 0
  {
    var epoch := if floor.forced then floor.at else 0;
    Host(j, true, |j|, Published(1, floor.at), floor.at, None, PunchEnd(floor.at, block), epoch, epoch, false)
  }

  lemma {:induction false} TrimmingTrims(j: seq<byte>, desired: nat, block: nat)
    requires desired < |j| && block > 0
    requires
      var floor := RetentionBoundary(j, 0, desired).at;
      0 < floor && 0 < PunchEnd(floor, block)
    ensures Run(FRESH_HOST, Trimming(j, desired, block)) == Trimmed(j, RetentionBoundary(j, 0, desired), block)
  {
    hide RetentionBoundary;
    var steps := Trimming(j, desired, block);
    RunSnoc(FRESH_HOST, steps[..4], steps[4]);
    RunSnoc(FRESH_HOST, steps[..3], steps[3]);
    RunSnoc(FRESH_HOST, steps[..2], steps[2]);
    RunSnoc(FRESH_HOST, steps[..1], steps[1]);
    RunSnoc(FRESH_HOST, steps[..0], steps[0]);
    assert steps == steps[..4] + [steps[4]] && steps[..4] == steps[..3] + [steps[3]];
    assert steps[..3] == steps[..2] + [steps[2]] && steps[..2] == steps[..1] + [steps[1]];
    assert steps[..1] == steps[..0] + [steps[0]] && [] + j == j;
    assert PunchEnd(0, block) == 0;
  }

  // ------------------------------------------------------------------
  // A torn window.
  // ------------------------------------------------------------------

  lemma {:induction false} TornFloor()
    ensures RetentionBoundary(TORN_JOURNAL, 0, 3) == Floor(3, false)
  {
    hide Scan;
    var j := TORN_JOURNAL;
    ScanFromNothing(j, 0);
    StateStep(j, 0, 0);
    StateStep(j, 0, 1);
    assert FloorCutUpTo(j, 0, 3) == 3;
  }

  /** The window is read while the Host punches up to the floor, and the byte that ends an
      OSC string is gone. */
  lemma {:induction false} TornReadMisaligns()
    ensures
      var h := Run(FRESH_HOST, Trimming(TORN_JOURNAL, 3, 1));
      var how := Accepted(6, 0, 0, TORN_WINDOW, 3);
      && HostOk(h) && h.journal == TORN_JOURNAL && PublishedFloor(h) == 3 && h.publishedEpoch == 0
      && AcceptedFrom(how, Tail(TORN_JOURNAL[6..7], 7), 1, h)
      && Scan(Ground, TORN_JOURNAL[6..7]) != Scan(Ground, TORN_JOURNAL[0..7])
  {
    hide Scan, LastCut, HostOk;
    TornFloor();
    TrimmingTrims(TORN_JOURNAL, 3, 1);
    FreshHostOk();
    RunKeepsOk(FRESH_HOST, Trimming(TORN_JOURNAL, 3, 1));
    TornWindowMisaligns();
    TornCut();
    hide RetentionBoundary;
  }

  // ------------------------------------------------------------------
  // A forced floor.
  // ------------------------------------------------------------------

  /** A DCS string longer than the Host's slack that goes on past its forced floor. */
  function ForcedJournal(fill: seq<byte>): (j: seq<byte>) {
    [ESC, 'P' as int] + fill + [ESC, ']' as int, ESC, 'P' as int, BEL, 'y' as int]
  }

  /** What the reader sees of it, every hole read as zero. */
  function ForcedWindow(fill: seq<byte>, zeros: seq<byte>): (window: seq<byte>)
    requires |fill| == CONTROL_SLACK
  {
    zeros + ForcedJournal(fill)[65536..65543]
  }

  predicate IsFiller(fill: seq<byte>) {
    |fill| == CONTROL_SLACK && forall i :: 0 <= i < |fill| ==> fill[i] == 'a' as int
  }

  predicate AreZeros(zeros: seq<byte>) {
    |zeros| == 16377 && forall i :: 0 <= i < |zeros| ==> zeros[i] == 0
  }

  lemma {:induction false} ForcedBytes(fill: seq<byte>)
    requires IsFiller(fill)
    ensures
      var j := ForcedJournal(fill);
      && |j| == 65544 && j[0] == ESC && j[1] == 'P' as int
      && (forall i :: 2 <= i < 65538 ==> j[i] == 'a' as int)
      && j[65538..65544] == [ESC, ']' as int, ESC, 'P' as int, BEL, 'y' as int]
      && j[65538] == ESC && j[65539] == ']' as int && j[65540] == ESC && j[65541] == 'P' as int
      && j[65542] == BEL && j[65543] == 'y' as int
  {
    var j := ForcedJournal(fill);
    var tail: seq<byte> := [ESC, ']' as int, ESC, 'P' as int, BEL, 'y' as int];
    assert j == ([ESC, 'P' as int] + fill) + tail;
    assert j[65538..65544] == tail;
    forall i | 2 <= i < 65538 ensures j[i] == 'a' as int {
      assert j[i] == fill[i - 2];
    }
  }

  /** Inside the string the Host's scan finds nothing to cut at. */
  lemma {:induction false} NoCutInString(j: seq<byte>, n: nat)
    requires 2 <= n <= 65540 <= |j| && j[0] == ESC && j[1] == 'P' as int
    requires forall i :: 2 <= i < 65538 ==> j[i] == 'a' as int
    requires j[65538] == ESC && j[65539] == ']' as int
    ensures StateAt(j, 0, n) == if n == 65539 then DcsEscape else Dcs
    ensures FloorCutUpTo(j, 0, n) == 0
    decreases n
  {
    hide StateAt, FloorCutUpTo;
    FloorCutStep(j, n - 1);
    StateStep(j, 0, n - 1);
    if n == 2 {
      FloorCutStep(j, 0);
      ScanFromNothing(j, 0);
      StateStep(j, 0, 0);
    } else {
      NoCutInString(j, n - 1);
    }
  }

  lemma {:induction false} FloorCutStep(j: seq<byte>, i: nat)
    requires i < |j|
    ensures FloorCutUpTo(j, 0, i + 1) == FloorCut(StateAt(j, 0, i), j[i], i, FloorCutUpTo(j, 0, i))
    ensures FloorCutUpTo(j, 0, 0) == 0
  {
  }

  lemma {:induction false} ForcedFloorAt(fill: seq<byte>)
    requires IsFiller(fill)
    ensures |ForcedJournal(fill)| == 65544
    ensures RetentionBoundary(ForcedJournal(fill), 0, 65540) == Floor(65540, true)
  {
    var j := ForcedJournal(fill);
    ForcedBytes(fill);
    hide ForcedJournal;
    NoCutInString(j, 65540);
    assert CharacterStartBefore(j, 65537, 65540) == 65540;
  }

  lemma {:induction false} ForcedTruth(fill: seq<byte>)
    requires IsFiller(fill)
    ensures
      var j := ForcedJournal(fill);
      && |j| == 65544 && Scan(Ground, j[65543..65544]) == Ground
      && Scan(Ground, j[65540..65544]) == Dcs && Scan(Ground, j[0..65544]) == Dcs
  {
    var j := ForcedJournal(fill);
    ForcedBytes(fill);
    hide ForcedJournal, Scan;
    NoCutInString(j, 65540);
    assert j[65540..65544] == [ESC, 'P' as int, BEL, 'y' as int];
    FourBytes(Ground, ESC, 'P' as int, BEL, 'y' as int);
    FourBytes(Dcs, ESC, 'P' as int, BEL, 'y' as int);
    ScanSplit(Ground, j, 0, 65540, 65544);
    ScanOne(Ground, j, 65543, 65543);
    assert j[65543..65543] == [];
    EmptyScan(Ground);
  }

  lemma {:induction false} ForcedWindowBytes(fill: seq<byte>, zeros: seq<byte>)
    requires IsFiller(fill) && AreZeros(zeros)
    ensures
      var j, window := ForcedJournal(fill), ForcedWindow(fill, zeros);
      && |window| == 16384
      && (forall i :: 0 <= i < 16377 ==> window[i] == 0)
      && WholeFrom(window, 49159, 65536, j)
      && window[16377] == window[16378] == 'a' as int && window[16379] == ESC && window[16380] == ']' as int
      && window[16381] == ESC && window[16382] == 'P' as int && window[16383] == BEL
  {
    ForcedBytes(fill);
    var j, window := ForcedJournal(fill), ForcedWindow(fill, zeros);
    hide ForcedJournal;
    var shown := j[65536..65543];
    assert window == zeros + shown;
    hide ForcedWindow;
    forall i | 16377 <= i < 16384 ensures window[i] == j[49159 + i] {
      assert window[i] == shown[i - 16377];
    }
  }

  lemma {:induction false} ForcedCut(window: seq<byte>)
    requires |window| == 16384 && forall i :: 0 <= i < 16377 ==> window[i] == 0
    requires window[16377] == window[16378] == 'a' as int && window[16379] == ESC && window[16380] == ']' as int
    requires window[16381] == ESC && window[16382] == 'P' as int && window[16383] == BEL
    ensures LastCut(window) == 16384
  {
    hide Scan, LastCut;
    assert LeadingContinuations(window) == 0 by { assert window[0] == 0; }
    hide LeadingContinuations;
    ScanFromNothing(window, 0);
    GroundStays(window, 0, 0, 16379);
    StateStep(window, 0, 16379);
    StateStep(window, 0, 16380);
    StateStep(window, 0, 16381);
    StateStep(window, 0, 16382);
    hide StateAt;
    LastCutIsGreatest(window);
    assert IsCut(window, 0, 16384);
  }

  /** The floor is forced to the middle of the string; the scan, in Ground where the true
      bytes begin, takes what stands before the floor for an OSC string. */
  lemma {:induction false} ForcedReadMisaligns(fill: seq<byte>, zeros: seq<byte>)
    requires IsFiller(fill) && AreZeros(zeros)
    ensures
      var j := ForcedJournal(fill);
      var h := Run(FRESH_HOST, Trimming(j, 65540, 4096));
      && |j| == 65544
      && HostOk(h) && h.journal == j && PublishedFloor(h) == h.publishedEpoch == 65540
      && AcceptedFrom(Accepted(65543, 0, 0, ForcedWindow(fill, zeros), 65536), Tail(j[65543..65544], 65544), 1, h)
      && Scan(Ground, j[65543..65544]) != Scan(Ground, j[65540..65544])
      && Scan(Ground, j[65543..65544]) != Scan(Ground, j[0..65544])
  {
    var j := ForcedJournal(fill);
    ForcedFloorAt(fill);
    ForcedTruth(fill);
    ForcedWindowBytes(fill, zeros);
    ForcedCut(ForcedWindow(fill, zeros));
    hide Scan, LastCut, HostOk, ForcedJournal, ForcedWindow, WholeFrom;
    TrimmingTrims(j, 65540, 4096);
    FreshHostOk();
    RunKeepsOk(FRESH_HOST, Trimming(j, 65540, 4096));
    hide RetentionBoundary;
  }
}
