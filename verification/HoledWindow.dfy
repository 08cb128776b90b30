/**
  Aligning in a window part of which was already deallocated when it was read, or whose
  first byte is not where a sequence begins. The scan starts from a guess; it does not
  matter once the scan has passed a floor at which a cut is invisible.
 */
module HoledWindow {
  import opened Bytes
  import opened VtScanner
  import opened ReplayAlignment

  predicate InString(s: ScanState) {
    s.Osc? || s.Dcs? || s.SosPmApc?
  }

  predicate InStringEscape(s: ScanState) {
    s.OscEscape? || s.DcsEscape? || s.SosPmApcEscape?
  }

  // ------------------------------------------------------------------
  // A guessed state beside the true one.
  // ------------------------------------------------------------------

  /** The guesses after which the scan may end a string that is still open. */
  predicate IsHarmful(guess: ScanState) {
    guess.Escape? || guess.Osc? || guess.OscEscape?
  }

  /** What holds of the true state and a guessed one from a harmless guess on. */
  predicate Bounded(truth: ScanState, guess: ScanState) {
    && (guess.Escape? ==> truth.Escape? || InString(truth) || InStringEscape(truth))
    && (guess.Osc? ==> InString(truth))
    && (guess.OscEscape? ==> InStringEscape(truth))
  }

  /** What holds of the two once the true state has been Ground: where the guess cuts, the
      truth may be cut. */
  predicate Follows(truth: ScanState, guess: ScanState) {
    match guess
    case Ground => truth.Ground?
    case Escape => truth.Escape?
    case EscapeIntermediate => truth.Ground? || truth.EscapeIntermediate?
    case Csi => truth.Ground? || truth.Csi?
    case Osc => truth.Osc?
    case OscEscape => truth.OscEscape?
    case Dcs => !InStringEscape(truth)
    case SosPmApc => !InStringEscape(truth)
    case DcsEscape => truth.Escape? || InStringEscape(truth)
    case SosPmApcEscape => truth.Escape? || InStringEscape(truth)
  }

  lemma {:induction false} BoundedStep(truth: ScanState, guess: ScanState, b: byte)
    requires Bounded(truth, guess)
    ensures Bounded(Step(truth, b), Step(guess, b))
  {
  }

  lemma {:induction false} FollowsStep(truth: ScanState, guess: ScanState, b: byte)
    requires Follows(truth, guess)
    ensures Follows(Step(truth, b), Step(guess, b))
  {
  }

  /** One byte past a point where the truth is Ground, the guess follows it. */
  lemma {:induction false} CatchesUp(guess: ScanState, b: byte)
    requires Bounded(Step(Ground, b), Step(guess, b))
    ensures Follows(Step(Ground, b), Step(guess, b))
  {
  }

  lemma {:induction false} BoundedScan(truth: ScanState, guess: ScanState, bytes: seq<byte>, a: nat, b: nat)
    requires a <= b <= |bytes| && Bounded(truth, guess)
    ensures Bounded(Scan(truth, bytes[a..b]), Scan(guess, bytes[a..b]))
    decreases b
  {
    if a < b {
      BoundedScan(truth, guess, bytes, a, b - 1);
      ScanOne(truth, bytes, a, b - 1);
      ScanOne(guess, bytes, a, b - 1);
      BoundedStep(Scan(truth, bytes[a..b - 1]), Scan(guess, bytes[a..b - 1]), bytes[b - 1]);
    } else {
      assert bytes[a..b] == [];
    }
  }

  lemma {:induction false} FollowsScan(truth: ScanState, guess: ScanState, bytes: seq<byte>, a: nat, b: nat)
    requires a <= b <= |bytes| && Follows(truth, guess)
    ensures Follows(Scan(truth, bytes[a..b]), Scan(guess, bytes[a..b]))
    decreases b
  {
    if a < b {
      FollowsScan(truth, guess, bytes, a, b - 1);
      ScanOne(truth, bytes, a, b - 1);
      ScanOne(guess, bytes, a, b - 1);
      FollowsStep(Scan(truth, bytes[a..b - 1]), Scan(guess, bytes[a..b - 1]), bytes[b - 1]);
    } else {
      assert bytes[a..b] == [];
    }
  }

  /** Past a floor, from any harmless guess before it, the scan follows the truth. */
  lemma {:induction false} FollowsPastFloor(j: seq<byte>, anchor: nat, floor: nat, origin: nat, guess: ScanState, x: nat)
    requires anchor <= origin <= floor < x <= |j| && TransparentFloor(j, anchor, floor) && !IsHarmful(guess)
    ensures Follows(Scan(Ground, j[floor..x]), Scan(guess, j[origin..x]))
  {
    var next := floor + 1;
    var truth := Scan(Ground, j[anchor..origin]);
    BoundedScan(truth, guess, j, origin, next);
    ScanSplit(Ground, j, anchor, origin, next);
    ScanOne(guess, j, origin, floor);
    ScanOne(Ground, j, floor, floor);
    assert j[floor..floor] == [];
    assert Scan(Ground, j[floor..next]) == Scan(Ground, j[anchor..next]);
    CatchesUp(Scan(guess, j[origin..floor]), j[floor]);
    FollowsScan(Scan(Ground, j[floor..next]), Scan(guess, j[origin..next]), j, next, x);
    ScanSplit(Ground, j, floor, next, x);
    ScanSplit(guess, j, origin, next, x);
  }

  // ------------------------------------------------------------------
  // The window.
  // ------------------------------------------------------------------

  /** From `whole` on the window holds the journal's bytes. */
  predicate WholeFrom(window: seq<byte>, scanStart: nat, whole: nat, j: seq<byte>) {
    && scanStart + |window| <= |j|
    && forall i :: 0 <= i < |window| && whole <= scanStart + i ==> window[i] == j[scanStart + i]
  }

  /** Where the scan first reads a byte of the journal. */
  function Origin(window: seq<byte>, scanStart: nat, whole: nat): (origin: nat) {
    Max(scanStart + LeadingContinuations(window), whole)
  }

  /** The state the scan has reached at `p`. */
  function GuessAt(window: seq<byte>, scanStart: nat, p: nat): (guess: ScanState)
    requires scanStart + LeadingContinuations(window) <= p <= scanStart + |window|
  {
    StateAt(window, LeadingContinuations(window), p - scanStart)
  }

  /**
    The scan is harmless before `floor`: the floor is among the continuation bytes it
    skips, or at some point up to the floor, at or past the first true byte and the
    beginning of the floor's epoch, it is not directly after an ESC or inside an OSC string.
   */
  predicate ScansHarmlessly(window: seq<byte>, scanStart: nat, whole: nat, anchor: nat, floor: nat)
    requires floor <= scanStart + |window|
  {
    || floor < scanStart + LeadingContinuations(window)
    || exists p: nat :: Max(Origin(window, scanStart, whole), anchor) <= p <= floor
                        && !IsHarmful(GuessAt(window, scanStart, p))
  }

  lemma {:induction false} WindowSlice(window: seq<byte>, scanStart: nat, whole: nat, j: seq<byte>, a: nat, b: nat)
    requires WholeFrom(window, scanStart, whole, j) && a <= b <= |window| && whole <= scanStart + a
    ensures window[a..b] == j[scanStart + a..scanStart + b]
  {
    var left, right := window[a..b], j[scanStart + a..scanStart + b];
    forall i | 0 <= i < b - a ensures left[i] == right[i] {
      assert left[i] == window[a + i] && right[i] == j[scanStart + a + i];
    }
  }

  lemma {:induction false} StateFrom(j: seq<byte>, window: seq<byte>, scanStart: nat, whole: nat, p: nat, i: nat)
    requires WholeFrom(window, scanStart, whole, j)
    requires Origin(window, scanStart, whole) <= p <= scanStart + i && i <= |window|
    ensures StateAt(window, LeadingContinuations(window), i) == Scan(GuessAt(window, scanStart, p), j[p..scanStart + i])
  {
    hide LeadingContinuations, Scan;
    ScanSplit(Ground, window, LeadingContinuations(window), p - scanStart, i);
    WindowSlice(window, scanStart, whole, j, p - scanStart, i);
  }

  /** At a cut past the floor the truth may be cut. */
  lemma {:induction false} CutPastFloor(j: seq<byte>, anchor: nat, floor: nat, window: seq<byte>, scanStart: nat,
                                        whole: nat, p: nat, cut: nat, rest: seq<byte>)
    requires WholeFrom(window, scanStart, whole, j)
    requires Origin(window, scanStart, whole) <= p && anchor <= p <= floor < scanStart + cut && cut <= |window|
    requires TransparentFloor(j, anchor, floor) && !IsHarmful(GuessAt(window, scanStart, p))
    requires IsCut(window, LeadingContinuations(window), cut)
    requires cut < |window| ==> rest != [] && rest[0] == window[cut]
    ensures TransparentCut(Scan(Ground, j[floor..scanStart + cut]), rest)
  {
    hide LeadingContinuations, Scan, TransparentFloor;
    StateFrom(j, window, scanStart, whole, p, cut);
    FollowsPastFloor(j, anchor, floor, p, GuessAt(window, scanStart, p), scanStart + cut);
    CutIsTransparent(window, LeadingContinuations(window), cut, rest);
  }

  /**
    A start at or past a transparent floor resynchronises the parser, whatever was known
    where the scan began and whatever the window's holes held, if the scan is harmless
    before the floor.
   */
  lemma {:induction false} StartPastFloorResynchronises(j: seq<byte>, anchor: nat, floor: nat, window: seq<byte>,
                                                        scanStart: nat, whole: nat, end: nat)
    requires WholeFrom(window, scanStart, whole, j)
    requires whole <= floor && scanStart <= floor <= scanStart + LastCut(window)
    requires anchor <= floor <= scanStart + |window| <= end <= |j| && TransparentFloor(j, anchor, floor)
    requires anchor == floor || floor < end
    requires ScansHarmlessly(window, scanStart, whole, anchor, floor)
    ensures
      var start := AlignedInWindow(window, scanStart, scanStart + |window|);
      floor <= start <= end && Scan(Ground, j[start..end]) == Scan(Ground, j[anchor..end])
  {
    hide LastCut, Scan, LeadingContinuations, IsCut, GuessAt;
    var lead, cut := LeadingContinuations(window), LastCut(window);
    var start := scanStart + cut;
    LastCutIsGreatest(window);
    assert Scan(Ground, j[floor..end]) == Scan(Ground, j[anchor..end]);
    if floor < start {
      assert cut < |window| ==> window[cut] == j[start];
      if floor < scanStart + lead {
        CutAfterContinuations(j, floor, window, scanStart, whole, cut, j[start..end]);
      } else {
        var p: nat :| Max(Origin(window, scanStart, whole), anchor) <= p <= floor
                      && !IsHarmful(GuessAt(window, scanStart, p));
        CutPastFloor(j, anchor, floor, window, scanStart, whole, p, cut, j[start..end]);
      }
      TransparentCutScan(Scan(Ground, j[floor..start]), j[start..end]);
      ScanSplit(Ground, j, floor, start, end);
    }
  }

  /** A floor among the continuation bytes the scan skips. */
  lemma {:induction false} CutAfterContinuations(j: seq<byte>, floor: nat, window: seq<byte>, scanStart: nat,
                                                 whole: nat, cut: nat, rest: seq<byte>)
    requires WholeFrom(window, scanStart, whole, j)
    requires whole <= floor && scanStart <= floor < scanStart + LeadingContinuations(window) <= scanStart + cut
    requires IsCut(window, LeadingContinuations(window), cut)
    requires cut < |window| ==> rest != [] && rest[0] == window[cut]
    ensures TransparentCut(Scan(Ground, j[floor..scanStart + cut]), rest)
  {
    hide Scan;
    var lead := LeadingContinuations(window);
    var first := scanStart + lead;
    forall i | floor <= i < first ensures IsContinuation(j[i]) {
      assert window[i - scanStart] == j[i];
    }
    ContinuationsStayGround(j, floor, first);
    ScanSplit(Ground, j, floor, first, scanStart + cut);
    WindowSlice(window, scanStart, whole, j, lead, cut);
    CutIsTransparent(window, lead, cut, rest);
  }

  // ------------------------------------------------------------------
  // Exactness.
  // ------------------------------------------------------------------

  /** `c` is a cut of a scan of `rest` that begins in `guess`. */
  predicate CutsFrom(guess: ScanState, rest: seq<byte>, c: nat) {
    && 0 < c <= |rest|
    && (EndsUnit(Scan(guess, rest[..c - 1]), rest[c - 1])
        || (c < |rest| && rest[c] == ESC && RestartsOnEscape(Scan(guess, rest[..c]))))
  }

  /** Every cut of a scan begun in `guess` is as good as one begun in Ground. */
  ghost predicate GuessIsSafe(guess: ScanState) {
    forall rest: seq<byte>, c: nat :: CutsFrom(guess, rest, c) ==> Scan(Ground, rest[c..]) == Scan(Ground, rest)
  }

  /** The harmful guesses are exactly the ones that can misalign a start at a floor. */
  lemma {:induction false} GuessSafeIff(guess: ScanState)
    ensures GuessIsSafe(guess) <==> !IsHarmful(guess)
  {
    if IsHarmful(guess) {
      HarmfulGuessMisaligns(guess);
    } else {
      forall rest: seq<byte>, c: nat | CutsFrom(guess, rest, c)
        ensures Scan(Ground, rest[c..]) == Scan(Ground, rest)
      {
        HarmlessCut(guess, rest, c);
      }
    }
  }

  lemma {:induction false} HarmlessCut(guess: ScanState, rest: seq<byte>, c: nat)
    requires !IsHarmful(guess) && CutsFrom(guess, rest, c)
    ensures Scan(Ground, rest[c..]) == Scan(Ground, rest)
  {
    hide Scan;
    FollowsPastFloor(rest, 0, 0, 0, guess, c);
    assert rest[0..c] == rest[..c];
    ScanOne(guess, rest, 0, c - 1);
    assert rest[0..c - 1] == rest[..c - 1];
    TransparentCutScan(Scan(Ground, rest[..c]), rest[c..]);
    ScanAppend(Ground, rest[..c], rest[c..]);
    assert rest == rest[..c] + rest[c..];
  }

  /** A byte that leaves each harmful guess inside an OSC string, then a DCS string with a
      BEL in it. */
  lemma {:induction false} HarmfulGuessMisaligns(guess: ScanState)
    requires IsHarmful(guess)
    ensures
      var rest: seq<byte> := [']' as int, ESC, 'P' as int, BEL];
      CutsFrom(guess, rest, 4) && Scan(Ground, rest[4..]) != Scan(Ground, rest)
  {
    var rest: seq<byte> := [']' as int, ESC, 'P' as int, BEL];
    FourBytes(guess, rest[0], rest[1], rest[2], rest[3]);
    FourBytes(Ground, rest[0], rest[1], rest[2], rest[3]);
    assert rest[..3] == [rest[0], rest[1], rest[2]] && rest[4..] == [];
  }

  lemma {:induction false} FourBytes(s: ScanState, a: byte, b: byte, c: byte, d: byte)
    ensures Scan(s, [a, b, c]) == Step(Step(Step(s, a), b), c)
    ensures Scan(s, [a, b, c, d]) == Step(Step(Step(Step(s, a), b), c), d)
  {
    var w := [a, b, c, d];
    ScanOne(s, w, 0, 0);
    ScanOne(s, w, 0, 1);
    ScanOne(s, w, 0, 2);
    ScanOne(s, w, 0, 3);
    assert w[0..0] == [] && w[0..3] == [a, b, c] && w[0..4] == w;
  }

  /** A window read as `hole` up to a floor, and truly after it, never gives a start past
      the floor that disagrees with the stream from the floor. */
  ghost predicate ReadsSafely(hole: seq<byte>) {
    forall rest: seq<byte>, n: nat :: n <= |rest| && |hole| <= LastCut(hole + rest[..n]) ==>
      Scan(Ground, rest[LastCut(hole + rest[..n]) - |hole|..]) == Scan(Ground, rest)
  }

  /** What was read before the floor is safe, whatever follows and however much of it is in
      the window, if and only if it does not leave the scan directly after an ESC or inside
      an OSC string at the floor. */
  lemma {:induction false} ReadsSafelyIff(hole: seq<byte>)
    ensures ReadsSafely(hole) <==> !IsHarmful(StateAt(hole, LeadingContinuations(hole), |hole|))
  {
    hide LastCut, Scan, LeadingContinuations;
    if IsHarmful(StateAt(hole, LeadingContinuations(hole), |hole|)) {
      HarmfulReadMisaligns(hole);
    } else {
      forall rest: seq<byte>, n: nat | n <= |rest| && |hole| <= LastCut(hole + rest[..n])
        ensures Scan(Ground, rest[LastCut(hole + rest[..n]) - |hole|..]) == Scan(Ground, rest)
      {
        HarmlessRead(hole, rest, n);
      }
    }
  }

  lemma {:induction false} HarmlessRead(hole: seq<byte>, rest: seq<byte>, n: nat)
    requires n <= |rest| && |hole| <= LastCut(hole + rest[..n])
    requires !IsHarmful(StateAt(hole, LeadingContinuations(hole), |hole|))
    ensures |hole| <= LastCut(hole + rest[..n]) <= |hole| + n
    ensures Scan(Ground, rest[LastCut(hole + rest[..n]) - |hole|..]) == Scan(Ground, rest)
  {
    hide LastCut, Scan;
    var j, window, floor := hole + rest, hole + rest[..n], |hole|;
    LeadingOfLonger(hole, rest[..n]);
    var lead := LeadingContinuations(window);
    if lead <= floor {
      assert window[lead..floor] == hole[lead..floor];
      StateOfSkipped(hole);
      assert !IsHarmful(GuessAt(window, 0, floor));
    }
    StartPastFloorResynchronises(j, floor, floor, window, 0, floor, |j|);
    var start := LastCut(window);
    assert j[start..|j|] == rest[start - floor..] && j[floor..|j|] == rest;
  }

  /** What follows matters to the skipped bytes only if all before it are skipped. */
  lemma {:induction false} LeadingOfLonger(a: seq<byte>, b: seq<byte>)
    ensures LeadingContinuations(a) < |a| ==> LeadingContinuations(a + b) == LeadingContinuations(a)
    ensures LeadingContinuations(a) == |a| ==> LeadingContinuations(a + b) >= |a|
  {
    var lead, all := LeadingContinuations(a), a + b;
    assert forall i :: 0 <= i < |a| ==> all[i] == a[i];
    if lead < |a| {
      assert !IsContinuation(all[lead]);
    }
  }

  lemma {:induction false} StateOfSkipped(hole: seq<byte>)
    ensures StateAt(hole, |hole|, |hole|) == Ground
  {
  }

  lemma {:induction false} HarmfulReadMisaligns(hole: seq<byte>)
    requires IsHarmful(StateAt(hole, LeadingContinuations(hole), |hole|))
    ensures !ReadsSafely(hole)
  {
    hide LastCut, Scan, LeadingContinuations;
    var rest: seq<byte> := [']' as int, ESC, 'P' as int, BEL];
    var window, lead := hole + rest[..4], LeadingContinuations(hole);
    StateOfSkipped(hole);
    LeadingOfLonger(hole, rest[..4]);
    var guess := StateAt(hole, lead, |hole|);
    HarmfulGuessMisaligns(guess);
    ScanSplit(Ground, window, lead, |hole|, |hole| + 3);
    assert window[lead..|hole|] == hole[lead..|hole|] && window[|hole|..|hole| + 3] == rest[..3];
    LastCutIsGreatest(window);
    assert IsCut(window, lead, |window|);
    assert rest[..4] == rest && LastCut(hole + rest[..4]) - |hole| == 4;
  }

  /** Deallocated blocks read as zeros, and zeros leave the scan in Ground. */
  lemma {:induction false} ZerosAreHarmless(window: seq<byte>, scanStart: nat, whole: nat)
    requires whole <= scanStart + |window|
    requires forall i :: 0 <= i < |window| && scanStart + i < whole ==> window[i] == 0
    ensures GuessAt(window, scanStart, Origin(window, scanStart, whole)).Ground?
  {
    var lead, origin := LeadingContinuations(window), Origin(window, scanStart, whole);
    assert window[lead..lead] == [];
    GroundStays(window, lead, lead, origin - scanStart);
  }

  const TORN_JOURNAL: seq<byte> := [ESC, ']' as int, BEL, ESC, 'P' as int, BEL, 'y' as int]
  const TORN_WINDOW: seq<byte> := [ESC, ']' as int, 0, ESC, 'P' as int, BEL]

  /** The OSC string is over at 3; a DCS string is open from 5 on. */
  lemma {:induction false} TornTruth()
    ensures TransparentFloor(TORN_JOURNAL, 0, 3)
    ensures Scan(Ground, TORN_JOURNAL[0..7]) == Dcs && Scan(Ground, TORN_JOURNAL[6..7]) == Ground
  {
    hide Scan;
    var j := TORN_JOURNAL;
    assert j[0..3] == [ESC, ']' as int, BEL];
    FourBytes(Ground, ESC, ']' as int, BEL, ESC);
    forall x | 3 < x <= |j| ensures Scan(Ground, j[3..x]) == Scan(Ground, j[0..x]) {
      ScanSplit(Ground, j, 0, 3, x);
    }
    ScanSplit(Ground, j, 0, 3, 7);
    assert j[3..7] == [ESC, 'P' as int, BEL, 'y' as int] && j[6..7] == ['y' as int];
    FourBytes(Ground, ESC, 'P' as int, BEL, 'y' as int);
    ScanOne(Ground, j, 6, 6);
    assert j[6..6] == [];
    EmptyScan(Ground);
  }

  /** The scan takes the BEL in the DCS string for the end of the OSC string. */
  lemma {:induction false} TornCut()
    ensures AlignedInWindow(TORN_WINDOW, 0, 6) == 6
  {
    hide Scan, LastCut;
    var window := TORN_WINDOW;
    assert LeadingContinuations(window) == 0;
    FourBytes(Ground, window[0], window[1], window[2], window[3]);
    assert window[0..3] == [window[0], window[1], window[2]];
    StateStep(window, 0, 3);
    StateStep(window, 0, 4);
    LastCutIsGreatest(window);
    assert IsCut(window, 0, 6);
  }

  /**
    A torn read: the OSC string that ends before the floor is read without its BEL. The
    start passes every check and lies inside a DCS string.
   */
  lemma {:induction false} TornWindowMisaligns()
    ensures WholeFrom(TORN_WINDOW, 0, 3, TORN_JOURNAL) && TransparentFloor(TORN_JOURNAL, 0, 3)
    ensures
      var start := AlignedInWindow(TORN_WINDOW, 0, 6);
      3 <= start <= 7 && Scan(Ground, TORN_JOURNAL[start..7]) != Scan(Ground, TORN_JOURNAL[0..7])
  {
    hide Scan, LastCut;
    TornTruth();
    TornCut();
  }
}
