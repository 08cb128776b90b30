/**
  Choosing where a replay of the journal's tail starts: the last cut in a bounded
  window that does not land inside an escape sequence or a character.
 */
module ReplayAlignment {
  import opened Bytes
  import opened VtScanner
  import Utf8Framing

  const LOOKBACK: nat := 16 * 1024

  function Min(a: nat, b: nat): (m: nat) { if a <= b then a else b }
  function Max(a: nat, b: nat): (m: nat) { if a <= b then b else a }
  function SaturatingSub(a: nat, b: nat): (d: nat) { if a <= b then 0 else a - b }

  // ------------------------------------------------------------------
  // What the scan considers a cut.
  // ------------------------------------------------------------------

  /** How many continuation bytes the window begins with. */
  function LeadingContinuations(window: seq<byte>): (n: nat)
    ensures n <= |window|
    ensures forall i :: 0 <= i < n ==> IsContinuation(window[i])
    ensures n < |window| ==> !IsContinuation(window[n])
  {
    if window == [] || !IsContinuation(window[0]) then 0
    else 1 + LeadingContinuations(window[1..])
  }

  /** Byte `b`, read in state `s`, completes something: a cancelled or finished
      sequence, or a line. */
  predicate EndsUnit(s: ScanState, b: byte) {
    IsCancel(b)
    || (s.Ground? && (b == LF || b == CR))
    || (!s.Ground? && Step(s, b).Ground?)
  }

  /** The scanner's state before byte `i`, started in Ground at `first`. */
  function StateAt(window: seq<byte>, first: nat, i: nat): (s: ScanState)
    requires first <= i <= |window|
  {
    Scan(Ground, window[first..i])
  }

  /** Index `i` is a cut: the first scanned byte, just after something ended, or an
      ESC that opens a sequence. */
  predicate IsCut(window: seq<byte>, first: nat, i: nat)
    requires first <= |window|
  {
    first <= i <= |window|
    && (i == first
        || (i > first && EndsUnit(StateAt(window, first, i - 1), window[i - 1]))
        || (i < |window| && window[i] == ESC && RestartsOnEscape(StateAt(window, first, i))))
  }

  lemma {:induction false} StateStep(window: seq<byte>, first: nat, i: nat)
    requires first <= i < |window|
    ensures StateAt(window, first, i + 1) == Step(StateAt(window, first, i), window[i])
  {
    assert window[first..i + 1][..i - first] == window[first..i];
  }

  /** `cut` is the greatest cut the bytes before `n` decide. */
  ghost predicate LastCutBefore(window: seq<byte>, first: nat, n: nat, cut: nat)
    requires first <= n <= |window|
  {
    IsCut(window, first, cut) && cut <= n
    && forall i :: cut < i <= n && IsCut(window, first, i) ==> i == n && IsOpening(window, first, n)
  }

  /** Byte `i` opens an escape sequence. */
  predicate IsOpening(window: seq<byte>, first: nat, i: nat)
    requires first <= i <= |window|
  {
    i < |window| && window[i] == ESC && RestartsOnEscape(StateAt(window, first, i))
  }

  /** The cut after byte `b` at index `i` is read in state `s`. */
  function NextCut(s: ScanState, b: byte, i: nat, cut: nat): (next: nat) {
    if EndsUnit(s, b) then i + 1
    else if b == ESC && RestartsOnEscape(s) then i
    else cut
  }

  lemma {:induction false} LastCutStep(window: seq<byte>, first: nat, i: nat, cut: nat)
    requires first <= i < |window| && LastCutBefore(window, first, i, cut)
    ensures LastCutBefore(window, first, i + 1,
                          NextCut(StateAt(window, first, i), window[i], i, cut))
  {
    StateStep(window, first, i);
  }

  /** The cut a scan of the bytes before `n` has settled on. */
  function CutUpTo(window: seq<byte>, first: nat, n: nat): (cut: nat)
    requires first <= n <= |window|
    ensures cut <= n
    decreases n
  {
    if n == first then first
    else NextCut(StateAt(window, first, n - 1), window[n - 1], n - 1, CutUpTo(window, first, n - 1))
  }

  lemma {:induction false} CutStep(window: seq<byte>, first: nat, i: nat)
    requires first <= i < |window|
    ensures CutUpTo(window, first, i + 1)
            == NextCut(StateAt(window, first, i), window[i], i, CutUpTo(window, first, i))
  {
  }

  lemma {:induction false} ScanStarts(window: seq<byte>, first: nat)
    requires first <= |window|
    ensures StateAt(window, first, first) == Ground && CutUpTo(window, first, first) == first
  {
  }

  /** Where a scan of the whole window ends up. */
  function LastCut(window: seq<byte>): (cut: nat)
    ensures cut <= |window|
  {
    CutUpTo(window, LeadingContinuations(window), |window|)
  }

  lemma {:induction false} CutUpToIsLast(window: seq<byte>, first: nat, n: nat)
    requires first <= n <= |window|
    ensures LastCutBefore(window, first, n, CutUpTo(window, first, n))
    decreases n
  {
    if n > first {
      CutUpToIsLast(window, first, n - 1);
      LastCutStep(window, first, n - 1, CutUpTo(window, first, n - 1));
    }
  }

  /** The scan settles on the greatest cut of its window. */
  lemma {:induction false} LastCutIsGreatest(window: seq<byte>)
    ensures LeadingContinuations(window) <= LastCut(window)
    ensures IsCut(window, LeadingContinuations(window), LastCut(window))
    ensures forall i :: LastCut(window) < i <= |window| ==>
      !IsCut(window, LeadingContinuations(window), i)
  {
    CutUpToIsLast(window, LeadingContinuations(window), |window|);
  }

  // ------------------------------------------------------------------
  // align_tail_start_in_window
  // ------------------------------------------------------------------

  function AlignedInWindow(window: seq<byte>, scanStart: nat, desiredStart: nat): (start: nat) {
    Min(scanStart + LastCut(window), desiredStart)
  }

  /**
    The scan. `window` is meant to be the bytes at offsets `[scanStart,
    desiredStart)`, but nothing here depends on it.
   */
  method AlignTailStartInWindow(window: seq<byte>, scanStart: nat, desiredStart: nat)
    returns (start: nat)
    ensures start == AlignedInWindow(window, scanStart, desiredStart)
  {
    hide StateAt, CutUpTo, LeadingContinuations;
    var initial := 0;
    while initial < |window| && IsContinuation(window[initial])
      invariant 0 <= initial <= |window|
      invariant forall i :: 0 <= i < initial ==> IsContinuation(window[i])
    {
      initial := initial + 1;
    }
    assert initial == LeadingContinuations(window);
    ScanStarts(window, initial);

    var lastBoundary := scanStart + initial;
    var state := Ground;
    for index := initial to |window|
      invariant state == StateAt(window, initial, index)
      invariant lastBoundary == scanStart + CutUpTo(window, initial, index)
    {
      StateStep(window, initial, index);
      CutStep(window, initial, index);
      var b := window[index];
      var absolute := scanStart + index;
      if b == CAN || b == SUB {
        lastBoundary := absolute + 1;
        state := Ground;
      } else if b == ESC && (state.Escape? || state.EscapeIntermediate? || state.Csi?) {
        lastBoundary := absolute;
        state := Escape;
      } else {
        match state
        case Ground =>
          if b == ESC {
            lastBoundary := absolute;
            state := Escape;
          } else if b == LF || b == CR {
            lastBoundary := absolute + 1;
          }
        case Escape =>
          if b == '[' as int { state := Csi; }
          else if b == ']' as int { state := Osc; }
          else if b == 'P' as int { state := Dcs; }
          else if b == 'X' as int || b == '^' as int || b == '_' as int { state := SosPmApc; }
          else if 0x20 <= b <= 0x2f { state := EscapeIntermediate; }
          else { lastBoundary := absolute + 1; state := Ground; }
        case EscapeIntermediate =>
          if 0x30 <= b <= 0x7e { lastBoundary := absolute + 1; state := Ground; }
        case Csi =>
          if 0x40 <= b <= 0x7e { lastBoundary := absolute + 1; state := Ground; }
        case Osc =>
          if b == BEL { lastBoundary := absolute + 1; state := Ground; }
          else if b == ESC { state := OscEscape; }
        case OscEscape =>
          if b == '\\' as int { lastBoundary := absolute + 1; state := Ground; }
          else { state := Osc; }
        case Dcs =>
          if b == ESC { state := DcsEscape; }
        case DcsEscape =>
          if b == '\\' as int { lastBoundary := absolute + 1; state := Ground; }
          else { state := Dcs; }
        case SosPmApc =>
          if b == ESC { state := SosPmApcEscape; }
        case SosPmApcEscape =>
          if b == '\\' as int { lastBoundary := absolute + 1; state := Ground; }
          else { state := SosPmApc; }
      }
    }
    start := Min(lastBoundary, desiredStart);
  }

  /** Every cut is one a terminal starting in Ground cannot tell from arriving there. */
  lemma {:induction false} CutIsTransparent(window: seq<byte>, first: nat, cut: nat, rest: seq<byte>)
    requires first <= |window| && IsCut(window, first, cut)
    requires cut < |window| ==> rest != [] && rest[0] == window[cut]
    ensures TransparentCut(StateAt(window, first, cut), rest)
  {
    if cut > first {
      StateStep(window, first, cut - 1);
    }
  }

  /**
    The chosen start resynchronises the parser. Whatever follows the window,
    starting in Ground at the chosen start ends in the state of starting in Ground
    at the window's first byte that does not continue a character; and the start
    lies inside the window.
   */
  lemma {:induction false} AlignedStartResynchronises(j: seq<byte>, scanStart: nat, desired: nat, end: nat)
    requires scanStart <= desired <= end <= |j|
    ensures
      var window := j[scanStart..desired];
      var first := scanStart + LeadingContinuations(window);
      var start := AlignedInWindow(window, scanStart, desired);
      && scanStart <= first <= start <= desired
      && Scan(Ground, j[start..end]) == Scan(Ground, j[first..end])
  {
    hide IsCut, LastCut, Scan, TransparentCut, LeadingContinuations;
    var window := j[scanStart..desired];
    var lead := LeadingContinuations(window);
    var cut := LastCut(window);
    LastCutIsGreatest(window);
    var first, start := scanStart + lead, scanStart + cut;
    assert cut < |window| ==> window[cut] == j[start];
    CutIsTransparent(window, lead, cut, j[start..end]);
    SliceOfSlice(j, scanStart, desired, lead, cut);
    TransparentCutScan(StateAt(window, lead, cut), j[start..end]);
    ScanSplit(Ground, j, first, start, end);
  }

  lemma {:induction false} ContinuationsStayGround(j: seq<byte>, a: nat, b: nat)
    requires a <= b <= |j| && forall i :: a <= i < b ==> IsContinuation(j[i])
    ensures Scan(Ground, j[a..b]).Ground?
    decreases b
  {
    if a < b {
      ContinuationsStayGround(j, a, b - 1);
      ScanOne(Ground, j, a, b - 1);
    } else {
      assert j[a..b] == [];
    }
  }

  /** Starting in Ground at the chosen start is starting in Ground at the window's first byte. */
  lemma {:induction false} AlignedStartIsScan(j: seq<byte>, scanStart: nat, desired: nat, end: nat)
    requires scanStart <= desired <= end <= |j|
    ensures
      var start := AlignedInWindow(j[scanStart..desired], scanStart, desired);
      start <= end && Scan(Ground, j[start..end]) == Scan(Ground, j[scanStart..end])
  {
    hide Scan, AlignedInWindow;
    var window := j[scanStart..desired];
    var first := scanStart + LeadingContinuations(window);
    AlignedStartResynchronises(j, scanStart, desired, end);
    forall i | scanStart <= i < first ensures IsContinuation(j[i]) {
      assert window[i - scanStart] == j[i];
    }
    ContinuationsStayGround(j, scanStart, first);
    ScanSplit(Ground, j, scanStart, first, end);
  }

  /**
    With a reset in the window, no assumption about the state at its first byte is left: any
    state there leads to the same place.
   */
  lemma {:induction false} ResetInWindowResynchronises(j: seq<byte>, s: ScanState, scanStart: nat, desired: nat, end: nat)
    requires scanStart <= desired <= end <= |j| && HoldsReset(j[scanStart..desired])
    ensures
      var start := AlignedInWindow(j[scanStart..desired], scanStart, desired);
      start <= end && Scan(Ground, j[start..end]) == Scan(s, j[scanStart..end])
  {
    hide Scan, AlignedInWindow, HoldsReset;
    AlignedStartIsScan(j, scanStart, desired, end);
    ResetForgets(s, Ground, j[scanStart..desired]);
    ScanSplit(s, j, scanStart, desired, end);
    ScanSplit(Ground, j, scanStart, desired, end);
  }

  /** In particular with a CAN or SUB. */
  lemma {:induction false} CancelInWindowResynchronises(j: seq<byte>, s: ScanState, scanStart: nat, desired: nat,
                                     end: nat, k: nat)
    requires scanStart <= k < desired <= end <= |j| && IsCancel(j[k])
    ensures
      var start := AlignedInWindow(j[scanStart..desired], scanStart, desired);
      start <= end && Scan(Ground, j[start..end]) == Scan(s, j[scanStart..end])
  {
    hide Scan, AlignedInWindow;
    var window := j[scanStart..desired];
    assert window[k - scanStart] == j[k];
    assert IsResetAt(window, k - scanStart);
    ResetInWindowResynchronises(j, s, scanStart, desired, end);
  }

  /** Whatever the parser was before the window, the chosen start agrees with it at the end
      of the window, if and only if the window holds a reset. */
  lemma {:induction false} WindowResynchronisesIff(window: seq<byte>)
    ensures
      var start := AlignedInWindow(window, 0, |window|);
      start <= |window|
      && ((forall s :: Scan(Ground, window[start..]) == Scan(s, window)) <==> HoldsReset(window))
  {
    hide Scan, AlignedInWindow, HoldsReset;
    var start := AlignedInWindow(window, 0, |window|);
    assert window[0..|window|] == window;
    AlignedStartIsScan(window, 0, |window|, |window|);
    assert window[start..|window|] == window[start..];
    ResetsIff(window);
    if forall s :: Scan(Ground, window[start..]) == Scan(s, window) {
      assert forall s, t :: Scan(s, window) == Scan(t, window);
    }
  }

  // ------------------------------------------------------------------
  // Characters.
  // ------------------------------------------------------------------

  /** The cut directly follows an ESC and a byte outside ASCII. */
  predicate CutAfterWideEscape(window: seq<byte>, cut: nat)
    requires cut <= |window|
  {
    var first := LeadingContinuations(window);
    first < cut && StateAt(window, first, cut - 1).Escape? && !IsAscii(window[cut - 1])
  }

  /** A byte after which, or before which, a scan that is in Ground cuts. */
  predicate IsGroundCut(b: byte) {
    b == ESC || b == LF || b == CR || IsCancel(b)
  }

  /** The ESC at `p` opens a sequence, a byte outside ASCII follows it, and nothing after
      that makes the scan cut again. */
  predicate IsLastWideEscape(window: seq<byte>, p: nat) {
    var first := LeadingContinuations(window);
    && first <= p && p + 1 < |window|
    && IsOpening(window, first, p) && !IsAscii(window[p + 1])
    && forall i :: p + 2 <= i < |window| ==> !IsGroundCut(window[i])
  }

  /**
    In a well-formed journal the aligned start splits a character in exactly two
    situations: the window holds only continuation bytes and the wanted start is
    itself inside a character, or some ESC that opens a sequence is followed by a
    non-ASCII byte and by no ESC, line end, CAN or SUB after that.
   */
  lemma {:induction false} AlignedStartSplitsCharacter(j: seq<byte>, scanStart: nat, desired: nat)
    requires scanStart <= desired <= |j| && Utf8Framing.WellFormed(j)
    ensures
      var window := j[scanStart..desired];
      var start := AlignedInWindow(window, scanStart, desired);
      !Utf8Framing.CharBoundary(j, start) <==>
        || (LeadingContinuations(window) == |window| && desired < |j| && IsContinuation(j[desired]))
        || exists p: nat :: IsLastWideEscape(window, p)
  {
    hide LastCut, StateAt, Utf8Framing.WellFormed, Utf8Framing.CharBoundary, LeadingContinuations;
    var window := j[scanStart..desired];
    CutSplitsCharacter(j, scanStart, desired);
    if CutAfterWideEscape(window, LastCut(window)) {
      CutSplitsWideEscape(j, scanStart, desired);
      var cut := LastCut(window);
      assert cut < |window| ==> window[cut] == j[scanStart + cut];
      WideEscapeWasLast(window);
    }
    if p: nat :| IsLastWideEscape(window, p) {
      LastWideEscapeIsCut(window, p);
    }
  }

  lemma {:induction false} GroundStays(window: seq<byte>, first: nat, a: nat, b: nat)
    requires first <= a <= b <= |window| && StateAt(window, first, a).Ground?
    requires forall i :: a <= i < b ==> window[i] != ESC
    ensures StateAt(window, first, b).Ground?
    decreases b
  {
    hide StateAt;
    if a < b {
      GroundStays(window, first, a, b - 1);
      StateStep(window, first, b - 1);
    }
  }

  /** The cut after a wide escape is the last one only if nothing cuts again. */
  lemma {:induction false} WideEscapeWasLast(window: seq<byte>)
    requires CutAfterWideEscape(window, LastCut(window))
    requires LastCut(window) < |window| ==> window[LastCut(window)] != ESC
    ensures LastCut(window) >= 2 && IsLastWideEscape(window, LastCut(window) - 2)
  {
    hide LastCut, StateAt, LeadingContinuations;
    var first, cut := LeadingContinuations(window), LastCut(window);
    LastCutIsGreatest(window);
    EscapeStateFollowsEscape(window, first, cut - 1);
    StateStep(window, first, cut - 2);
    StateStep(window, first, cut - 1);
    forall i | cut <= i < |window| ensures !IsGroundCut(window[i]) {
      NoGroundCutAfter(window, first, cut, i);
    }
  }

  lemma {:induction false} NoGroundCutAfter(window: seq<byte>, first: nat, cut: nat, i: nat)
    requires first <= cut <= i < |window| && StateAt(window, first, cut).Ground? && window[cut] != ESC
    requires forall k :: cut < k <= |window| ==> !IsCut(window, first, k)
    ensures !IsGroundCut(window[i]) && StateAt(window, first, i).Ground?
    decreases i
  {
    hide StateAt;
    if i > cut {
      NoGroundCutAfter(window, first, cut, i - 1);
      StateStep(window, first, i - 1);
    }
    assert !IsCut(window, first, i + 1);
    assert i > cut ==> !IsCut(window, first, i);
  }

  lemma {:induction false} LastWideEscapeIsCut(window: seq<byte>, p: nat)
    requires IsLastWideEscape(window, p)
    ensures LastCut(window) == p + 2 && CutAfterWideEscape(window, p + 2)
  {
    hide LastCut, StateAt, LeadingContinuations;
    var first := LeadingContinuations(window);
    LastCutIsGreatest(window);
    StateStep(window, first, p);
    StateStep(window, first, p + 1);
    assert IsCut(window, first, p + 2);
    forall k | p + 2 < k <= |window| ensures !IsCut(window, first, k) {
      GroundStays(window, first, p + 2, k - 1);
      GroundStays(window, first, p + 2, k);
    }
  }

  /** The same in terms of the cut: it follows an ESC and a byte outside ASCII. */
  lemma {:induction false} CutSplitsCharacter(j: seq<byte>, scanStart: nat, desired: nat)
    requires scanStart <= desired <= |j| && Utf8Framing.WellFormed(j)
    ensures
      var window := j[scanStart..desired];
      var start := AlignedInWindow(window, scanStart, desired);
      !Utf8Framing.CharBoundary(j, start) <==>
        || (LeadingContinuations(window) == |window| && desired < |j| && IsContinuation(j[desired]))
        || CutAfterWideEscape(window, LastCut(window))
  {
    hide LastCut;
    var window := j[scanStart..desired];
    var first, cut := LeadingContinuations(window), LastCut(window);
    var start := scanStart + cut;
    LastCutIsGreatest(window);
    Utf8Framing.BoundaryIffNotContinuation(j, start);
    if cut == first {
      assert cut < |window| ==> window[cut] == j[start];
    } else {
      assert window[cut - 1] == j[start - 1];
      if CutAfterWideEscape(window, cut) {
        CutSplitsWideEscape(j, scanStart, desired);
      } else {
        CutKeepsCharacters(j, scanStart, desired);
      }
    }
  }

  lemma {:induction false} CutSplitsWideEscape(j: seq<byte>, scanStart: nat, desired: nat)
    requires scanStart <= desired <= |j| && Utf8Framing.WellFormed(j)
    requires CutAfterWideEscape(j[scanStart..desired], LastCut(j[scanStart..desired]))
    ensures
      var start := scanStart + LastCut(j[scanStart..desired]);
      start < |j| && IsContinuation(j[start])
  {
    hide LastCut, StateAt;
    var window := j[scanStart..desired];
    var cut := LastCut(window);
    EscapeStateFollowsEscape(window, LeadingContinuations(window), cut - 1);
    var p := scanStart + cut - 2;
    assert window[cut - 2] == j[p];
    assert window[cut - 1] == j[p + 1];
    WideEscapeContinues(j, p);
  }

  lemma {:induction false} WideEscapeContinues(j: seq<byte>, p: nat)
    requires Utf8Framing.WellFormed(j) && p + 1 < |j| && j[p] == ESC && !IsAscii(j[p + 1])
    ensures p + 2 < |j| && IsContinuation(j[p + 2])
  {
    hide Utf8Framing.WellFormed, Utf8Framing.CharBoundary;
    Utf8Framing.AsciiEndsCharacter(j, p);
    Utf8Framing.BoundaryIffNotContinuation(j, p + 1);
    WideByteContinues(j, p + 1);
  }

  lemma {:induction false} CutKeepsCharacters(j: seq<byte>, scanStart: nat, desired: nat)
    requires scanStart <= desired <= |j| && Utf8Framing.WellFormed(j)
    requires
      var window := j[scanStart..desired];
      LeadingContinuations(window) < LastCut(window) && !CutAfterWideEscape(window, LastCut(window))
    ensures Utf8Framing.CharBoundary(j, scanStart + LastCut(j[scanStart..desired]))
  {
    hide LastCut, StateAt, LeadingContinuations, Utf8Framing.WellFormed, Utf8Framing.CharBoundary;
    var window := j[scanStart..desired];
    var first, cut := LeadingContinuations(window), LastCut(window);
    var start := scanStart + cut;
    LastCutIsGreatest(window);
    if cut < |window| && window[cut] == ESC {
      assert window[cut] == j[start];
      Utf8Framing.AsciiEndsCharacter(j, start);
    } else {
      assert window[cut - 1] == j[start - 1];
      EndsUnitIsAscii(StateAt(window, first, cut - 1), window[cut - 1]);
      Utf8Framing.AsciiEndsCharacter(j, start - 1);
    }
  }

  /** Only the byte after an ESC can end something without being ASCII. */
  lemma {:induction false} EndsUnitIsAscii(s: ScanState, b: byte)
    requires EndsUnit(s, b) && (s.Escape? ==> IsAscii(b))
    ensures IsAscii(b)
  {
  }

  /** Escape is entered only by reading an ESC. */
  lemma {:induction false} EscapeStateFollowsEscape(window: seq<byte>, first: nat, i: nat)
    requires first <= i <= |window| && StateAt(window, first, i).Escape?
    ensures first < i && window[i - 1] == ESC
  {
    if i > first {
      StateStep(window, first, i - 1);
    }
  }

  /** A non-ASCII byte that begins a character is followed by a continuation byte. */
  lemma {:induction false} WideByteContinues(j: seq<byte>, p: nat)
    requires Utf8Framing.WellFormed(j) && p < |j| && !IsAscii(j[p])
    ensures !IsContinuation(j[p]) ==> p + 1 < |j| && IsContinuation(j[p + 1])
    decreases |j|
  {
    var n :| 0 < n <= |j| && Utf8Framing.IsChar(j[..n]) && Utf8Framing.WellFormed(j[n..]);
    if p < n {
      Utf8Framing.CharShape(j, n, p);
      assert j[..n][p] == j[p];
      if p == 0 {
        Utf8Framing.CharShape(j, n, 1);
      }
    } else {
      WideByteContinues(j[n..], p - n);
    }
  }

  /** The documented promise, on the journals for which it holds. */
  lemma {:induction false} AlignedStartKeepsCharacters(j: seq<byte>, scanStart: nat, desired: nat)
    requires scanStart <= desired <= |j| && Utf8Framing.WellFormed(j)
    requires exists i :: scanStart <= i < desired && !IsContinuation(j[i])
    requires forall i :: 0 <= i < |j| - 1 && j[i] == ESC ==> IsAscii(j[i + 1])
    ensures Utf8Framing.CharBoundary(j, AlignedInWindow(j[scanStart..desired], scanStart, desired))
  {
    hide LastCut, Utf8Framing.WellFormed, Utf8Framing.CharBoundary, StateAt;
    var window := j[scanStart..desired];
    var i :| scanStart <= i < desired && !IsContinuation(j[i]);
    assert window[i - scanStart] == j[i];
    assert LeadingContinuations(window) < |window|;
    var first, cut := LeadingContinuations(window), LastCut(window);
    if first < cut && StateAt(window, first, cut - 1).Escape? {
      EscapeStateFollowsEscape(window, first, cut - 1);
      var p := scanStart + cut - 2;
      assert window[cut - 2] == j[p] && window[cut - 1] == j[p + 1];
    }
    CutSplitsCharacter(j, scanStart, desired);
  }

  /** ESC followed by `e` acute: the scan cuts between the two bytes of the letter. */
  lemma {:induction false} WideEscapeIsSplit()
    ensures
      var j: seq<byte> := [ESC, 0xc3, 0xa9];
      && Utf8Framing.WellFormed(j)
      && AlignedInWindow(j[0..2], 0, 2) == 2
      && !Utf8Framing.CharBoundary(j, 2)
  {
    var j: seq<byte> := [ESC, 0xc3, 0xa9];
    assert Utf8Framing.IsChar(j[..1]) && Utf8Framing.IsChar(j[1..][..2]);
    assert j[1..][2..] == [];
    assert Utf8Framing.WellFormed(j[1..]);
    var window := j[0..2];
    assert LeadingContinuations(window) == 0;
    assert StateAt(window, 0, 0) == Ground;
    StateStep(window, 0, 0);
    StateStep(window, 0, 1);
    assert CutUpTo(window, 0, 1) == 0;
    assert CutUpTo(window, 0, 2) == 2;
    Utf8Framing.BoundaryIffNotContinuation(j, 2);
  }

  // ------------------------------------------------------------------
  // align_replay_tail_start_from
  // ------------------------------------------------------------------

  /** The first offset the scan reads. */
  function ScanStart(desired: nat, retainedFrom: nat): (s: nat) {
    Max(SaturatingSub(desired, LOOKBACK), retainedFrom)
  }

  /** The start computed from the true bytes of the journal. */
  function TailStart(j: seq<byte>, desired: nat, retainedFrom: nat): (start: nat)
    requires retainedFrom <= desired <= |j|
  {
    if desired <= retainedFrom then retainedFrom
    else
      var scanStart := ScanStart(desired, retainedFrom);
      AlignedInWindow(j[scanStart..desired], scanStart, desired)
  }

  /** Cutting at `floor` is invisible, from the next byte on, to a parser that began
      at `anchor`. */
  ghost predicate TransparentFloor(j: seq<byte>, anchor: nat, floor: nat)
    requires anchor <= floor <= |j|
  {
    anchor == floor
    || forall x :: floor < x <= |j| ==> Scan(Ground, j[floor..x]) == Scan(Ground, j[anchor..x])
  }

  /**
    What is known about the parser where the scan begins: it is in Ground at the
    first scanned byte, or the scan begins at a transparent floor, or the scanned
    bytes hold a reset.
   */
  ghost predicate ScanBeginsKnown(j: seq<byte>, anchor: nat, desired: nat, retainedFrom: nat, end: nat)
    requires anchor <= retainedFrom <= desired <= end <= |j|
  {
    var scanStart := ScanStart(desired, retainedFrom);
    var first := scanStart + LeadingContinuations(j[scanStart..desired]);
    || Scan(Ground, j[anchor..first]).Ground?
    || (scanStart == retainedFrom && TransparentFloor(j, anchor, retainedFrom)
        && (anchor == retainedFrom || retainedFrom < end))
    || HoldsReset(j[scanStart..desired])
  }

  /** A tail replay leaves the parser where the journal itself, read from `anchor`,
      would. */
  lemma {:induction false} TailStartResynchronises(j: seq<byte>, anchor: nat, desired: nat, retainedFrom: nat, end: nat)
    requires anchor <= retainedFrom <= desired <= end <= |j|
    requires ScanBeginsKnown(j, anchor, desired, retainedFrom, end)
    ensures
      var start := TailStart(j, desired, retainedFrom);
      && retainedFrom <= start <= desired
      && Scan(Ground, j[start..end]) == Scan(Ground, j[anchor..end])
  {
    hide AlignedInWindow, Scan, HoldsReset;
    var scanStart := ScanStart(desired, retainedFrom);
    var window := j[scanStart..desired];
    var first := scanStart + LeadingContinuations(window);
    if Scan(Ground, j[anchor..first]).Ground? {
      AlignedStartResynchronises(j, scanStart, desired, end);
      ScanSplit(Ground, j, anchor, first, end);
    } else if HoldsReset(window) {
      ResetInWindowResynchronises(j, Scan(Ground, j[anchor..scanStart]), scanStart, desired, end);
      ScanSplit(Ground, j, anchor, scanStart, end);
    } else {
      AlignedStartIsScan(j, scanStart, desired, end);
    }
    StartInWindow(window, scanStart, desired);
  }

  lemma {:induction false} StartInWindow(window: seq<byte>, scanStart: nat, desired: nat)
    requires scanStart <= desired
    ensures scanStart <= AlignedInWindow(window, scanStart, desired) <= desired
  {
  }

  /** A DCS string longer than the lookback, ending in a line end. */
  function LongString(fill: seq<byte>): (j: seq<byte>) {
    [ESC, 'P' as int] + fill + [LF]
  }

  /** The scan begins inside the string, takes the line end for a safe place, and the replay
      starts inside the string. */
  lemma {:induction false} LongStringIsSplit(fill: seq<byte>)
    requires |fill| == LOOKBACK && forall i :: 0 <= i < |fill| ==> fill[i] == 'a' as int
    ensures
      var j := LongString(fill);
      && TailStart(j, |j|, 0) == |j|
      && Scan(Ground, j[|j|..|j|]) == Ground && Scan(Ground, j[0..|j|]) == Dcs
  {
    var j := LongString(fill);
    var scanStart := ScanStart(|j|, 0);
    var window := j[scanStart..];
    forall i | 2 <= i < |j| - 1 ensures j[i] == 'a' as int {
      assert j[i] == fill[i - 2];
    }
    assert j[0] == ESC && j[1] == 'P' as int && j[|j| - 1] == LF;
    hide LongString, Scan, LastCut;
    forall i | 0 <= i < |window| ensures window[i] == j[scanStart + i] {
    }
    LineEndCuts(window);
    assert window == j[scanStart..|j|];
    StringStaysOpen(j, |j|);
    assert j[|j|..|j|] == [];
    EmptyScan(Ground);
  }

  lemma {:induction false} LineEndCuts(window: seq<byte>)
    requires window != [] && window[|window| - 1] == LF
    requires forall i :: 0 <= i < |window| - 1 ==> window[i] == 'a' as int
    ensures LastCut(window) == |window|
  {
    hide LastCut;
    assert LeadingContinuations(window) == 0 by { assert window[0] == 'a' as int || window[0] == LF; }
    LastCutIsGreatest(window);
    assert window[0..0] == [];
    GroundStays(window, 0, 0, |window| - 1);
    assert IsCut(window, 0, |window|);
  }

  lemma {:induction false} StringStaysOpen(j: seq<byte>, x: nat)
    requires 2 <= x <= |j| && j[0] == ESC && j[1] == 'P' as int
    requires forall i :: 2 <= i < |j| ==> j[i] != ESC && !IsCancel(j[i])
    ensures Scan(Ground, j[0..x]) == Dcs
    decreases x
  {
    ScanOne(Ground, j, 0, x - 1);
    if x == 2 {
      ScanOne(Ground, j, 0, 0);
      assert j[0..0] == [];
    } else {
      StringStaysOpen(j, x - 1);
    }
  }
}
