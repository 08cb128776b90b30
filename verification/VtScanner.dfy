/**
  The ten-state escape scanner shared by the attach client and the session Host.
  It decides where a terminal byte stream may be cut, and it is used throughout
  this project as the model of the terminal's own parser: control sequences and
  control strings are those of sections 5.4 and 5.6 of ECMA-48.
 */
module VtScanner {
  import opened Bytes

  datatype ScanState =
    | Ground
    | Escape
    | EscapeIntermediate
    | Csi
    | Osc
    | OscEscape
    | Dcs
    | DcsEscape
    | SosPmApc
    | SosPmApcEscape

  /** CAN and SUB abort whatever sequence or control string is open. */
  predicate IsCancel(b: byte) {
    b == CAN || b == SUB
  }

  /** The states in which an ESC starts a fresh escape sequence. */
  predicate RestartsOnEscape(s: ScanState) {
    s.Ground? || s.Escape? || s.EscapeIntermediate? || s.Csi?
  }

  /** One byte of the scanner. */
  function Step(s: ScanState, b: byte): (t: ScanState) {
    if IsCancel(b) then Ground
    else if b == ESC && RestartsOnEscape(s) then Escape
    else match s
      case Ground => Ground
      case Escape =>
        if b == '[' as int then Csi
        else if b == ']' as int then Osc
        else if b == 'P' as int then Dcs
        else if b == 'X' as int || b == '^' as int || b == '_' as int then SosPmApc
        else if 0x20 <= b <= 0x2f then EscapeIntermediate
        else Ground
      case EscapeIntermediate => if 0x30 <= b <= 0x7e then Ground else s
      case Csi => if 0x40 <= b <= 0x7e then Ground else s
      case Osc => if b == BEL then Ground else if b == ESC then OscEscape else s
      case OscEscape => if b == '\\' as int then Ground else Osc
      case Dcs => if b == ESC then DcsEscape else s
      case DcsEscape => if b == '\\' as int then Ground else Dcs
      case SosPmApc => if b == ESC then SosPmApcEscape else s
      case SosPmApcEscape => if b == '\\' as int then Ground else SosPmApc
  }

  /** The state after a whole byte string. */
  function Scan(s: ScanState, bytes: seq<byte>): (t: ScanState) {
    if bytes == [] then s else Step(Scan(s, bytes[..|bytes| - 1]), bytes[|bytes| - 1])
  }

  lemma {:induction false} ScanAppend(s: ScanState, a: seq<byte>, b: seq<byte>)
    ensures Scan(s, a + b) == Scan(Scan(s, a), b)
    decreases |b|
  {
    if b == [] {
      assert a + b == a;
    } else {
      var init := b[..|b| - 1];
      assert (a + b)[..|a + b| - 1] == a + init;
      ScanAppend(s, a, init);
    }
  }

  /** Scanning up to `j` and continuing to `k` is scanning up to `k`. */
  lemma {:induction false} ScanSplit(s: ScanState, bytes: seq<byte>, i: nat, j: nat, k: nat)
    requires i <= j <= k <= |bytes|
    ensures Scan(s, bytes[i..k]) == Scan(Scan(s, bytes[i..j]), bytes[j..k])
  {
    assert bytes[i..k] == bytes[i..j] + bytes[j..k];
    ScanAppend(s, bytes[i..j], bytes[j..k]);
  }

  /**
    A cut is transparent in state `s` before `rest` when a terminal that starts
    in Ground at the cut behaves as one that arrives there in `s`: either `s` is
    Ground, or the next byte is an ESC that restarts `s`.
   */
  predicate TransparentCut(s: ScanState, rest: seq<byte>) {
    s.Ground? || (rest != [] && rest[0] == ESC && RestartsOnEscape(s))
  }

  lemma {:induction false} TransparentCutScan(s: ScanState, rest: seq<byte>)
    requires TransparentCut(s, rest)
    ensures Scan(s, rest) == Scan(Ground, rest)
  {
    if rest != [] {
      assert rest == rest[..1] + rest[1..];
      ScanAppend(s, rest[..1], rest[1..]);
      ScanAppend(Ground, rest[..1], rest[1..]);
      assert Scan(s, rest[..1]) == Step(s, rest[0]) by { assert rest[..1][..0] == []; }
      assert Scan(Ground, rest[..1]) == Step(Ground, rest[0]) by { assert rest[..1][..0] == []; }
    }
  }

  /** A CAN or SUB anywhere makes the state after it independent of what came before. */
  lemma {:induction false} CancelForgets(s: ScanState, t: ScanState, bytes: seq<byte>, k: nat)
    requires k < |bytes| && IsCancel(bytes[k])
    ensures Scan(s, bytes) == Scan(t, bytes)
  {
    ScanSplit(s, bytes, 0, k + 1, |bytes|);
    ScanSplit(t, bytes, 0, k + 1, |bytes|);
    assert bytes[0..|bytes|] == bytes;
    assert bytes[0..k + 1][..k] == bytes[0..k];
  }

  // ------------------------------------------------------------------
  // Bytes that make every state agree.
  // ------------------------------------------------------------------

  lemma {:induction false} ScanOne(s: ScanState, bytes: seq<byte>, a: nat, b: nat)
    requires a <= b < |bytes|
    ensures Scan(s, bytes[a..b + 1]) == Step(Scan(s, bytes[a..b]), bytes[b])
  {
    assert bytes[a..b + 1][..b - a] == bytes[a..b];
  }

  lemma {:induction false} EmptyScan(s: ScanState)
    ensures Scan(s, []) == s
  {
  }

  /** How many ESCs stand directly before index `i`. */
  function EscapesBefore(w: seq<byte>, i: nat): (n: nat)
    requires i <= |w|
    ensures n <= i
    ensures forall k :: i - n <= k < i ==> w[k] == ESC
    ensures n < i ==> w[i - n - 1] != ESC
  {
    if i > 0 && w[i - 1] == ESC then 1 + EscapesBefore(w, i - 1) else 0
  }

  /** A CAN or SUB, or the backslash that ends any string: after some other byte, an odd run
      of ESCs, and this. */
  predicate IsResetAt(w: seq<byte>, k: nat)
    requires k < |w|
  {
    || IsCancel(w[k])
    || (w[k] == '\\' as int && EscapesBefore(w, k) < k && EscapesBefore(w, k) % 2 == 1)
  }

  predicate HoldsReset(w: seq<byte>) {
    exists k: nat :: k < |w| && IsResetAt(w, k)
  }

  /** A state a scan can be in directly after a byte that is no ESC. */
  predicate IsSettled(s: ScanState) {
    s.Ground? || s.EscapeIntermediate? || s.Csi? || s.Osc? || s.Dcs? || s.SosPmApc?
  }

  /** A state a scan can be in after a settled one and an odd run of ESCs. */
  predicate IsEscaped(s: ScanState) {
    s.Escape? || s.OscEscape? || s.DcsEscape? || s.SosPmApcEscape?
  }

  /** In a run of ESCs after another byte, odd places are escaped and even ones are settled or
      directly after an ESC that restarts. */
  lemma {:induction false} EscapeRun(s: ScanState, w: seq<byte>, i: nat, n: nat)
    requires 0 < i <= i + n <= |w| && w[i - 1] != ESC && forall k :: i <= k < i + n ==> w[k] == ESC
    ensures n % 2 == 1 ==> IsEscaped(Scan(s, w[0..i + n]))
    ensures n % 2 == 0 ==> IsSettled(Scan(s, w[0..i + n])) || Scan(s, w[0..i + n]).Escape?
    decreases n
  {
    hide Scan;
    if n == 0 {
      ScanOne(s, w, 0, i - 1);
    } else {
      EscapeRun(s, w, i, n - 1);
      ScanOne(s, w, 0, i + n - 1);
    }
  }

  /** After a reset every state has become Ground. */
  lemma {:induction false} ResetGrounds(s: ScanState, w: seq<byte>, k: nat)
    requires k < |w| && IsResetAt(w, k)
    ensures Scan(s, w[0..k + 1]).Ground?
  {
    hide Scan;
    ScanOne(s, w, 0, k);
    if !IsCancel(w[k]) {
      var n := EscapesBefore(w, k);
      EscapeRun(s, w, k - n, n);
    }
  }

  lemma {:induction false} ResetForgets(s: ScanState, t: ScanState, w: seq<byte>)
    requires HoldsReset(w)
    ensures Scan(s, w) == Scan(t, w)
  {
    hide Scan;
    var k: nat :| k < |w| && IsResetAt(w, k);
    ResetGrounds(s, w, k);
    ResetGrounds(t, w, k);
    ScanSplit(s, w, 0, k + 1, |w|);
    ScanSplit(t, w, 0, k + 1, |w|);
    assert w[0..|w|] == w;
  }

  /** How many ESCs a byte string begins with. */
  function LeadingEscapes(w: seq<byte>): (n: nat)
    ensures n <= |w| && (forall k :: 0 <= k < n ==> w[k] == ESC) && (n < |w| ==> w[n] != ESC)
  {
    if w == [] || w[0] != ESC then 0 else 1 + LeadingEscapes(w[1..])
  }

  /** The state of a string body, or of an ESC in it. */
  function Body(s: ScanState, escaped: bool): (t: ScanState)
    requires s.Dcs? || s.SosPmApc?
  {
    if !escaped then s else if s.Dcs? then DcsEscape else SosPmApcEscape
  }

  /** A run of ESCs toggles between the body and its ESC. */
  lemma {:induction false} BodyRun(s: ScanState, escaped: bool, w: seq<byte>, n: nat)
    requires (s.Dcs? || s.SosPmApc?) && n <= |w| && forall k :: 0 <= k < n ==> w[k] == ESC
    ensures Scan(Body(s, escaped), w[0..n]) == Body(s, escaped != (n % 2 == 1))
    decreases n
  {
    if n == 0 {
      assert w[0..0] == [];
    } else {
      BodyRun(s, escaped, w, n - 1);
      ScanOne(Body(s, escaped), w, 0, n - 1);
    }
  }

  /** Without a reset, a DCS string and an APC string both stay open. */
  lemma {:induction false} BodyStays(s: ScanState, escaped: bool, w: seq<byte>, x: nat)
    requires (s.Dcs? || s.SosPmApc?) && !HoldsReset(w)
    requires LeadingEscapes(w) < x <= |w| && escaped == (LeadingEscapes(w) % 2 == 1)
    ensures EscapesBefore(w, x) < x
    ensures Scan(Body(s, escaped), w[0..x]) == Body(s, EscapesBefore(w, x) % 2 == 1)
    decreases x
  {
    hide Scan, LeadingEscapes;
    var lead := LeadingEscapes(w);
    ScanOne(Body(s, escaped), w, 0, x - 1);
    assert !IsResetAt(w, x - 1);
    if x - 1 == lead {
      BodyRun(s, escaped, w, lead);
    } else {
      BodyStays(s, escaped, w, x - 1);
    }
  }

  /**
    A byte string makes every parser agree, whatever it has read before, if and only if it
    holds a CAN, a SUB, or a byte other than ESC, an odd run of ESCs and a backslash.
   */
  lemma {:induction false} ResetsIff(w: seq<byte>)
    ensures (forall s, t :: Scan(s, w) == Scan(t, w)) <==> HoldsReset(w)
  {
    if HoldsReset(w) {
      forall s, t ensures Scan(s, w) == Scan(t, w) {
        ResetForgets(s, t, w);
      }
    } else {
      TwoStringsStayOpen(w);
    }
  }

  lemma {:induction false} TwoStringsStayOpen(w: seq<byte>)
    requires !HoldsReset(w)
    ensures
      var escaped := LeadingEscapes(w) % 2 == 1;
      Scan(Body(Dcs, escaped), w) != Scan(Body(SosPmApc, escaped), w)
  {
    hide Scan;
    var lead := LeadingEscapes(w);
    var escaped := lead % 2 == 1;
    assert w[0..|w|] == w;
    if lead == |w| {
      BodyRun(Dcs, escaped, w, lead);
      BodyRun(SosPmApc, escaped, w, lead);
    } else {
      BodyStays(Dcs, escaped, w, |w|);
      BodyStays(SosPmApc, escaped, w, |w|);
    }
  }
}
