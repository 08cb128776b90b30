/**
  What the client writes before a replay: the reset that works from any parser
  state, and the preamble that re-establishes the modes the workload had set.
 */
module TerminalReset {
  import opened Bytes
  import opened VtScanner
  import Decimal

  /** CAN, RIS, erase scrollback, erase screen, home. */
  const REPLAY_RESET: seq<byte> :=
    [CAN, ESC, 'c' as int, ESC, '[' as int, '3' as int, 'J' as int,
     ESC, '[' as int, '2' as int, 'J' as int, ESC, '[' as int, 'H' as int]

  const ALT_SCREEN: nat := 1049

  datatype TerminalModes = TerminalModes(altScreen: bool, turnedOn: seq<nat>, turnedOff: seq<nat>)

  function Numeral(n: nat): (bytes: seq<byte>)
    ensures |bytes| == |Decimal.Digits(n)|
    ensures forall i :: 0 <= i < |bytes| ==> bytes[i] == 0x30 + Decimal.Digits(n)[i]
  {
    var ds := Decimal.Digits(n);
    seq(|ds|, i requires 0 <= i < |ds| => 0x30 + ds[i])
  }

  /** `ESC [ ? mode final`. */
  function ModeSequence(mode: nat, final: byte): (bytes: seq<byte>) {
    [ESC, '[' as int, '?' as int] + Numeral(mode) + [final]
  }

  function ModeSequences(modes: seq<nat>, final: byte): (bytes: seq<byte>) {
    if modes == [] then []
    else ModeSequences(modes[..|modes| - 1], final) + ModeSequence(modes[|modes| - 1], final)
  }

  function Preamble(modes: TerminalModes): (bytes: seq<byte>) {
    (if modes.altScreen then ModeSequence(ALT_SCREEN, 'h' as int) else [])
    + ModeSequences(modes.turnedOn, 'h' as int)
    + ModeSequences(modes.turnedOff, 'l' as int)
  }

  method RestoreSequence(modes: TerminalModes) returns (out: seq<byte>)
    ensures out == Preamble(modes)
  {
    var alt: seq<byte> := [];
    if modes.altScreen {
      alt := ModeSequence(ALT_SCREEN, 'h' as int);
    }
    var on := EachMode(modes.turnedOn, 'h' as int);
    var off := EachMode(modes.turnedOff, 'l' as int);
    out := alt + on + off;
  }

  method EachMode(modes: seq<nat>, final: byte) returns (out: seq<byte>)
    ensures out == ModeSequences(modes, final)
  {
    out := [];
    for i := 0 to |modes|
      invariant out == ModeSequences(modes[..i], final)
    {
      assert modes[..i + 1][..i] == modes[..i];
      out := out + ModeSequence(modes[i], final);
    }
    assert modes[..|modes|] == modes;
  }

  // ------------------------------------------------------------------
  // A terminal that interprets private-mode sequences.
  // ------------------------------------------------------------------

  /** The parser state, the bytes of the open control sequence, and the private
      modes now set. */
  datatype Terminal = Terminal(scan: ScanState, params: seq<byte>, modes: set<nat>)

  predicate IsDigit(b: byte) {
    0x30 <= b <= 0x39
  }

  function NumeralValue(bytes: seq<byte>): (n: nat)
    requires forall i :: 0 <= i < |bytes| ==> IsDigit(bytes[i])
  {
    Decimal.Value(NumeralDigits(bytes))
  }

  function NumeralDigits(bytes: seq<byte>): (ds: seq<nat>)
    requires forall i :: 0 <= i < |bytes| ==> IsDigit(bytes[i])
    ensures |ds| == |bytes| && forall i :: 0 <= i < |ds| ==> ds[i] == bytes[i] as int - 0x30
  {
    if bytes == [] then []
    else
      var digit := bytes[|bytes| - 1];
      assert IsDigit(digit);
      var last: nat := digit - 0x30;
      NumeralDigits(bytes[..|bytes| - 1]) + [last]
  }

  predicate IsPrivateMode(params: seq<byte>) {
    |params| > 1 && params[0] == '?' as int
    && forall i :: 1 <= i < |params| ==> IsDigit(params[i])
  }

  /** The modes after control sequence `params final`. */
  function ApplyMode(modes: set<nat>, params: seq<byte>, final: byte): (after: set<nat>) {
    if !IsPrivateMode(params) then modes
    else
      assert forall i :: 0 <= i < |params[1..]| ==> params[1..][i] == params[i + 1];
      var mode := NumeralValue(params[1..]);
      if final == 'h' as int then modes + {mode}
      else if final == 'l' as int then modes - {mode}
      else modes
  }

  /** One byte: RIS (`ESC c`) restores `defaults`, a private-mode sequence changes
      one mode. */
  function Feed(t: Terminal, b: byte, defaults: set<nat>): (u: Terminal) {
    var next := Step(t.scan, b);
    if next.Csi? then Terminal(next, if t.scan.Csi? then t.params + [b] else [], t.modes)
    else if t.scan.Escape? && b == 'c' as int then Terminal(next, [], defaults)
    else if t.scan.Csi? && 0x40 <= b <= 0x7e then
      Terminal(next, [], ApplyMode(t.modes, t.params, b))
    else Terminal(next, [], t.modes)
  }

  function FeedAll(t: Terminal, bytes: seq<byte>, defaults: set<nat>): (u: Terminal) {
    if bytes == [] then t
    else Feed(FeedAll(t, bytes[..|bytes| - 1], defaults), bytes[|bytes| - 1], defaults)
  }

  lemma {:induction false} FeedAllAppend(t: Terminal, a: seq<byte>, b: seq<byte>, defaults: set<nat>)
    ensures FeedAll(t, a + b, defaults) == FeedAll(FeedAll(t, a, defaults), b, defaults)
    decreases |b|
  {
    if b == [] {
      assert a + b == a;
    } else {
      assert (a + b)[..|a + b| - 1] == a + b[..|b| - 1];
      FeedAllAppend(t, a, b[..|b| - 1], defaults);
    }
  }

  lemma {:induction false} FeedOne(t: Terminal, a: seq<byte>, b: byte, defaults: set<nat>)
    ensures FeedAll(t, a + [b], defaults) == Feed(FeedAll(t, a, defaults), b, defaults)
  {
    assert (a + [b])[..|a|] == a;
  }

  /** The interpreting terminal parses as the scanner does. */
  lemma {:induction false} FeedAllScans(t: Terminal, bytes: seq<byte>, defaults: set<nat>)
    ensures FeedAll(t, bytes, defaults).scan == Scan(t.scan, bytes)
    decreases |bytes|
  {
    if bytes != [] {
      FeedAllScans(t, bytes[..|bytes| - 1], defaults);
    }
  }

  lemma {:induction false} FeedDigits(t: Terminal, digits: seq<byte>, defaults: set<nat>)
    requires t.scan.Csi? && forall i :: 0 <= i < |digits| ==> IsDigit(digits[i])
    ensures FeedAll(t, digits, defaults) == t.(params := t.params + digits)
    decreases |digits|
  {
    if digits == [] {
      assert t.params + digits == t.params;
    } else {
      var init := digits[..|digits| - 1];
      FeedDigits(t, init, defaults);
      assert t.params + digits == (t.params + init) + [digits[|digits| - 1]];
    }
  }

  /** Reading back a numeral gives the mode. */
  lemma {:induction false} NumeralReads(mode: nat)
    ensures IsPrivateMode(['?' as int] + Numeral(mode))
    ensures NumeralValue(Numeral(mode)) == mode
  {
    var bytes := Numeral(mode);
    assert NumeralDigits(bytes) == Decimal.Digits(mode);
    Decimal.ValueOfDigits(mode);
  }

  /** A mode sequence sets or resets exactly its mode and comes back to Ground. */
  lemma {:induction false} FeedModeSequence(t: Terminal, mode: nat, final: byte, defaults: set<nat>)
    requires t.scan.Ground? && (final == 'h' as int || final == 'l' as int)
    ensures FeedAll(t, ModeSequence(mode, final), defaults)
            == Terminal(Ground, [],
                        if final == 'h' as int then t.modes + {mode} else t.modes - {mode})
  {
    hide FeedAll, Numeral;
    var digits := Numeral(mode);
    var inCsi := Terminal(Csi, ['?' as int], t.modes);
    FeedIntroducer(t, defaults);
    FeedAllAppend(t, [ESC, '[' as int, '?' as int], digits, defaults);
    NumeralIsDigits(mode);
    FeedDigits(inCsi, digits, defaults);
    FeedOne(t, [ESC, '[' as int, '?' as int] + digits, final, defaults);
    NumeralReads(mode);
    assert (['?' as int] + digits)[1..] == digits;
  }

  lemma {:induction false} FeedIntroducer(t: Terminal, defaults: set<nat>)
    requires t.scan.Ground?
    ensures FeedAll(t, [ESC, '[' as int, '?' as int], defaults) == Terminal(Csi, ['?' as int], t.modes)
  {
    assert FeedAll(t, [], defaults) == t;
    FeedOne(t, [], ESC, defaults);
    FeedOne(t, [ESC], '[' as int, defaults);
    FeedOne(t, [ESC, '[' as int], '?' as int, defaults);
    assert [] + [ESC] == [ESC] && [ESC] + ['[' as int] == [ESC, '[' as int];
    assert [ESC, '[' as int] + ['?' as int] == [ESC, '[' as int, '?' as int];
    assert [] + ['?' as int] == ['?' as int];
  }

  lemma {:induction false} NumeralIsDigits(mode: nat)
    ensures forall i :: 0 <= i < |Numeral(mode)| ==> IsDigit(Numeral(mode)[i])
  {
  }

  function ElementsOf(modes: seq<nat>): (s: set<nat>) {
    set i | 0 <= i < |modes| :: modes[i]
  }

  lemma {:induction false} FeedModeSequences(t: Terminal, modes: seq<nat>, final: byte, defaults: set<nat>)
    requires t.scan.Ground? && t.params == [] && (final == 'h' as int || final == 'l' as int)
    ensures FeedAll(t, ModeSequences(modes, final), defaults)
            == Terminal(Ground, [],
                        if final == 'h' as int then t.modes + ElementsOf(modes)
                        else t.modes - ElementsOf(modes))
    decreases |modes|
  {
    if modes != [] {
      var init, last := modes[..|modes| - 1], modes[|modes| - 1];
      FeedModeSequences(t, init, final, defaults);
      FeedAllAppend(t, ModeSequences(init, final), ModeSequence(last, final), defaults);
      FeedModeSequence(FeedAll(t, ModeSequences(init, final), defaults), last, final, defaults);
      ElementsSnoc(init, last);
      assert init + [last] == modes;
    }
  }

  lemma {:induction false} ElementsSnoc(init: seq<nat>, last: nat)
    ensures ElementsOf(init + [last]) == ElementsOf(init) + {last}
  {
    var all := init + [last];
    forall x | x in ElementsOf(init) + {last} ensures x in ElementsOf(all) {
      if x in ElementsOf(init) {
        var i :| 0 <= i < |init| && init[i] == x;
        assert all[i] == x;
      } else {
        assert all[|init|] == x;
      }
    }
  }

  /** From any state whatever, the reset ends in Ground with the default modes. */
  lemma {:induction false} ResetFeeds(t: Terminal, defaults: set<nat>)
    ensures FeedAll(t, REPLAY_RESET, defaults) == Terminal(Ground, [], defaults)
  {
    var a: seq<byte> := [CAN];
    var b := a + [ESC];
    var c := b + ['c' as int];
    FeedOne(t, [], CAN, defaults);
    assert [] + [CAN] == a;
    FeedOne(t, a, ESC, defaults);
    FeedOne(t, b, 'c' as int, defaults);
    assert FeedAll(t, c, defaults) == Terminal(Ground, [], defaults);
    FeedErase(t, c, '3' as int, defaults);
    var d := c + [ESC, '[' as int, '3' as int, 'J' as int];
    FeedErase(t, d, '2' as int, defaults);
    var e := d + [ESC, '[' as int, '2' as int, 'J' as int];
    FeedOne(t, e, ESC, defaults);
    FeedOne(t, e + [ESC], '[' as int, defaults);
    FeedOne(t, e + [ESC] + ['[' as int], 'H' as int, defaults);
    assert e + [ESC] + ['[' as int] + ['H' as int] == REPLAY_RESET;
  }

  lemma {:induction false} FeedErase(t: Terminal, before: seq<byte>, digit: byte, defaults: set<nat>)
    requires IsDigit(digit) && FeedAll(t, before, defaults) == Terminal(Ground, [], defaults)
    ensures FeedAll(t, before + [ESC, '[' as int, digit, 'J' as int], defaults)
            == Terminal(Ground, [], defaults)
  {
    FeedOne(t, before, ESC, defaults);
    FeedOne(t, before + [ESC], '[' as int, defaults);
    FeedOne(t, before + [ESC] + ['[' as int], digit, defaults);
    FeedOne(t, before + [ESC] + ['[' as int] + [digit], 'J' as int, defaults);
    assert before + [ESC] + ['[' as int] + [digit] + ['J' as int]
        == before + [ESC, '[' as int, digit, 'J' as int];
  }

  /**
    The reset and the preamble, written to a terminal in any state, leave it in
    Ground with exactly these modes set: the defaults, the alternate screen if the
    workload was on it, and every mode listed as set, minus those listed as reset.
   */
  lemma {:induction false} RebaseRestoresModes(t: Terminal, modes: TerminalModes, defaults: set<nat>)
    ensures FeedAll(t, REPLAY_RESET + Preamble(modes), defaults)
            == Terminal(Ground, [],
                        defaults + (if modes.altScreen then {ALT_SCREEN} else {})
                        + ElementsOf(modes.turnedOn) - ElementsOf(modes.turnedOff))
  {
    hide *;
    var alt: seq<byte> := if modes.altScreen then ModeSequence(ALT_SCREEN, 'h' as int) else [];
    var t0 := Terminal(Ground, [], defaults);
    var t1 := t0.(modes := defaults + if modes.altScreen then {ALT_SCREEN} else {});
    var t2 := t1.(modes := t1.modes + ElementsOf(modes.turnedOn));
    ResetFeeds(t, defaults);
    FeedAllAppend(t, REPLAY_RESET, Preamble(modes), defaults);
    assert FeedAll(t0, alt, defaults) == t1 by {
      if modes.altScreen {
        FeedModeSequence(t0, ALT_SCREEN, 'h' as int, defaults);
      } else {
        EmptyFeeds(t0, defaults);
      }
    }
    var setBytes, resetBytes := ModeSequences(modes.turnedOn, 'h' as int), ModeSequences(modes.turnedOff, 'l' as int);
    FeedAllAppend(t0, alt, setBytes, defaults);
    FeedModeSequences(t1, modes.turnedOn, 'h' as int, defaults);
    FeedAllAppend(t0, alt + setBytes, resetBytes, defaults);
    FeedModeSequences(t2, modes.turnedOff, 'l' as int, defaults);
    PreambleParts(modes);
  }

  lemma {:induction false} EmptyFeeds(t: Terminal, defaults: set<nat>)
    ensures FeedAll(t, [], defaults) == t
  {
  }

  lemma {:induction false} PreambleParts(modes: TerminalModes)
    ensures Preamble(modes)
            == (if modes.altScreen then ModeSequence(ALT_SCREEN, 'h' as int) else [])
               + ModeSequences(modes.turnedOn, 'h' as int) + ModeSequences(modes.turnedOff, 'l' as int)
  {
  }

  /** For the parser alone: after reset and preamble a replay is read from Ground. */
  lemma {:induction false} RebaseReadsReplayFromGround(s: ScanState, modes: TerminalModes, replay: seq<byte>)
    ensures Scan(s, REPLAY_RESET + Preamble(modes) + replay) == Scan(Ground, replay)
  {
    var t := Terminal(s, [], {});
    RebaseRestoresModes(t, modes, {});
    FeedAllScans(t, REPLAY_RESET + Preamble(modes), {});
    ScanAppend(s, REPLAY_RESET + Preamble(modes), replay);
  }
}
