/**
  The stdin pump: raw bytes pass through the focus filter, during the mute window
  through the mute filter, then through UTF-8 framing, and what comes out is relayed
  to the Host.
 */
module StdinPump {
  import opened Bytes
  import opened Utf8Framing
  import FocusFilter
  import MuteFilter

  datatype FocusStage = Off | On(state: FocusFilter.FocusState)

  /** One turn of the loop: what the focus stage is told, and whether the mute window
      is still open. */
  datatype Turn = Turn(pass: FocusFilter.Pass, inWindow: bool)

  /** The state the loop carries, and everything relayed so far. */
  datatype Pump = Pump(
    focus: FocusStage, mute: MuteFilter.MuteState, pending: seq<byte>, relayed: seq<byte>)

  // ------------------------------------------------------------------
  // The stages of one turn.
  // ------------------------------------------------------------------

  datatype Focused = Focused(chunk: seq<byte>, stage: FocusStage)

  function FocusTurn(stage: FocusStage, p: FocusFilter.Pass): (f: Focused) {
    match stage
    case Off => Focused(p.raw, Off)
    case On(s) => var o := FocusFilter.FilterPass(s, p); Focused(o.bytes, On(o.state))
  }

  /** A timed-out lone Escape is a key, not an answer: it goes round the mute filter. */
  predicate IsLoneEscape(chunk: seq<byte>, expired: bool) {
    expired && chunk == [ESC]
  }

  /** Inside the window, and past it until the open sequence ends, chunks are muted. */
  predicate IsMuted(s: MuteFilter.MuteState, chunk: seq<byte>, expired: bool, inWindow: bool) {
    !IsLoneEscape(chunk, expired) && (inWindow || !s.Ground?)
  }

  function MuteTurn(s: MuteFilter.MuteState, chunk: seq<byte>, expired: bool, inWindow: bool)
    : (o: MuteFilter.Output)
  {
    if IsMuted(s, chunk, expired, inWindow) then MuteFilter.MuteAll(s, chunk)
    else MuteFilter.Output(chunk, s)
  }

  function TurnOnce(p: Pump, t: Turn): (q: Pump) {
    var focused := FocusTurn(p.focus, t.pass);
    var muted := MuteTurn(p.mute, focused.chunk, t.pass.expired, t.inWindow);
    var split := SplitValidUtf8(p.pending + muted.bytes);
    Pump(focused.stage, muted.state, split.held, p.relayed + split.text)
  }

  function Turns(p: Pump, turns: seq<Turn>): (q: Pump)
    decreases |turns|
  {
    if turns == [] then p else TurnOnce(Turns(p, turns[..|turns| - 1]), turns[|turns| - 1])
  }

  // ------------------------------------------------------------------
  // The loop body.
  // ------------------------------------------------------------------

  class StdinPump {
    const focusFilter: FocusFilter.FocusEventFilter?
    const muteFilter: MuteFilter.Filter
    var pending: seq<byte>
    var relayed: seq<byte>

    function View(): (p: Pump)
      reads this, focusFilter, muteFilter
    {
      Pump(if focusFilter == null then Off else On(focusFilter.state), muteFilter.state,
           pending, relayed)
    }

    constructor (filterFocusEvents: bool)
      ensures View() == Pump(if filterFocusEvents then On(FocusFilter.Ground) else Off,
                             MuteFilter.Ground, [], [])
      ensures fresh(muteFilter) && (focusFilter != null ==> fresh(focusFilter))
    {
      if filterFocusEvents {
        focusFilter := new FocusFilter.FocusEventFilter();
      } else {
        focusFilter := null;
      }
      muteFilter := new MuteFilter.Filter();
      pending, relayed := [], [];
    }

    /** One turn on the bytes read; a timed-out prefix comes with no bytes. */
    method OnTurn(t: Turn)
      requires t.pass.expired ==> t.pass.raw == [] && !t.pass.eof
      modifies this, muteFilter, focusFilter
      ensures View() == TurnOnce(old(View()), t)
    {
      var chunk;
      if focusFilter != null && !t.pass.forward {
        chunk := focusFilter.Filter(t.pass.raw);
        if t.pass.eof || t.pass.expired {
          var held := focusFilter.Flush();
          chunk := chunk + held;
        }
      } else if focusFilter != null {
        chunk := focusFilter.Flush();
        chunk := chunk + t.pass.raw;
      } else {
        chunk := t.pass.raw;
      }

      if t.pass.expired && chunk == [ESC] {
        pending := pending + chunk;
      } else if t.inWindow || !muteFilter.IsGround() {
        var kept := muteFilter.Mute(chunk);
        pending := pending + kept;
      } else {
        pending := pending + chunk;
      }

      var split := SplitValidUtf8(pending);
      pending := split.held;
      relayed := relayed + split.text;
    }

    method Relay(turns: seq<Turn>)
      requires forall i :: 0 <= i < |turns| ==>
        turns[i].pass.expired ==> turns[i].pass.raw == [] && !turns[i].pass.eof
      modifies this, muteFilter, focusFilter
      ensures View() == Turns(old(View()), turns)
    {
      for i := 0 to |turns|
        invariant View() == Turns(old(View()), turns[..i])
      {
        assert turns[..i + 1][..i] == turns[..i];
        OnTurn(turns[i]);
      }
      assert turns[..|turns|] == turns;
    }
  }

  // ------------------------------------------------------------------
  // The pipeline over a whole run.
  // ------------------------------------------------------------------

  function FreshPump(focus: FocusStage): (p: Pump) {
    Pump(focus, MuteFilter.Ground, [], [])
  }

  /** What the filters have passed on to UTF-8 framing. */
  function Fed(p: Pump, turns: seq<Turn>): (bytes: seq<byte>)
    decreases |turns|
  {
    if turns == [] then []
    else
      var init, t := turns[..|turns| - 1], turns[|turns| - 1];
      var before := Turns(p, init);
      Fed(p, init)
      + MuteTurn(before.mute, FocusTurn(before.focus, t.pass).chunk, t.pass.expired, t.inWindow).bytes
  }

  /** Framing turn by turn relays what framing everything at once would. */
  lemma {:induction false} RelayedIsFramed(p: Pump, turns: seq<Turn>)
    requires p.pending == [] && p.relayed == []
    ensures Split(Turns(p, turns).relayed, Turns(p, turns).pending) == SplitValidUtf8(Fed(p, turns))
    decreases |turns|
  {
    hide SplitValidUtf8, MuteTurn, FocusTurn;
    if turns == [] {
      EmptySplit();
    } else {
      var init := turns[..|turns| - 1];
      var before := Turns(p, init);
      RelayedIsFramed(p, init);
      var t := turns[|turns| - 1];
      var muted :=
        MuteTurn(before.mute, FocusTurn(before.focus, t.pass).chunk, t.pass.expired, t.inWindow);
      SplitStreams(Fed(p, init), muted.bytes);
    }
  }

  lemma {:induction false} EmptySplit()
    ensures SplitValidUtf8([]) == Split([], [])
  {
  }

  /** What is held back between turns is the beginning of a character. */
  lemma {:induction false} PendingIsPrefix(p: Pump, turns: seq<Turn>)
    requires p.pending == [] && p.relayed == []
    ensures Turns(p, turns).pending == [] || IsCharPrefix(Turns(p, turns).pending)
  {
    hide SplitValidUtf8, IsCharPrefix, Turns;
    RelayedIsFramed(p, turns);
    SplitSound(Fed(p, turns));
  }

  /**
    A lone Escape that times out is a key. After any run whatsoever it is relayed at once,
    in the mute window or out of it, in the middle of a swallowed sequence or not; the mute
    filter does not see it, and a character it cuts short is dropped.
   */
  lemma {:induction false} LoneEscapeIsRelayed(focus: FocusStage, turns: seq<Turn>, forward: bool, inWindow: bool)
    requires Turns(FreshPump(focus), turns).focus == On(FocusFilter.Esc)
    ensures
      var before := Turns(FreshPump(focus), turns);
      Turns(FreshPump(focus), turns + [Turn(FocusFilter.Pass([], forward, true, false), inWindow)])
      == Pump(On(FocusFilter.Ground), before.mute, [], before.relayed + [0x1b])
  {
    var p, t := FreshPump(focus), Turn(FocusFilter.Pass([], forward, true, false), inWindow);
    assert (turns + [t])[..|turns|] == turns;
    var before := Turns(p, turns);
    PendingIsPrefix(p, turns);
    SplitAfterCutShort(before.pending, 0x1b);
    hide SplitValidUtf8, IsCharPrefix;
    assert FocusFilter.FilterAll(FocusFilter.Esc, []) == FocusFilter.Output([], FocusFilter.Esc);
    assert [] + [ESC] == [ESC] && [ESC] + [] == [ESC];
    assert FocusTurn(before.focus, t.pass) == Focused([ESC], On(FocusFilter.Ground));
  }

  function Passes(turns: seq<Turn>): (passes: seq<FocusFilter.Pass>)
    ensures |passes| == |turns|
    ensures forall i :: 0 <= i < |turns| ==> passes[i] == turns[i].pass
  {
    seq(|turns|, i requires 0 <= i < |turns| => turns[i].pass)
  }

  predicate WindowClosed(turns: seq<Turn>) {
    forall i :: 0 <= i < |turns| ==> !turns[i].inWindow
  }

  /** With the window closed the focus stage's output goes straight to framing. */
  lemma {:induction false} FedIsFocusOutput(s: FocusFilter.FocusState, turns: seq<Turn>)
    requires WindowClosed(turns)
    ensures
      var p := FreshPump(On(s));
      var focus := FocusFilter.FilterPasses(s, Passes(turns));
      && Fed(p, turns) == focus.bytes
      && Turns(p, turns).focus == On(focus.state)
      && Turns(p, turns).mute == MuteFilter.Ground
    decreases |turns|
  {
    hide FocusFilter.FilterPass, SplitValidUtf8;
    if turns != [] {
      var init, t := turns[..|turns| - 1], turns[|turns| - 1];
      FedIsFocusOutput(s, init);
      FocusFilter.FilterPassesSnoc(s, Passes(init), t.pass);
      assert Passes(init) + [t.pass] == Passes(turns);
    }
  }

  /** Without the focus filter and with the window closed, what is read is what is framed. */
  lemma {:induction false} UnfilteredIsFed(turns: seq<Turn>)
    requires WindowClosed(turns)
    ensures
      var p := FreshPump(Off);
      && Fed(p, turns) == FocusFilter.RawInput(Passes(turns))
      && Turns(p, turns).focus == Off && Turns(p, turns).mute == MuteFilter.Ground
      && Turns(p, turns).relayed == SplitValidUtf8(FocusFilter.RawInput(Passes(turns))).text
    decreases |turns|
  {
    hide SplitValidUtf8;
    var p := FreshPump(Off);
    RelayedIsFramed(p, turns);
    if turns != [] {
      var init, t := turns[..|turns| - 1], turns[|turns| - 1];
      UnfilteredIsFed(init);
      RawInputSnoc(Passes(init), t.pass);
      assert Passes(init) + [t.pass] == Passes(turns);
    }
  }

  lemma {:induction false} RawInputSnoc(passes: seq<FocusFilter.Pass>, p: FocusFilter.Pass)
    ensures FocusFilter.RawInput(passes + [p]) == FocusFilter.RawInput(passes) + p.raw
    decreases |passes|
  {
    if passes == [] {
      assert (passes + [p])[1..] == [];
    } else {
      assert (passes + [p])[1..] == passes[1..] + [p];
      RawInputSnoc(passes[1..], p);
    }
  }

  /**
    Outside the mute window, whatever mixture of chunks, forwarding flips, timeouts and
    end of input has occurred so far, the relayed text is UTF-8 keeping applied to what the
    focus stage has let out, and that is the input with the focus events of its stretches
    removed, but for the prefix still held.
   */
  lemma {:induction false} RelayedIsKeptStretches(turns: seq<Turn>)
    requires WindowClosed(turns)
    ensures
      var run := FocusFilter.FilterPasses(FocusFilter.Ground, Passes(turns));
      && Turns(FreshPump(On(FocusFilter.Ground)), turns).relayed == SplitValidUtf8(run.bytes).text
      && run.bytes + FocusFilter.Held(run.state) == FocusFilter.Stretches([], Passes(turns))
  {
    var p := FreshPump(On(FocusFilter.Ground));
    hide SplitValidUtf8, FocusFilter.Stretches, FocusFilter.FilterPasses, Turns, Fed;
    RelayedIsFramed(p, turns);
    FedIsFocusOutput(FocusFilter.Ground, turns);
    FocusFilter.PassesAreStretches([], Passes(turns));
    FocusFilter.EmptyRun();
    var run := FocusFilter.FilterPasses(FocusFilter.Ground, Passes(turns));
    assert [] + run.bytes + FocusFilter.Held(run.state) == run.bytes + FocusFilter.Held(run.state);
  }

  /** Once a flip, a timeout or the end of the input has come, nothing is held. */
  lemma {:induction false} RelayedAfterClose(turns: seq<Turn>)
    requires WindowClosed(turns) && turns != [] && FocusFilter.Closes(turns[|turns| - 1].pass)
    ensures Turns(FreshPump(On(FocusFilter.Ground)), turns).relayed
            == SplitValidUtf8(FocusFilter.Stretches([], Passes(turns))).text
  {
    hide SplitValidUtf8, FocusFilter.Stretches, FocusFilter.FilterPasses, Turns;
    RelayedIsKeptStretches(turns);
    FocusFilter.LastPassDecides(FocusFilter.Ground, Passes(turns));
    var run := FocusFilter.FilterPasses(FocusFilter.Ground, Passes(turns));
    assert run.bytes + [] == run.bytes;
  }

  /** Nothing happens but reading: no window, no timeout, no forwarding. */
  predicate OnlyReads(turns: seq<Turn>) {
    forall i :: 0 <= i < |turns| ==>
      !turns[i].inWindow && !turns[i].pass.forward && !turns[i].pass.expired && !turns[i].pass.eof
  }

  /** The same, and then the end of the input. */
  predicate ReadsToEnd(turns: seq<Turn>) {
    && turns != [] && OnlyReads(turns[..|turns| - 1])
    && var last := turns[|turns| - 1];
    !last.inWindow && !last.pass.forward && !last.pass.expired && last.pass.eof
  }

  lemma {:induction false} ReadingIsFiltering(s: FocusFilter.FocusState, passes: seq<FocusFilter.Pass>)
    requires forall i :: 0 <= i < |passes| ==> !FocusFilter.Closes(passes[i])
    ensures FocusFilter.FilterPasses(s, passes) == FocusFilter.FilterAll(s, FocusFilter.RawInput(passes))
    decreases |passes|
  {
    if passes != [] {
      var first := FocusFilter.FilterAll(s, passes[0].raw);
      ReadingIsFiltering(first.state, passes[1..]);
      FocusFilter.FilterAllAppend(s, passes[0].raw, FocusFilter.RawInput(passes[1..]));
    }
  }

  /**
    The bytes relayed so far depend only on the bytes typed, not on how reads chunk them:
    they are UTF-8 keeping of what the filter lets out of the whole input, and with the
    prefix it holds that is focus-event removal of the whole input.
   */
  lemma {:induction false} RelayedDependsOnlyOnInput(turns: seq<Turn>)
    requires OnlyReads(turns)
    ensures
      var input := FocusFilter.RawInput(Passes(turns));
      var out := FocusFilter.FilterAll(FocusFilter.Ground, input);
      && Turns(FreshPump(On(FocusFilter.Ground)), turns).relayed == SplitValidUtf8(out.bytes).text
      && out.bytes + FocusFilter.Held(out.state) == FocusFilter.RemoveFocusEvents(input)
  {
    hide SplitValidUtf8, FocusFilter.RemoveFocusEvents, FocusFilter.Stretches, Turns;
    RelayedIsKeptStretches(turns);
    ReadingIsFiltering(FocusFilter.Ground, Passes(turns));
    FocusFilter.FilterRemovesFocusEvents(FocusFilter.RawInput(Passes(turns)));
  }

  /** At the end of the input the relayed bytes are UTF-8 keeping of focus-event removal of
      the whole input. */
  lemma {:induction false} RelayedAtEndOfInput(turns: seq<Turn>)
    requires ReadsToEnd(turns)
    ensures Turns(FreshPump(On(FocusFilter.Ground)), turns).relayed
            == SplitValidUtf8(FocusFilter.RemoveFocusEvents(FocusFilter.RawInput(Passes(turns)))).text
  {
    hide SplitValidUtf8, FocusFilter.RemoveFocusEvents, FocusFilter.Stretches, Turns;
    RelayedAfterClose(turns);
    assert forall i :: 0 <= i < |turns| - 1 ==> turns[i] == turns[..|turns| - 1][i];
    OneStretch([], Passes(turns));
    assert [] + FocusFilter.RawInput(Passes(turns)) == FocusFilter.RawInput(Passes(turns));
  }

  lemma {:induction false} OneStretch(open: seq<byte>, passes: seq<FocusFilter.Pass>)
    requires passes != []
    requires forall i :: 0 <= i < |passes| ==> !passes[i].forward && !passes[i].expired
    requires forall i :: 0 <= i < |passes| ==> (passes[i].eof <==> i == |passes| - 1)
    ensures FocusFilter.Stretches(open, passes)
            == FocusFilter.RemoveFocusEvents(open + FocusFilter.RawInput(passes))
    decreases |passes|
  {
    hide FocusFilter.RemoveFocusEvents;
    var p, rest := passes[0], passes[1..];
    if rest == [] {
      EmptyRemoval();
      var whole := FocusFilter.RemoveFocusEvents(open + p.raw);
      assert FocusFilter.RawInput(rest) == [] && p.raw + [] == p.raw;
      assert whole + [] == whole;
    } else {
      assert forall i :: 0 <= i < |rest| ==> rest[i] == passes[i + 1];
      OneStretch(open + p.raw, rest);
      ConcatAssociative(open, p.raw, FocusFilter.RawInput(rest));
    }
  }

  lemma {:induction false} EmptyRemoval()
    ensures FocusFilter.RemoveFocusEvents([]) == []
  {
  }

  // ------------------------------------------------------------------
  // The mute window.
  // ------------------------------------------------------------------

  /** A chunk as it reaches the mute stage. */
  datatype Arrival = Arrival(chunk: seq<byte>, expired: bool, inWindow: bool)

  function Muting(arrivals: seq<Arrival>): (s: MuteFilter.MuteState)
    decreases |arrivals|
  {
    if arrivals == [] then MuteFilter.Ground
    else
      var a := arrivals[|arrivals| - 1];
      MuteTurn(Muting(arrivals[..|arrivals| - 1]), a.chunk, a.expired, a.inWindow).state
  }

  /** All bytes that went into the mute filter. */
  function MutedBytes(arrivals: seq<Arrival>): (bytes: seq<byte>)
    decreases |arrivals|
  {
    if arrivals == [] then []
    else
      var init, a := arrivals[..|arrivals| - 1], arrivals[|arrivals| - 1];
      MutedBytes(init) + if IsMuted(Muting(init), a.chunk, a.expired, a.inWindow) then a.chunk else []
  }

  lemma {:induction false} MutingIsRead(arrivals: seq<Arrival>)
    ensures Muting(arrivals) == MuteFilter.MuteAll(MuteFilter.Ground, MutedBytes(arrivals)).state
    decreases |arrivals|
  {
    hide MuteFilter.MuteAll;
    if arrivals == [] {
      MuteFilter.EmptyMute(MuteFilter.Ground);
    } else {
      var init, a := arrivals[..|arrivals| - 1], arrivals[|arrivals| - 1];
      MutingIsRead(init);
      if IsMuted(Muting(init), a.chunk, a.expired, a.inWindow) {
        MuteFilter.MuteAllAppend(MuteFilter.Ground, MutedBytes(init), a.chunk);
      } else {
        assert MutedBytes(init) + [] == MutedBytes(init);
      }
    }
  }

  /** What the mute stage lets out. */
  function Unmuted(arrivals: seq<Arrival>): (bytes: seq<byte>)
    decreases |arrivals|
  {
    if arrivals == [] then []
    else
      var init, a := arrivals[..|arrivals| - 1], arrivals[|arrivals| - 1];
      Unmuted(init) + MuteTurn(Muting(init), a.chunk, a.expired, a.inWindow).bytes
  }

  function Joined(arrivals: seq<Arrival>): (bytes: seq<byte>) {
    if arrivals == [] then []
    else Joined(arrivals[..|arrivals| - 1]) + arrivals[|arrivals| - 1].chunk
  }

  /** Time passes: once closed, the window stays closed. */
  predicate WindowCloses(arrivals: seq<Arrival>) {
    forall i, j :: 0 <= i < j < |arrivals| && arrivals[j].inWindow ==> arrivals[i].inWindow
  }

  predicate NoLoneEscapes(arrivals: seq<Arrival>) {
    forall i :: 0 <= i < |arrivals| ==> !IsLoneEscape(arrivals[i].chunk, arrivals[i].expired)
  }

  /** The first `k` chunks were muted, the rest untouched; the window lies within the
      first `k`, and the stage turned transparent only at the end of a token. */
  ghost predicate MutedUpTo(arrivals: seq<Arrival>, k: nat) {
    && k <= |arrivals|
    && (forall i :: k <= i < |arrivals| ==> !arrivals[i].inWindow)
    && Unmuted(arrivals)
       == MuteFilter.MuteAll(MuteFilter.Ground, Joined(arrivals[..k])).bytes + Joined(arrivals[k..])
    && Muting(arrivals) == MuteFilter.MuteAll(MuteFilter.Ground, Joined(arrivals[..k])).state
    && (k < |arrivals| ==> Muting(arrivals) == MuteFilter.Ground)
  }

  lemma {:induction false} JoinedSnoc(arrivals: seq<Arrival>, a: Arrival)
    ensures Joined(arrivals + [a]) == Joined(arrivals) + a.chunk
  {
    assert (arrivals + [a])[..|arrivals|] == arrivals;
  }

  /**
    With no timed-out lone Escape, the stage erases the escape tokens of an initial
    stretch of chunks that covers the window and ends on a token boundary, and passes
    everything after it untouched.
   */
  lemma {:induction false} MuteStageMutesPrefix(arrivals: seq<Arrival>) returns (k: nat)
    requires WindowCloses(arrivals) && NoLoneEscapes(arrivals)
    ensures MutedUpTo(arrivals, k)
    decreases |arrivals|
  {
    hide MuteFilter.MuteAll;
    if arrivals == [] {
      k := 0;
      MuteFilter.EmptyMute(MuteFilter.Ground);
      assert arrivals[..0] == [] && arrivals[0..] == [];
    } else {
      var init, a := arrivals[..|arrivals| - 1], arrivals[|arrivals| - 1];
      k := MuteStageMutesPrefix(init);
      assert init + [a] == arrivals;
      assert k < |init| ==> arrivals[k] == init[k] && !init[k].inWindow;
      if IsMuted(Muting(init), a.chunk, a.expired, a.inWindow) {
        StillMuting(init, a);
        k := |arrivals|;
      } else {
        PassesThrough(init, k, a);
      }
    }
  }

  lemma {:induction false} StillMuting(init: seq<Arrival>, a: Arrival)
    requires MutedUpTo(init, |init|) && IsMuted(Muting(init), a.chunk, a.expired, a.inWindow)
    ensures MutedUpTo(init + [a], |init| + 1)
  {
    hide MuteFilter.MuteAll;
    var all, n, ground := init + [a], |init|, MuteFilter.Ground;
    assert all[..n] == init && all[..n + 1] == all && all[n + 1..] == [];
    assert init[..n] == init && init[n..] == [];
    JoinedSnoc(init, a);
    MuteFilter.MuteAllAppend(ground, Joined(init), a.chunk);
    var before, after := MuteFilter.MuteAll(ground, Joined(init)), MuteFilter.MuteAll(ground, Joined(all));
    assert before.bytes + [] == before.bytes && after.bytes + [] == after.bytes;
  }

  lemma {:induction false} PassesThrough(init: seq<Arrival>, k: nat, a: Arrival)
    requires MutedUpTo(init, k) && !IsMuted(Muting(init), a.chunk, a.expired, a.inWindow)
    requires !IsLoneEscape(a.chunk, a.expired)
    ensures MutedUpTo(init + [a], k)
  {
    hide MuteFilter.MuteAll;
    var all, n := init + [a], |init|;
    assert all[..n] == init && all[..k] == init[..k] && all[k..] == init[k..] + [a];
    JoinedSnoc(init[k..], a);
    var before := MuteFilter.MuteAll(MuteFilter.Ground, Joined(init[..k]));
    ConcatAssociative(before.bytes, Joined(init[k..]), a.chunk);
  }

  // ------------------------------------------------------------------
  // The mute window in the pump.
  // ------------------------------------------------------------------

  /** The chunks that reach the mute stage in a run. */
  function Arrivals(p: Pump, turns: seq<Turn>): (arrivals: seq<Arrival>)
    ensures |arrivals| == |turns|
    decreases |turns|
  {
    if turns == [] then []
    else
      var init, t := turns[..|turns| - 1], turns[|turns| - 1];
      Arrivals(p, init) + [Arrival(FocusTurn(Turns(p, init).focus, t.pass).chunk, t.pass.expired, t.inWindow)]
  }

  /** The pump's mute stage is the stage on its arrivals. */
  lemma {:induction false} PumpMutesArrivals(p: Pump, turns: seq<Turn>)
    requires p.mute.Ground?
    ensures Turns(p, turns).mute == Muting(Arrivals(p, turns))
    ensures Fed(p, turns) == Unmuted(Arrivals(p, turns))
    decreases |turns|
  {
    hide MuteTurn, FocusTurn, SplitValidUtf8;
    if turns != [] {
      var init := turns[..|turns| - 1];
      PumpMutesArrivals(p, init);
      assert Arrivals(p, turns)[..|init|] == Arrivals(p, init);
    }
  }

  lemma {:induction false} ArrivalsPrefix(p: Pump, turns: seq<Turn>, i: nat)
    requires i <= |turns|
    ensures Arrivals(p, turns)[..i] == Arrivals(p, turns[..i])
    ensures i < |turns| ==>
      Arrivals(p, turns)[i]
      == Arrival(FocusTurn(Turns(p, turns[..i]).focus, turns[i].pass).chunk, turns[i].pass.expired, turns[i].inWindow)
    decreases |turns|
  {
    hide FocusTurn, Turns;
    if i == |turns| {
      assert turns[..i] == turns && Arrivals(p, turns)[..i] == Arrivals(p, turns);
    } else {
      var init := turns[..|turns| - 1];
      ArrivalsPrefix(p, init, i);
      assert Arrivals(p, turns)[..|init|] == Arrivals(p, init);
      assert init[..i] == turns[..i] && Arrivals(p, turns)[..i] == Arrivals(p, init)[..i];
    }
  }

  /** With the focus filter on, the arrivals together are what the focus stage lets out. */
  lemma {:induction false} ArrivalsAreFocusOutput(s: FocusFilter.FocusState, turns: seq<Turn>)
    ensures
      var p := FreshPump(On(s));
      var focus := FocusFilter.FilterPasses(s, Passes(turns));
      Joined(Arrivals(p, turns)) == focus.bytes && Turns(p, turns).focus == On(focus.state)
    decreases |turns|
  {
    hide FocusFilter.FilterPass, SplitValidUtf8, MuteTurn;
    var p := FreshPump(On(s));
    if turns != [] {
      var init, t := turns[..|turns| - 1], turns[|turns| - 1];
      ArrivalsAreFocusOutput(s, init);
      FocusFilter.FilterPassesSnoc(s, Passes(init), t.pass);
      assert Passes(init) + [t.pass] == Passes(turns);
      JoinedSnoc(Arrivals(p, init), Arrivals(p, turns)[|init|]);
    }
  }

  /** What the pump's mute filter has swallowed or read in a run. */
  function Swallowed(p: Pump, turns: seq<Turn>): (bytes: seq<byte>) {
    MutedBytes(Arrivals(p, turns))
  }

  /** The chunk of turn `i` as it leaves the focus stage. */
  function ChunkOf(p: Pump, turns: seq<Turn>, i: nat): (chunk: seq<byte>)
    requires i < |turns|
  {
    FocusTurn(Turns(p, turns[..i]).focus, turns[i].pass).chunk
  }

  /** Turn `i` of a run hands its chunk to the mute filter. */
  predicate TurnMutes(p: Pump, turns: seq<Turn>, i: nat)
    requires i < |turns|
  {
    IsMuted(Turns(p, turns[..i]).mute, ChunkOf(p, turns, i), turns[i].pass.expired, turns[i].inWindow)
  }

  /** The pump's mute state is that of reading all it has swallowed. */
  lemma {:induction false} PumpMutingIsRead(p: Pump, turns: seq<Turn>)
    requires p.mute.Ground?
    ensures Turns(p, turns).mute == MuteFilter.MuteAll(MuteFilter.Ground, Swallowed(p, turns)).state
  {
    PumpMutesArrivals(p, turns);
    MutingIsRead(Arrivals(p, turns));
  }

  /**
    No sequence is half forwarded. In any run of the pump, a turn whose chunk reaches
    framing unmuted, other than a timed-out lone Escape, comes with the window closed and
    only when what the filter has swallowed so far is a whole number of tokens; while it is
    not, every such turn is muted.
   */
  lemma {:induction false} SequencesAreSwallowedWhole(p: Pump, turns: seq<Turn>, i: nat)
    requires p.mute.Ground? && i < |turns|
    requires !IsLoneEscape(ChunkOf(p, turns, i), turns[i].pass.expired)
    ensures !TurnMutes(p, turns, i) <==>
      !turns[i].inWindow
      && exists tokens ::
           MuteFilter.ValidTokens(tokens) && MuteFilter.AllBytes(tokens) == Swallowed(p, turns[..i])
  {
    PumpMutingIsRead(p, turns[..i]);
    hide Turns;
    MuteFilter.GroundIffWholeTokens(Swallowed(p, turns[..i]));
  }

  /** Time passes, and no timed-out lone Escape goes round the filter. */
  predicate OrdinaryRun(p: Pump, turns: seq<Turn>) {
    && (forall i, j :: 0 <= i < j < |turns| && turns[j].inWindow ==> turns[i].inWindow)
    && forall i :: 0 <= i < |turns| ==> !IsLoneEscape(ChunkOf(p, turns, i), turns[i].pass.expired)
  }

  lemma {:induction false} OrdinaryArrivals(p: Pump, turns: seq<Turn>)
    requires OrdinaryRun(p, turns)
    ensures WindowCloses(Arrivals(p, turns)) && NoLoneEscapes(Arrivals(p, turns))
  {
    forall i | 0 <= i < |turns|
      ensures Arrivals(p, turns)[i]
              == Arrival(ChunkOf(p, turns, i), turns[i].pass.expired, turns[i].inWindow)
    {
      ArrivalsPrefix(p, turns, i);
    }
  }

  /**
    The whole input side. The chunks the focus stage lets out fall in two: the escape tokens
    of the first `k`, which cover the window and end with a token unless they are all, are
    erased; the rest is untouched; and what is relayed is UTF-8 keeping of the two.
   */
  lemma {:induction false} PumpMutesPrefix(turns: seq<Turn>) returns (k: nat, muted: seq<byte>, rest: seq<byte>)
    requires OrdinaryRun(FreshPump(On(FocusFilter.Ground)), turns)
    ensures k <= |turns| && forall i :: k <= i < |turns| ==> !turns[i].inWindow
    ensures FocusFilter.FilterPasses(FocusFilter.Ground, Passes(turns)).bytes == muted + rest
    ensures
      var p := FreshPump(On(FocusFilter.Ground));
      var out := MuteFilter.MuteAll(MuteFilter.Ground, muted);
      && muted == Joined(Arrivals(p, turns)[..k]) && rest == Joined(Arrivals(p, turns)[k..])
      && Fed(p, turns) == out.bytes + rest
      && Turns(p, turns).mute == out.state
      && Turns(p, turns).relayed == SplitValidUtf8(out.bytes + rest).text
      && (k < |turns| ==> out.state == MuteFilter.Ground)
  {
    var p := FreshPump(On(FocusFilter.Ground));
    var arrivals := Arrivals(p, turns);
    OrdinaryArrivals(p, turns);
    PumpMutesArrivals(p, turns);
    ArrivalsAreFocusOutput(FocusFilter.Ground, turns);
    RelayedIsFramed(p, turns);
    hide *;
    k, muted, rest := MutedAndRest(arrivals);
    forall i | k <= i < |turns| ensures !turns[i].inWindow {
      ArrivalsPrefix(p, turns, i);
    }
  }

  /** The two parts of the arrivals. */
  lemma {:induction false} MutedAndRest(arrivals: seq<Arrival>) returns (k: nat, muted: seq<byte>, rest: seq<byte>)
    requires WindowCloses(arrivals) && NoLoneEscapes(arrivals)
    ensures k <= |arrivals| && forall i :: k <= i < |arrivals| ==> !arrivals[i].inWindow
    ensures muted == Joined(arrivals[..k]) && rest == Joined(arrivals[k..])
    ensures Joined(arrivals) == muted + rest
    ensures
      var out := MuteFilter.MuteAll(MuteFilter.Ground, muted);
      && Unmuted(arrivals) == out.bytes + rest
      && Muting(arrivals) == out.state
      && (k < |arrivals| ==> out.state == MuteFilter.Ground)
  {
    k := MuteStageMutesPrefix(arrivals);
    JoinedSplit(arrivals, k);
    hide MuteFilter.MuteAll, Muting, Unmuted, Joined;
    muted, rest := Joined(arrivals[..k]), Joined(arrivals[k..]);
  }

  lemma {:induction false} JoinedSplit(arrivals: seq<Arrival>, k: nat)
    requires k <= |arrivals|
    ensures Joined(arrivals) == Joined(arrivals[..k]) + Joined(arrivals[k..])
    decreases |arrivals|
  {
    hide Joined;
    if k == |arrivals| {
      assert arrivals[..k] == arrivals && arrivals[k..] == [];
      NothingJoined();
      assert Joined(arrivals) + [] == Joined(arrivals);
    } else {
      var init, a := arrivals[..|arrivals| - 1], arrivals[|arrivals| - 1];
      assert arrivals == init + [a];
      JoinedSnoc(init, a);
      JoinedSplit(init, k);
      assert init[..k] == arrivals[..k] && arrivals[k..] == init[k..] + [a];
      JoinedSnoc(init[k..], a);
      ConcatAssociative(Joined(init[..k]), Joined(init[k..]), a.chunk);
    }
  }

  lemma {:induction false} NothingJoined()
    ensures Joined([]) == []
  {
  }
}
