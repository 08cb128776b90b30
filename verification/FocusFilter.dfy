/**
  Removing terminal focus reports (`ESC [ I` and `ESC [ O`) from stdin, byte by
  byte, holding back at most the two bytes that may still turn out to be one.
 */
module FocusFilter {
  import opened Bytes

  const BRACKET: byte := '[' as int
  const FOCUS_IN: byte := 'I' as int
  const FOCUS_OUT: byte := 'O' as int

  datatype FocusState = Ground | Esc | EscBracket

  /** The bytes a state holds back. */
  function Held(s: FocusState): (bytes: seq<byte>)
    ensures |bytes| <= 2
  {
    match s
    case Ground => []
    case Esc => [ESC]
    case EscBracket => [ESC, BRACKET]
  }

  datatype Output = Output(bytes: seq<byte>, state: FocusState)

  function FilterByte(s: FocusState, b: byte): (o: Output) {
    match s
    case Ground => if b == ESC then Output([], Esc) else Output([b], Ground)
    case Esc =>
      if b == BRACKET then Output([], EscBracket)
      else if b == ESC then Output([ESC], Esc)
      else Output([ESC, b], Ground)
    case EscBracket =>
      if b == FOCUS_IN || b == FOCUS_OUT then Output([], Ground)
      else if b == ESC then Output([ESC, BRACKET], Esc)
      else Output([ESC, BRACKET, b], Ground)
  }

  function FilterAll(s: FocusState, input: seq<byte>): (o: Output)
    decreases |input|
  {
    if input == [] then Output([], s)
    else
      var front := FilterAll(s, input[..|input| - 1]);
      var last := FilterByte(front.state, input[|input| - 1]);
      Output(front.bytes + last.bytes, last.state)
  }

  class FocusEventFilter {
    var state: FocusState

    constructor ()
      ensures state == Ground
    {
      state := Ground;
    }

    method Filter(input: seq<byte>) returns (out: seq<byte>)
      modifies this
      ensures Output(out, state) == FilterAll(old(state), input)
    {
      out := [];
      for i := 0 to |input|
        invariant Output(out, state) == FilterAll(old(state), input[..i])
      {
        assert input[..i + 1][..i] == input[..i];
        var b := input[i];
        match state
        case Ground =>
          if b == ESC { state := Esc; } else { out := out + [b]; }
        case Esc =>
          if b == BRACKET { state := EscBracket; }
          else if b == ESC { out := out + [ESC]; }
          else { out := out + [ESC, b]; state := Ground; }
        case EscBracket =>
          if b == FOCUS_IN || b == FOCUS_OUT { state := Ground; }
          else if b == ESC { out := out + [ESC, BRACKET]; state := Esc; }
          else { out := out + [ESC, BRACKET, b]; state := Ground; }
      }
      assert input[..|input|] == input;
    }

    method Flush() returns (out: seq<byte>)
      modifies this
      ensures out == Held(old(state)) && state == Ground
    {
      match state {
        case Ground => out := [];
        case Esc => out := [ESC];
        case EscBracket => out := [ESC, BRACKET];
      }
      state := Ground;
    }
  }

  // ------------------------------------------------------------------
  // The whole-input reading.
  // ------------------------------------------------------------------

  predicate IsFocusEvent(s: seq<byte>) {
    s == [ESC, BRACKET, FOCUS_IN] || s == [ESC, BRACKET, FOCUS_OUT]
  }

  /** Delete the focus events that stand in the input; what the deletions bring
      together is not looked at again. */
  function RemoveFocusEvents(input: seq<byte>): (out: seq<byte>)
    decreases |input|
  {
    if input == [] then []
    else if |input| >= 3 && IsFocusEvent(input[..3]) then RemoveFocusEvents(input[3..])
    else [input[0]] + RemoveFocusEvents(input[1..])
  }

  lemma {:induction false} FilterAllAppend(s: FocusState, a: seq<byte>, b: seq<byte>)
    ensures FilterAll(s, a + b)
            == Output(FilterAll(s, a).bytes + FilterAll(FilterAll(s, a).state, b).bytes,
                      FilterAll(FilterAll(s, a).state, b).state)
    decreases |b|
  {
    if b == [] {
      assert a + b == a;
    } else {
      hide FilterByte;
      var init := b[..|b| - 1];
      assert (a + b)[..|a + b| - 1] == a + init;
      FilterAllAppend(s, a, init);
      var front := FilterAll(s, a);
      var rest := FilterAll(front.state, init);
      ConcatAssociative(front.bytes, rest.bytes, FilterByte(rest.state, b[|b| - 1]).bytes);
    }
  }

  lemma {:induction false} FilterOne(s: FocusState, b: byte)
    ensures FilterAll(s, [b]) == FilterByte(s, b)
  {
    assert [b][..0] == [];
    assert [] + FilterByte(s, b).bytes == FilterByte(s, b).bytes;
  }

  /** Everything a run emits, then what it holds. */
  function Total(s: FocusState, input: seq<byte>): (bytes: seq<byte>) {
    FilterAll(s, input).bytes + Held(FilterAll(s, input).state)
  }

  lemma {:induction false} TotalEmpty(s: FocusState)
    ensures Total(s, []) == Held(s)
  {
  }

  lemma {:induction false} TotalCons(s: FocusState, b: byte, rest: seq<byte>)
    ensures Total(s, [b] + rest) == FilterByte(s, b).bytes + Total(FilterByte(s, b).state, rest)
  {
    FilterOne(s, b);
    hide FilterAll, FilterByte, Held;
    FilterAllAppend(s, [b], rest);
    var after := FilterAll(FilterByte(s, b).state, rest);
    ConcatAssociative(FilterByte(s, b).bytes, after.bytes, Held(after.state));
  }

  /** `rest` does not complete a held ESC to a focus event. */
  predicate NoEventAfterEsc(rest: seq<byte>) {
    !(|rest| >= 2 && rest[0] == BRACKET && (rest[1] == FOCUS_IN || rest[1] == FOCUS_OUT))
  }

  /** An ESC that opens no focus event is passed through, and the filter reads on as
      if it had not been there. */
  lemma {:induction false} EscPassesThrough(rest: seq<byte>)
    requires NoEventAfterEsc(rest)
    ensures Total(Esc, rest) == [ESC] + Total(Ground, rest)
  {
    hide Total;
    TotalEmpty(Esc);
    TotalEmpty(Ground);
    if rest != [] {
      var b, more := rest[0], rest[1..];
      assert rest == [b] + more;
      TotalCons(Esc, b, more);
      TotalCons(Ground, b, more);
      if b == BRACKET {
        BracketPassesThrough(more);
        ConcatAssociative([ESC], [BRACKET], Total(Ground, more));
      } else if b != ESC {
        ConcatAssociative([ESC], [b], Total(Ground, more));
      }
    }
  }

  lemma {:induction false} BracketPassesThrough(rest: seq<byte>)
    requires rest != [] ==> rest[0] != FOCUS_IN && rest[0] != FOCUS_OUT
    ensures Total(EscBracket, rest) == [ESC, BRACKET] + Total(Ground, rest)
  {
    hide Total;
    TotalEmpty(EscBracket);
    TotalEmpty(Ground);
    if rest != [] {
      var b, more := rest[0], rest[1..];
      assert rest == [b] + more;
      TotalCons(EscBracket, b, more);
      TotalCons(Ground, b, more);
      if b != ESC {
        ConcatAssociative([ESC, BRACKET], [b], Total(Ground, more));
      }
    }
  }

  lemma {:induction false} EventIsDropped(input: seq<byte>)
    requires |input| >= 3 && IsFocusEvent(input[..3])
    ensures Total(Ground, input) == Total(Ground, input[3..])
  {
    hide Total;
    var last := input[..3][2];
    var rest := input[3..];
    assert input == [ESC] + ([BRACKET] + ([last] + rest));
    TotalCons(Ground, ESC, [BRACKET] + ([last] + rest));
    TotalCons(Esc, BRACKET, [last] + rest);
    TotalCons(EscBracket, last, rest);
    assert [] + Total(Ground, rest) == Total(Ground, rest);
  }

  /** However the input was cut into chunks, what the filter has emitted and what it
      holds make up the input with its focus events deleted. */
  lemma {:induction false} FilterRemovesFocusEvents(input: seq<byte>)
    ensures Total(Ground, input) == RemoveFocusEvents(input)
    decreases |input|
  {
    hide Total;
    TotalEmpty(Ground);
    if |input| >= 3 && IsFocusEvent(input[..3]) {
      EventIsDropped(input);
      FilterRemovesFocusEvents(input[3..]);
    } else if input != [] {
      var rest := input[1..];
      assert input == [input[0]] + rest;
      TotalCons(Ground, input[0], rest);
      if input[0] == ESC {
        assert |input| >= 3 ==> input[..3] == [input[0], rest[0], rest[1]];
        EscPassesThrough(rest);
      }
      FilterRemovesFocusEvents(rest);
    }
  }

  /** Reading `b` after `a` is reading `a + b`: chunk boundaries do not show. */
  lemma {:induction false} ChunksDoNotShow(s: FocusState, a: seq<byte>, b: seq<byte>)
    ensures FilterAll(s, a).bytes + Total(FilterAll(s, a).state, b) == Total(s, a + b)
  {
    FilterAllAppend(s, a, b);
  }

  // ------------------------------------------------------------------
  // Which bytes survive.
  // ------------------------------------------------------------------

  predicate EventAt(input: seq<byte>, i: int) {
    0 <= i <= |input| - 3 && IsFocusEvent(input[i..i + 3])
  }

  /** Byte `i` belongs to a focus event of the input. */
  predicate Covered(input: seq<byte>, i: int) {
    EventAt(input, i) || EventAt(input, i - 1) || EventAt(input, i - 2)
  }

  function Uncovered(input: seq<byte>, i: nat): (out: seq<byte>)
    requires i <= |input|
    decreases |input| - i
  {
    if i == |input| then []
    else (if Covered(input, i) then [] else [input[i]]) + Uncovered(input, i + 1)
  }

  lemma {:induction false} EventBytes(input: seq<byte>, i: nat)
    requires i + 3 <= |input|
    ensures EventAt(input, i) <==>
      input[i] == ESC && input[i + 1] == BRACKET
      && (input[i + 2] == FOCUS_IN || input[i + 2] == FOCUS_OUT)
  {
    assert input[i..i + 3] == [input[i], input[i + 1], input[i + 2]];
  }

  /** No focus event begins inside another. */
  lemma {:induction false} EventsDisjoint(input: seq<byte>, i: int)
    requires EventAt(input, i)
    ensures !EventAt(input, i + 1) && !EventAt(input, i + 2)
    ensures !EventAt(input, i - 1) && !EventAt(input, i - 2)
  {
    EventBytes(input, i);
    if i + 4 <= |input| { EventBytes(input, i + 1); }
    if i + 5 <= |input| { EventBytes(input, i + 2); }
    if i >= 1 { EventBytes(input, i - 1); }
    if i >= 2 { EventBytes(input, i - 2); }
  }

  /**
    The surviving bytes are exactly those outside every contiguous `ESC [ I` or
    `ESC [ O` of the input, in order.
   */
  lemma {:induction false} ExactlyEventsRemoved(input: seq<byte>, i: nat)
    requires i <= |input| && !EventAt(input, i - 1) && !EventAt(input, i - 2)
    ensures RemoveFocusEvents(input[i..]) == Uncovered(input, i)
    decreases |input| - i
  {
    if i < |input| {
      var rest := input[i..];
      if EventAt(input, i) {
        assert rest[..3] == input[i..i + 3] && rest[3..] == input[i + 3..];
        EventsDisjoint(input, i);
        ExactlyEventsRemoved(input, i + 3);
        assert Covered(input, i) && Covered(input, i + 1) && Covered(input, i + 2);
        UncoveredSkips(input, i);
        UncoveredSkips(input, i + 1);
        UncoveredSkips(input, i + 2);
      } else {
        assert |rest| >= 3 ==> rest[..3] == input[i..i + 3];
        assert rest[1..] == input[i + 1..];
        ExactlyEventsRemoved(input, i + 1);
      }
    }
  }

  lemma {:induction false} UncoveredSkips(input: seq<byte>, i: nat)
    requires i < |input| && Covered(input, i)
    ensures Uncovered(input, i) == Uncovered(input, i + 1)
  {
    assert [] + Uncovered(input, i + 1) == Uncovered(input, i + 1);
  }

  /** Deletion is a single pass, so its output may hold a focus event. */
  lemma {:induction false} OutputMayHoldFocusEvent()
    ensures RemoveFocusEvents([ESC, ESC, BRACKET, FOCUS_IN, BRACKET, FOCUS_IN])
            == [ESC, BRACKET, FOCUS_IN]
  {
    var input: seq<byte> := [ESC, ESC, BRACKET, FOCUS_IN, BRACKET, FOCUS_IN];
    assert input[..3] == [ESC, ESC, BRACKET];
    var a := input[1..];
    assert a[..3] == [ESC, BRACKET, FOCUS_IN];
    var b := a[3..];
    assert b == [BRACKET, FOCUS_IN] && b[1..] == [FOCUS_IN] && b[1..][1..] == [];
    assert RemoveFocusEvents(b[1..]) == [FOCUS_IN];
    assert RemoveFocusEvents(b) == [BRACKET] + [FOCUS_IN];
  }

  predicate IsFocusFinal(b: byte) {
    b == FOCUS_IN || b == FOCUS_OUT
  }

  /** Whole focus events, one after the other. */
  predicate AllEvents(s: seq<byte>)
    decreases |s|
  {
    s == [] || (|s| >= 3 && IsFocusEvent(s[..3]) && AllEvents(s[3..]))
  }

  /** The bytes of a focus event stand at `a`, `b` and `c`, kept apart by nothing but whole
      focus events, and not all by none. */
  predicate IsSplitEvent(input: seq<byte>, a: int, b: int, c: int) {
    && 0 <= a < b < c < |input| && a + 2 < c
    && input[a] == ESC && input[b] == BRACKET && IsFocusFinal(input[c])
    && AllEvents(input[a + 1..b]) && AllEvents(input[b + 1..c])
  }

  ghost predicate HoldsSplitEvent(input: seq<byte>) {
    exists a, b, c :: IsSplitEvent(input, a, b, c)
  }

  ghost predicate HoldsEvent(s: seq<byte>) {
    exists i :: EventAt(s, i)
  }

  /** How many bytes of whole focus events the input begins with. */
  function LeadingEvents(s: seq<byte>): (n: nat)
    ensures n <= |s|
    decreases |s|
  {
    if |s| >= 3 && IsFocusEvent(s[..3]) then 3 + LeadingEvents(s[3..]) else 0
  }

  /** Removal drops the leading events and keeps the byte after them. */
  lemma {:induction false} RemovalSkipsEvents(s: seq<byte>)
    ensures
      var n := LeadingEvents(s);
      && AllEvents(s[..n])
      && RemoveFocusEvents(s) == if n == |s| then [] else [s[n]] + RemoveFocusEvents(s[n + 1..])
    decreases |s|
  {
    if |s| >= 3 && IsFocusEvent(s[..3]) {
      var n := LeadingEvents(s[3..]);
      RemovalSkipsEvents(s[3..]);
      assert s[..n + 3][..3] == s[..3] && s[..n + 3][3..] == s[3..][..n];
      if n + 3 < |s| {
        assert s[3..][n + 1..] == s[n + 4..];
      }
    }
  }

  /** Whole events up to a byte that is no ESC are all the leading events. */
  lemma {:induction false} LeadingEventsUnique(s: seq<byte>, n: nat)
    requires n < |s| && s[n] != ESC && AllEvents(s[..n])
    ensures LeadingEvents(s) == n
    decreases |s|
  {
    if n == 0 {
      assert |s| >= 3 ==> s[..3][0] == s[0];
    } else {
      assert s[..n][..3] == s[..3] && s[..n][3..] == s[3..][..n - 3];
      LeadingEventsUnique(s[3..], n - 3);
    }
  }

  /** What an ESC that is kept needs after it to begin a focus event in the output. */
  predicate OpensWith(rest: seq<byte>, b: int, c: int) {
    && 0 <= b < c < |rest| && rest[b] == BRACKET && IsFocusFinal(rest[c])
    && AllEvents(rest[..b]) && AllEvents(rest[b + 1..c])
  }

  predicate StartsLikeEvent(out: seq<byte>) {
    |out| >= 2 && out[0] == BRACKET && IsFocusFinal(out[1])
  }

  lemma {:induction false} OpeningKept(rest: seq<byte>)
    ensures StartsLikeEvent(RemoveFocusEvents(rest)) <==> exists b, c :: OpensWith(rest, b, c)
  {
    hide RemoveFocusEvents, AllEvents;
    if StartsLikeEvent(RemoveFocusEvents(rest)) {
      KeptOpens(rest);
    }
    forall b, c | OpensWith(rest, b, c) ensures StartsLikeEvent(RemoveFocusEvents(rest)) {
      OpeningIsKept(rest, b, c);
    }
  }

  lemma {:induction false} KeptOpens(rest: seq<byte>)
    requires StartsLikeEvent(RemoveFocusEvents(rest))
    ensures exists b, c :: OpensWith(rest, b, c)
  {
    var n := LeadingEvents(rest);
    RemovalSkipsEvents(rest);
    var tail := rest[n + 1..];
    var m := LeadingEvents(tail);
    RemovalSkipsEvents(tail);
    hide RemoveFocusEvents, AllEvents, IsFocusEvent, LeadingEvents;
    assert rest[n + 1..n + 1 + m] == tail[..m];
    assert OpensWith(rest, n, n + 1 + m);
  }

  lemma {:induction false} OpeningIsKept(rest: seq<byte>, b: int, c: int)
    requires OpensWith(rest, b, c)
    ensures StartsLikeEvent(RemoveFocusEvents(rest))
  {
    hide RemoveFocusEvents, AllEvents, IsFocusEvent, LeadingEvents;
    var tail := rest[b + 1..];
    LeadingEventsUnique(rest, b);
    RemovalSkipsEvents(rest);
    assert tail[..c - b - 1] == rest[b + 1..c];
    LeadingEventsUnique(tail, c - b - 1);
    RemovalSkipsEvents(tail);
  }

  lemma {:induction false} SliceAfter(s: seq<byte>, k: nat, lo: nat, hi: nat)
    requires k <= |s| && lo <= hi <= |s| - k
    ensures s[k..][lo..hi] == s[k + lo..k + hi]
  {
    var left, right := s[k..][lo..hi], s[k + lo..k + hi];
    forall i | 0 <= i < hi - lo ensures left[i] == right[i] {
      assert left[i] == s[k..][lo + i] == s[k + lo + i];
    }
  }

  lemma {:induction false} EventAtTail(b: byte, out: seq<byte>, i: nat)
    ensures EventAt([b] + out, i + 1) <==> EventAt(out, i)
  {
    hide IsFocusEvent;
    var all := [b] + out;
    assert all[1..] == out;
    if i + 3 <= |out| {
      SliceAfter(all, 1, i, i + 3);
    }
  }

  lemma {:induction false} EventAtFront(b: byte, out: seq<byte>)
    ensures EventAt([b] + out, 0) <==> b == ESC && StartsLikeEvent(out)
  {
    if |out| >= 2 {
      EventBytes([b] + out, 0);
    }
  }

  lemma {:induction false} EventAtCons(b: byte, out: seq<byte>)
    ensures HoldsEvent([b] + out) <==> (b == ESC && StartsLikeEvent(out)) || HoldsEvent(out)
  {
    hide IsFocusEvent, StartsLikeEvent;
    var all := [b] + out;
    EventAtFront(b, out);
    if i :| EventAt(all, i) {
      if i > 0 {
        EventAtTail(b, out, i - 1);
      }
    }
    if i :| EventAt(out, i) {
      EventAtTail(b, out, i);
    }
  }

  /** Split events keep their distances when bytes are dropped from the front. */
  lemma {:induction false} SplitEventShift(input: seq<byte>, k: nat, a: nat, b: int, c: int)
    requires k <= |input|
    ensures IsSplitEvent(input[k..], a, b, c) <==> IsSplitEvent(input, a + k, b + k, c + k)
  {
    hide AllEvents;
    if a < b < c < |input| - k {
      SliceAfter(input, k, a + 1, b);
      SliceAfter(input, k, b + 1, c);
    }
  }

  /** A split event lies in the rest, or begins at the front. */
  lemma {:induction false} SplitEventCons(input: seq<byte>)
    requires input != [] && !(|input| >= 3 && IsFocusEvent(input[..3]))
    ensures HoldsSplitEvent(input)
            <==> HoldsSplitEvent(input[1..])
                 || (input[0] == ESC && exists b, c :: OpensWith(input[1..], b, c))
  {
    hide AllEvents;
    var rest := input[1..];
    if a, b, c :| IsSplitEvent(input, a, b, c) {
      if a == 0 {
        FrontSplit(input, b, c);
      } else {
        SplitEventShift(input, 1, a - 1, b - 1, c - 1);
      }
    }
    if a, b, c :| IsSplitEvent(rest, a, b, c) {
      SplitEventShift(input, 1, a, b, c);
    }
    if input[0] == ESC {
      if b, c :| OpensWith(rest, b, c) {
        FrontSplit(input, b + 1, c + 1);
      }
    }
  }

  lemma {:induction false} FrontSplit(input: seq<byte>, b: int, c: int)
    requires input != [] && !(|input| >= 3 && IsFocusEvent(input[..3]))
    ensures IsSplitEvent(input, 0, b, c) <==> input[0] == ESC && OpensWith(input[1..], b - 1, c - 1)
  {
    hide AllEvents;
    var rest := input[1..];
    if |input| >= 3 {
      EventBytes(input, 0);
      assert input[0..3] == input[..3];
    }
    if 0 < b < c < |input| {
      SliceAfter(input, 1, 0, b - 1);
      SliceAfter(input, 1, b, c - 1);
      assert rest[..b - 1] == rest[0..b - 1];
    }
  }

  /** No split event begins in a focus event. */
  lemma {:induction false} SplitEventAfterEvent(input: seq<byte>)
    requires |input| >= 3 && IsFocusEvent(input[..3])
    ensures HoldsSplitEvent(input) <==> HoldsSplitEvent(input[3..])
  {
    assert input[..3][0] == input[0] && input[..3][1] == input[1] && input[..3][2] == input[2];
    hide AllEvents;
    if a, b, c :| IsSplitEvent(input, a, b, c) {
      EventIsNotSplit(input, b, c);
      SplitEventShift(input, 3, a - 3, b - 3, c - 3);
    }
    if a, b, c :| IsSplitEvent(input[3..], a, b, c) {
      SplitEventShift(input, 3, a, b, c);
    }
  }

  lemma {:induction false} EventIsNotSplit(input: seq<byte>, b: int, c: int)
    requires |input| >= 3 && input[1] == BRACKET && IsFocusFinal(input[2])
    ensures !IsSplitEvent(input, 0, b, c)
  {
    if 1 < b < |input| && AllEvents(input[1..b]) {
      EventsBeginWithEscape(input[1..b]);
    } else if b == 1 && 2 < c < |input| && AllEvents(input[2..c]) {
      EventsBeginWithEscape(input[2..c]);
    }
  }

  lemma {:induction false} EventsBeginWithEscape(s: seq<byte>)
    requires AllEvents(s) && s != []
    ensures s[0] == ESC
  {
    assert s[..3][0] == s[0];
  }

  /**
    The output of removal holds a focus event exactly when the input holds one in pieces:
    its three bytes in order, kept apart by whole focus events only.
   */
  lemma {:induction false} OutputHoldsEventIff(input: seq<byte>)
    ensures HoldsEvent(RemoveFocusEvents(input)) <==> HoldsSplitEvent(input)
    decreases |input|
  {
    if input == [] {
      assert RemoveFocusEvents(input) == [];
    } else if |input| >= 3 && IsFocusEvent(input[..3]) {
      OutputHoldsEventIff(input[3..]);
      SplitEventAfterEvent(input);
    } else {
      OutputHoldsEventIff(input[1..]);
      SplitEventCons(input);
      OpeningKept(input[1..]);
      EventAtCons(input[0], RemoveFocusEvents(input[1..]));
    }
  }

  /** A held prefix has no final byte, so no focus event reaches into it. */
  lemma {:induction false} HeldEndsNoEvent(bytes: seq<byte>, s: FocusState)
    ensures HoldsEvent(bytes + Held(s)) <==> HoldsEvent(bytes)
  {
    var all := bytes + Held(s);
    assert forall k :: |bytes| <= k < |all| ==> !IsFocusFinal(all[k]);
    forall i | EventAt(bytes, i) ensures EventAt(all, i) {
      assert all[i..i + 3] == bytes[i..i + 3];
    }
    forall i | EventAt(all, i) ensures EventAt(bytes, i) {
      EventBytes(all, i);
      assert i + 2 < |bytes|;
      assert all[i..i + 3] == bytes[i..i + 3];
    }
  }

  /** The same of the filter itself, whatever it still holds. */
  lemma {:induction false} FilteredHoldsEventIff(input: seq<byte>)
    ensures HoldsEvent(FilterAll(Ground, input).bytes) <==> HoldsSplitEvent(input)
  {
    hide HoldsEvent, HoldsSplitEvent, RemoveFocusEvents;
    var out := FilterAll(Ground, input);
    FilterRemovesFocusEvents(input);
    HeldEndsNoEvent(out.bytes, out.state);
    OutputHoldsEventIff(input);
  }

  // ------------------------------------------------------------------
  // Runs that mix chunks, forwarding, timeouts and end of input.
  // ------------------------------------------------------------------

  /** One pass of the pump: the bytes read, whether the workload wants focus reports,
      whether the held prefix timed out, and whether stdin ended. */
  datatype Pass = Pass(raw: seq<byte>, forward: bool, expired: bool, eof: bool)

  function FilterPass(s: FocusState, p: Pass): (o: Output) {
    if p.forward then Output(Held(s) + p.raw, Ground)
    else
      var o := FilterAll(s, p.raw);
      if p.eof || p.expired then Output(o.bytes + Held(o.state), Ground) else o
  }

  function FilterPasses(s: FocusState, passes: seq<Pass>): (o: Output)
    decreases |passes|
  {
    if passes == [] then Output([], s)
    else
      var first := FilterPass(s, passes[0]);
      var rest := FilterPasses(first.state, passes[1..]);
      Output(first.bytes + rest.bytes, rest.state)
  }

  lemma {:induction false} FilterPassesSnoc(s: FocusState, passes: seq<Pass>, p: Pass)
    ensures
      var front := FilterPasses(s, passes);
      var last := FilterPass(front.state, p);
      FilterPasses(s, passes + [p]) == Output(front.bytes + last.bytes, last.state)
    decreases |passes|
  {
    hide FilterPass;
    var all := passes + [p];
    if passes == [] {
      assert all[1..] == [] && all[0] == p;
      assert FilterPass(s, p).bytes + [] == [] + FilterPass(s, p).bytes;
    } else {
      assert all[0] == passes[0] && all[1..] == passes[1..] + [p];
      var first := FilterPass(s, passes[0]);
      FilterPassesSnoc(first.state, passes[1..], p);
      var front := FilterPasses(first.state, passes[1..]);
      ConcatAssociative(first.bytes, front.bytes, FilterPass(front.state, p).bytes);
    }
  }

  function RawInput(passes: seq<Pass>): (bytes: seq<byte>) {
    if passes == [] then [] else passes[0].raw + RawInput(passes[1..])
  }

  /**
    What a run should make of its input: it falls into stretches, cut where forwarding
    is on, where a prefix times out and at end of input; forwarded stretches are
    untouched and every other stretch loses its focus events. `open` is the part of
    the current stretch read before `passes`.
   */
  function Stretches(open: seq<byte>, passes: seq<Pass>): (out: seq<byte>)
    decreases |passes|
  {
    if passes == [] then RemoveFocusEvents(open)
    else
      var p := passes[0];
      if p.forward then RemoveFocusEvents(open) + p.raw + Stretches([], passes[1..])
      else if p.eof || p.expired then RemoveFocusEvents(open + p.raw) + Stretches([], passes[1..])
      else Stretches(open + p.raw, passes[1..])
  }

  /** Any run of the focus stage does exactly that. */
  lemma {:induction false} PassesAreStretches(open: seq<byte>, passes: seq<Pass>)
    ensures
      var s := FilterAll(Ground, open).state;
      var run := FilterPasses(s, passes);
      FilterAll(Ground, open).bytes + run.bytes + Held(run.state) == Stretches(open, passes)
    decreases |passes|
  {
    hide FilterAll, RemoveFocusEvents, Held;
    var before := FilterAll(Ground, open);
    FilterRemovesFocusEvents(open);
    if passes == [] {
      assert before.bytes + [] == before.bytes;
    } else {
      var p, rest := passes[0], passes[1..];
      var first := FilterPass(before.state, p);
      var run := FilterPasses(first.state, rest);
      var tail := run.bytes + Held(run.state);
      assert before.bytes + (first.bytes + run.bytes) + Held(run.state)
          == (before.bytes + first.bytes) + tail;
      if p.forward || p.eof || p.expired {
        CutPass(open, p);
        PassesAreStretches([], rest);
        EmptyRun();
        assert [] + run.bytes == run.bytes;
      } else {
        FilterAllAppend(Ground, open, p.raw);
        PassesAreStretches(open + p.raw, rest);
        ConcatAssociative(before.bytes + first.bytes, run.bytes, Held(run.state));
      }
    }
  }

  lemma {:induction false} EmptyRun()
    ensures FilterAll(Ground, []) == Output([], Ground)
  {
  }

  /** A pass that forwards, times out or ends stdin closes the stretch. */
  lemma {:induction false} CutPass(open: seq<byte>, p: Pass)
    requires p.forward || p.eof || p.expired
    ensures
      var before := FilterAll(Ground, open);
      var first := FilterPass(before.state, p);
      && first.state == Ground
      && before.bytes + first.bytes
         == if p.forward then RemoveFocusEvents(open) + p.raw else RemoveFocusEvents(open + p.raw)
  {
    hide FilterAll, RemoveFocusEvents, Held;
    var before := FilterAll(Ground, open);
    if p.forward {
      FilterRemovesFocusEvents(open);
      ConcatAssociative(before.bytes, Held(before.state), p.raw);
    } else {
      var o := FilterAll(before.state, p.raw);
      FilterAllAppend(Ground, open, p.raw);
      FilterRemovesFocusEvents(open + p.raw);
      ConcatAssociative(before.bytes, o.bytes, Held(o.state));
    }
  }

  /** `output` is `input` with some disjoint contiguous focus events deleted. */
  predicate Erases(input: seq<byte>, output: seq<byte>)
    decreases |input|
  {
    || (input == [] && output == [])
    || (input != [] && output != [] && input[0] == output[0] && Erases(input[1..], output[1..]))
    || (|input| >= 3 && IsFocusEvent(input[..3]) && Erases(input[3..], output))
  }

  lemma {:induction false} ErasesAppend(a: seq<byte>, x: seq<byte>, b: seq<byte>, y: seq<byte>)
    requires Erases(a, x) && Erases(b, y)
    ensures Erases(a + b, x + y)
    decreases |a|
  {
    hide IsFocusEvent;
    if a == [] {
      assert a + b == b && x + y == y;
    } else if x != [] && a[0] == x[0] && Erases(a[1..], x[1..]) {
      ErasesAppend(a[1..], x[1..], b, y);
      assert (a + b)[1..] == a[1..] + b && (x + y)[1..] == x[1..] + y;
    } else {
      ErasesAppend(a[3..], x, b, y);
      assert (a + b)[..3] == a[..3] && (a + b)[3..] == a[3..] + b;
    }
  }

  lemma {:induction false} ErasesSelf(a: seq<byte>)
    ensures Erases(a, a)
    decreases |a|
  {
    if a != [] { ErasesSelf(a[1..]); }
  }

  lemma {:induction false} RemovalErases(a: seq<byte>)
    ensures Erases(a, RemoveFocusEvents(a))
    decreases |a|
  {
    if |a| >= 3 && IsFocusEvent(a[..3]) {
      RemovalErases(a[3..]);
    } else if a != [] {
      RemovalErases(a[1..]);
      assert RemoveFocusEvents(a)[1..] == RemoveFocusEvents(a[1..]);
    }
  }

  lemma {:induction false} StretchesErase(open: seq<byte>, passes: seq<Pass>)
    ensures Erases(open + RawInput(passes), Stretches(open, passes))
    decreases |passes|
  {
    hide Erases, RemoveFocusEvents;
    RemovalErases(open);
    if passes == [] {
      assert open + RawInput(passes) == open;
    } else {
      var p, rest := passes[0], passes[1..];
      assert open + RawInput(passes) == (open + p.raw) + RawInput(rest);
      if p.forward {
        ErasesSelf(p.raw);
        ErasesAppend(open, RemoveFocusEvents(open), p.raw, p.raw);
        StretchesErase([], rest);
        assert [] + RawInput(rest) == RawInput(rest);
        ErasesAppend(open + p.raw, RemoveFocusEvents(open) + p.raw, RawInput(rest), Stretches([], rest));
      } else if p.eof || p.expired {
        RemovalErases(open + p.raw);
        StretchesErase([], rest);
        assert [] + RawInput(rest) == RawInput(rest);
        ErasesAppend(open + p.raw, RemoveFocusEvents(open + p.raw), RawInput(rest), Stretches([], rest));
      } else {
        StretchesErase(open + p.raw, rest);
      }
    }
  }

  /**
    Over any run mixing chunks, forwarding flips, prefix timeouts and end of input, the
    stage emits its input in order with only disjoint contiguous focus events removed,
    holds back at most two bytes, and holds nothing after a flip, a timeout or the end of
    the input.
   */
  lemma {:induction false} FocusStageErasesOnlyEvents(passes: seq<Pass>)
    ensures
      var run := FilterPasses(Ground, passes);
      && Erases(RawInput(passes), run.bytes + Held(run.state))
      && |Held(run.state)| <= 2
      && (passes != [] && Closes(passes[|passes| - 1]) ==> Held(run.state) == [])
  {
    PassesAreStretches([], passes);
    StretchesErase([], passes);
    var run := FilterPasses(Ground, passes);
    assert [] + run.bytes + Held(run.state) == run.bytes + Held(run.state);
    assert [] + RawInput(passes) == RawInput(passes);
    if passes != [] && Closes(passes[|passes| - 1]) {
      LastPassDecides(Ground, passes);
    }
  }

  predicate Closes(p: Pass) {
    p.forward || p.expired || p.eof
  }

  /** Nothing is held after a pass that forwards, times out or ends the input. */
  lemma {:induction false} LastPassDecides(s: FocusState, passes: seq<Pass>)
    requires passes != [] && Closes(passes[|passes| - 1])
    ensures FilterPasses(s, passes).state == Ground
    decreases |passes|
  {
    if |passes| > 1 {
      LastPassDecides(FilterPass(s, passes[0]).state, passes[1..]);
    } else {
      assert passes[1..] == [];
    }
  }
}
