/**
  What the escape scanner recognises, as a grammar of tokens that does not mention its
  states: plain bytes, escape sequences with intermediates, control sequences, control
  strings with their terminators, sequences cancelled by CAN or SUB, and sequences
  abandoned for a new ESC.
 */
module VtTokens {
  import opened Bytes
  import opened VtScanner
  import opened ReplayAlignment
  import opened Wrappers

  datatype StringKind = OscKind | DcsKind | OtherKind(introducer: byte)

  /** A byte of a string, or an ESC and the byte after it. */
  datatype Unit = Lone(b: byte) | Pair(b: byte)

  /** A sequence that has begun and not ended. */
  datatype Open =
    | AfterEscape
    | AfterIntermediates(bytes: seq<byte>)
    | InControl(params: seq<byte>)
    | InString(kind: StringKind, body: seq<Unit>, escaped: bool)

  datatype Token =
    | Plain(b: byte)
    | Complete(open: Open, end: byte)
    | Cancelled(open: Open, abort: byte)
    | Abandoned(open: Open)

  // ------------------------------------------------------------------
  // The grammar.
  // ------------------------------------------------------------------

  predicate IsAbort(b: byte) {
    b == 0x18 || b == 0x1a
  }

  function Introducer(kind: StringKind): (b: byte) {
    match kind
    case OscKind => ']' as int
    case DcsKind => 'P' as int
    case OtherKind(b) => b
  }

  predicate IsStringIntroducer(b: byte) {
    b == 'X' as int || b == '^' as int || b == '_' as int
  }

  /** Bytes that neither end a sequence whose finals begin at `low`, nor cancel or restart it. */
  predicate AllStay(bytes: seq<byte>, low: int) {
    forall i :: 0 <= i < |bytes| ==> !(low <= bytes[i] <= 0x7e) && bytes[i] != 0x1b && !IsAbort(bytes[i])
  }

  predicate ValidUnit(u: Unit, kind: StringKind) {
    match u
    case Lone(b) => b != 0x1b && !IsAbort(b) && (kind.OscKind? ==> b != 0x07)
    case Pair(b) => b != '\\' as int && !IsAbort(b)
  }

  predicate ValidOpen(open: Open) {
    match open
    case AfterEscape => true
    case AfterIntermediates(bytes) => bytes != [] && 0x20 <= bytes[0] <= 0x2f && AllStay(bytes, 0x30)
    case InControl(params) => AllStay(params, 0x40)
    case InString(kind, body, _) =>
      && (kind.OtherKind? ==> IsStringIntroducer(kind.introducer))
      && forall i :: 0 <= i < |body| ==> ValidUnit(body[i], kind)
  }

  /** The byte completes the sequence. */
  predicate Ends(open: Open, b: byte) {
    match open
    case AfterEscape =>
      && b != 0x1b && !IsAbort(b) && !(0x20 <= b <= 0x2f) && !IsStringIntroducer(b)
      && b != '[' as int && b != ']' as int && b != 'P' as int
    case AfterIntermediates(_) => 0x30 <= b <= 0x7e
    case InControl(_) => 0x40 <= b <= 0x7e
    case InString(kind, _, escaped) => if escaped then b == '\\' as int else kind.OscKind? && b == 0x07
  }

  predicate ValidToken(t: Token) {
    match t
    case Plain(b) => b != 0x1b
    case Complete(open, end) => ValidOpen(open) && Ends(open, end)
    case Cancelled(open, abort) => ValidOpen(open) && IsAbort(abort)
    case Abandoned(open) => ValidOpen(open) && !open.InString?
  }

  function UnitBytes(u: Unit): (bytes: seq<byte>) {
    match u
    case Lone(b) => [b]
    case Pair(b) => [0x1b, b]
  }

  function BodyBytes(body: seq<Unit>): (bytes: seq<byte>) {
    if body == [] then [] else BodyBytes(body[..|body| - 1]) + UnitBytes(body[|body| - 1])
  }

  function OpenBytes(open: Open): (bytes: seq<byte>)
    ensures bytes != [] && bytes[0] == 0x1b
  {
    match open
    case AfterEscape => [0x1b]
    case AfterIntermediates(bytes) => [0x1b] + bytes
    case InControl(params) => [0x1b, '[' as int] + params
    case InString(kind, body, escaped) =>
      [0x1b, Introducer(kind)] + BodyBytes(body) + if escaped then [0x1b] else []
  }

  function TokenBytes(t: Token): (bytes: seq<byte>)
    ensures bytes != [] && (!t.Plain? ==> bytes[0] == 0x1b)
  {
    match t
    case Plain(b) => [b]
    case Complete(open, end) => OpenBytes(open) + [end]
    case Cancelled(open, abort) => OpenBytes(open) + [abort]
    case Abandoned(open) => OpenBytes(open)
  }

  function AllBytes(tokens: seq<Token>): (bytes: seq<byte>) {
    if tokens == [] then [] else AllBytes(tokens[..|tokens| - 1]) + TokenBytes(tokens[|tokens| - 1])
  }

  function Rest(open: Option<Open>): (bytes: seq<byte>) {
    if open.Some? then OpenBytes(open.value) else []
  }

  /** What follows the first `i` tokens begins with an ESC. */
  predicate EscapeFollows(tokens: seq<Token>, open: Option<Open>, i: nat)
    requires i <= |tokens|
  {
    if i < |tokens| then !tokens[i].Plain? else open.Some?
  }

  /** `w` is these tokens and, at its end, perhaps an unfinished one; a sequence is abandoned
      only for another. */
  predicate IsReading(w: seq<byte>, tokens: seq<Token>, open: Option<Open>) {
    && w == AllBytes(tokens) + Rest(open)
    && (forall i :: 0 <= i < |tokens| ==> ValidToken(tokens[i]))
    && (forall i :: 0 <= i < |tokens| && tokens[i].Abandoned? ==> EscapeFollows(tokens, open, i + 1))
    && (open.Some? ==> ValidOpen(open.value))
  }

  // ------------------------------------------------------------------
  // The state names the unfinished token.
  // ------------------------------------------------------------------

  function StateOf(open: Open): (s: ScanState) {
    match open
    case AfterEscape => Escape
    case AfterIntermediates(_) => EscapeIntermediate
    case InControl(_) => Csi
    case InString(OscKind, _, escaped) => if escaped then OscEscape else Osc
    case InString(DcsKind, _, escaped) => if escaped then DcsEscape else Dcs
    case InString(OtherKind(_), _, escaped) => if escaped then SosPmApcEscape else SosPmApc
  }

  function StateOfRest(open: Option<Open>): (s: ScanState) {
    if open.Some? then StateOf(open.value) else Ground
  }

  /** An unfinished sequence without its last byte. */
  function Shorter(open: Open): (o: Open)
    requires !open.AfterEscape? && ValidOpen(open)
  {
    match open
    case AfterIntermediates(bytes) =>
      if |bytes| == 1 then AfterEscape else AfterIntermediates(bytes[..|bytes| - 1])
    case InControl(params) => if params == [] then AfterEscape else InControl(params[..|params| - 1])
    case InString(kind, body, escaped) =>
      if escaped then InString(kind, body, false)
      else if body == [] then AfterEscape
      else InString(kind, body[..|body| - 1], body[|body| - 1].Pair?)
  }

  function LastByte(open: Open): (b: byte) {
    var bytes := OpenBytes(open);
    bytes[|bytes| - 1]
  }

  lemma {:induction false} ShorterBytes(open: Open)
    requires !open.AfterEscape? && ValidOpen(open)
    ensures ValidOpen(Shorter(open))
    ensures OpenBytes(open) == OpenBytes(Shorter(open)) + [LastByte(open)]
  {
    match open
    case AfterIntermediates(bytes) => assert bytes == bytes[..|bytes| - 1] + [bytes[|bytes| - 1]];
    case InControl(params) =>
      if params != [] {
        assert params == params[..|params| - 1] + [params[|params| - 1]];
      }
    case InString(kind, body, escaped) => StringShorter(kind, body, escaped);
  }

  lemma {:induction false} StringShorter(kind: StringKind, body: seq<Unit>, escaped: bool)
    requires ValidOpen(InString(kind, body, escaped))
    ensures ValidOpen(Shorter(InString(kind, body, escaped)))
    ensures
      var open := InString(kind, body, escaped);
      OpenBytes(open) == OpenBytes(Shorter(open)) + [LastByte(open)]
  {
    var head: seq<byte> := [0x1b, Introducer(kind)];
    if !escaped && body == [] {
      assert head + [] + [] == [0x1b] + [Introducer(kind)];
    } else if !escaped {
      var init, last := body[..|body| - 1], body[|body| - 1];
      assert BodyBytes(body) == BodyBytes(init) + UnitBytes(last);
      hide BodyBytes;
      if last.Pair? {
        assert head + (BodyBytes(init) + [0x1b, last.b]) + [] == head + BodyBytes(init) + [0x1b] + [last.b];
      } else {
        assert head + (BodyBytes(init) + [last.b]) + [] == (head + BodyBytes(init) + []) + [last.b];
      }
    } else {
      assert head + BodyBytes(body) + [0x1b] == (head + BodyBytes(body) + []) + [0x1b];
    }
  }

  /** The last byte takes the scanner from the shorter sequence to this one, and it is an ESC
      only inside a string. */
  lemma {:induction false} ShorterStep(open: Open)
    requires !open.AfterEscape? && ValidOpen(open)
    ensures Step(StateOf(Shorter(open)), LastByte(open)) == StateOf(open)
    ensures LastByte(open) == 0x1b ==> Shorter(open).InString?
  {
    match open
    case AfterIntermediates(bytes) => IntermediateStep(bytes);
    case InControl(params) => ControlStep(params);
    case InString(kind, body, escaped) => StringStep(kind, body, escaped);
  }

  lemma {:induction false} IntermediateStep(bytes: seq<byte>)
    requires ValidOpen(AfterIntermediates(bytes))
    ensures
      var open := AfterIntermediates(bytes);
      && Step(StateOf(Shorter(open)), LastByte(open)) == StateOf(open)
      && LastByte(open) != 0x1b
  {
    var b := bytes[|bytes| - 1];
    assert LastByte(AfterIntermediates(bytes)) == b;
    hide OpenBytes, LastByte;
    assert b != 0x1b && !IsAbort(b) && !(0x30 <= b <= 0x7e);
  }

  lemma {:induction false} ControlStep(params: seq<byte>)
    requires ValidOpen(InControl(params))
    ensures
      var open := InControl(params);
      && Step(StateOf(Shorter(open)), LastByte(open)) == StateOf(open)
      && LastByte(open) != 0x1b
  {
    if params != [] {
      var b := params[|params| - 1];
      assert LastByte(InControl(params)) == b;
      assert b != 0x1b && !IsAbort(b) && !(0x40 <= b <= 0x7e);
    }
  }

  lemma {:induction false} StringStep(kind: StringKind, body: seq<Unit>, escaped: bool)
    requires ValidOpen(InString(kind, body, escaped))
    ensures
      var open := InString(kind, body, escaped);
      && Step(StateOf(Shorter(open)), LastByte(open)) == StateOf(open)
      && (LastByte(open) == 0x1b ==> Shorter(open).InString?)
  {
    hide BodyBytes, OpenBytes, LastByte;
    if escaped {
      LastOfEscaped(kind, body);
    } else if body == [] {
      LastOfEmpty(kind);
    } else {
      LastOfBody(kind, body);
    }
  }

  lemma {:induction false} LastOfEscaped(kind: StringKind, body: seq<Unit>)
    ensures LastByte(InString(kind, body, true)) == 0x1b
  {
    hide BodyBytes;
  }

  lemma {:induction false} LastOfBody(kind: StringKind, body: seq<Unit>)
    requires body != []
    ensures LastByte(InString(kind, body, false)) == body[|body| - 1].b
  {
    var last := body[|body| - 1];
    assert BodyBytes(body) == BodyBytes(body[..|body| - 1]) + UnitBytes(last);
  }

  lemma {:induction false} LastOfEmpty(kind: StringKind)
    ensures LastByte(InString(kind, [], false)) == Introducer(kind)
  {
    assert BodyBytes([]) == [];
  }

  lemma {:induction false} ScanOpen(open: Open)
    requires ValidOpen(open)
    ensures Scan(Ground, OpenBytes(open)) == StateOf(open)
    decreases |OpenBytes(open)|
  {
    hide Scan, OpenBytes, StateOf;
    if open.AfterEscape? {
      OneEscape();
    } else {
      ShorterBytes(open);
      ShorterStep(open);
      ScanOpen(Shorter(open));
      ScanLast(Ground, OpenBytes(Shorter(open)), LastByte(open));
    }
  }

  lemma {:induction false} OneEscape()
    ensures OpenBytes(AfterEscape) == [0x1b] && StateOf(AfterEscape) == Escape && Scan(Ground, [0x1b]) == Escape
  {
    ScanLast(Ground, [], 0x1b);
    assert [] + [0x1b] == [0x1b];
  }

  lemma {:induction false} ScanLast(s: ScanState, bytes: seq<byte>, b: byte)
    ensures Scan(s, bytes + [b]) == Step(Scan(s, bytes), b)
  {
    assert (bytes + [b])[..|bytes|] == bytes;
  }

  lemma {:induction false} EndStep(open: Open, b: byte)
    requires ValidOpen(open) && (Ends(open, b) || IsAbort(b))
    ensures Step(StateOf(open), b).Ground?
  {
  }

  /** Where a token leaves the scanner. */
  function StateAfter(t: Token): (s: ScanState) {
    if t.Abandoned? then StateOf(t.open) else Ground
  }

  lemma {:induction false} ScanToken(t: Token)
    requires ValidToken(t)
    ensures Scan(Ground, TokenBytes(t)) == StateAfter(t)
  {
    hide Scan, OpenBytes, StateOf;
    match t
    case Plain(b) =>
      ScanLast(Ground, [], b);
      assert [] + [b] == [b];
      EmptyScan(Ground);
    case Complete(open, end) =>
      ScanOpen(open);
      ScanLast(Ground, OpenBytes(open), end);
      EndStep(open, end);
    case Cancelled(open, abort) =>
      ScanOpen(open);
      ScanLast(Ground, OpenBytes(open), abort);
      EndStep(open, abort);
    case Abandoned(open) => ScanOpen(open);
  }

  /** The state after the first `i` tokens. */
  function StateBefore(tokens: seq<Token>, i: nat): (s: ScanState)
    requires i <= |tokens|
  {
    if i == 0 then Ground else StateAfter(tokens[i - 1])
  }

  /** A sequence that may be abandoned is in a state that restarts. */
  lemma {:induction false} AbandonedRestarts(tokens: seq<Token>, open: Option<Open>, i: nat)
    requires i <= |tokens|
    requires forall k :: 0 <= k < |tokens| ==> ValidToken(tokens[k])
    requires forall k :: 0 <= k < |tokens| && tokens[k].Abandoned? ==> EscapeFollows(tokens, open, k + 1)
    ensures RestartsOnEscape(StateBefore(tokens, i))
    ensures StateBefore(tokens, i).Ground? || EscapeFollows(tokens, open, i)
  {
  }

  lemma {:induction false} ScanTokens(w: seq<byte>, tokens: seq<Token>, open: Option<Open>, i: nat)
    requires i <= |tokens| && IsReading(w, tokens, open)
    ensures Scan(Ground, AllBytes(tokens[..i])) == StateBefore(tokens, i)
    decreases i
  {
    hide Scan, TokenBytes, StateAfter;
    if i == 0 {
      EmptyScan(Ground);
    } else {
      ScanTokens(w, tokens, open, i - 1);
      assert tokens[..i][..i - 1] == tokens[..i - 1];
      var t := tokens[i - 1];
      ScanToken(t);
      AbandonedRestarts(tokens, open, i - 1);
      ScanAppend(Ground, AllBytes(tokens[..i - 1]), TokenBytes(t));
      TransparentCutScan(StateBefore(tokens, i - 1), TokenBytes(t));
    }
  }

  /** The state after a byte string is that of its unfinished token, however it is read. */
  lemma {:induction false} ReadingScans(w: seq<byte>, tokens: seq<Token>, open: Option<Open>)
    requires IsReading(w, tokens, open)
    ensures Scan(Ground, w) == StateOfRest(open)
  {
    hide Scan, OpenBytes, StateOf, StateAfter;
    assert tokens[..|tokens|] == tokens;
    ScanTokens(w, tokens, open, |tokens|);
    AbandonedRestarts(tokens, open, |tokens|);
    ScanAppend(Ground, AllBytes(tokens), Rest(open));
    if open.Some? {
      ScanOpen(open.value);
      TransparentCutScan(StateBefore(tokens, |tokens|), OpenBytes(open.value));
    } else {
      EmptyScan(Ground);
      assert StateBefore(tokens, |tokens|).Ground?;
    }
  }

  // ------------------------------------------------------------------
  // Every byte string can be read.
  // ------------------------------------------------------------------

  datatype Reading = Reading(tokens: seq<Token>, open: Option<Open>)

  /** A sequence that `b` neither ends, cancels nor restarts goes on. */
  function Extended(open: Open, b: byte): (o: Open) {
    match open
    case AfterEscape =>
      if b == '[' as int then InControl([])
      else if b == ']' as int then InString(OscKind, [], false)
      else if b == 'P' as int then InString(DcsKind, [], false)
      else if IsStringIntroducer(b) then InString(OtherKind(b), [], false)
      else AfterIntermediates([b])
    case AfterIntermediates(bytes) => AfterIntermediates(bytes + [b])
    case InControl(params) => InControl(params + [b])
    case InString(kind, body, escaped) =>
      if escaped then InString(kind, body + [Pair(b)], false)
      else if b == 0x1b then InString(kind, body, true)
      else InString(kind, body + [Lone(b)], false)
  }

  lemma {:induction false} ExtendedOk(open: Open, b: byte)
    requires ValidOpen(open) && !Ends(open, b) && !IsAbort(b) && (b == 0x1b ==> open.InString?)
    ensures ValidOpen(Extended(open, b)) && OpenBytes(Extended(open, b)) == OpenBytes(open) + [b]
  {
    match open
    case AfterEscape => EmptyBody();
    case AfterIntermediates(bytes) =>
    case InControl(params) =>
    case InString(kind, body, escaped) =>
      BodySnoc(body, Pair(b));
      BodySnoc(body, Lone(b));
      hide BodyBytes;
      var head: seq<byte> := [0x1b, Introducer(kind)];
      assert head + (BodyBytes(body) + [0x1b, b]) + [] == head + BodyBytes(body) + [0x1b] + [b];
      assert head + (BodyBytes(body) + [b]) + [] == head + BodyBytes(body) + [] + [b];
      assert head + BodyBytes(body) + [0x1b] == head + BodyBytes(body) + [] + [0x1b];
  }

  lemma {:induction false} EmptyBody()
    ensures BodyBytes([]) == []
  {
  }

  lemma {:induction false} BodySnoc(body: seq<Unit>, u: Unit)
    ensures BodyBytes(body + [u]) == BodyBytes(body) + UnitBytes(u)
  {
    assert (body + [u])[..|body|] == body;
  }

  /** One more byte. */
  function Next(r: Reading, b: byte): (n: Reading) {
    if r.open.None? then
      if b == 0x1b then Reading(r.tokens, Some(AfterEscape)) else Reading(r.tokens + [Plain(b)], None)
    else
      var open := r.open.value;
      if IsAbort(b) then Reading(r.tokens + [Cancelled(open, b)], None)
      else if Ends(open, b) then Reading(r.tokens + [Complete(open, b)], None)
      else if b == 0x1b && !open.InString? then Reading(r.tokens + [Abandoned(open)], Some(AfterEscape))
      else Reading(r.tokens, Some(Extended(open, b)))
  }

  function Read(w: seq<byte>): (r: Reading) {
    if w == [] then Reading([], None) else Next(Read(w[..|w| - 1]), w[|w| - 1])
  }

  lemma {:induction false} AllBytesSnoc(tokens: seq<Token>, t: Token)
    ensures AllBytes(tokens + [t]) == AllBytes(tokens) + TokenBytes(t)
  {
    assert (tokens + [t])[..|tokens|] == tokens;
  }

  /** The bytes of a reading grow by the byte read. */
  lemma {:induction false} NextBytes(r: Reading, b: byte)
    requires r.open.Some? ==> ValidOpen(r.open.value)
    ensures AllBytes(Next(r, b).tokens) + Rest(Next(r, b).open) == AllBytes(r.tokens) + Rest(r.open) + [b]
  {
    hide AllBytes, OpenBytes, Ends, Extended;
    var tokens, all := r.tokens, AllBytes(r.tokens);
    if r.open.None? {
      AllBytesSnoc(tokens, Plain(b));
      OneEscape();
      assert all + [] + [b] == all + [b] && all + [b] + [] == all + [b];
    } else {
      var open := r.open.value;
      AllBytesSnoc(tokens, Cancelled(open, b));
      AllBytesSnoc(tokens, Complete(open, b));
      AllBytesSnoc(tokens, Abandoned(open));
      OneEscape();
      ConcatAssociative(all, OpenBytes(open), [b]);
      var whole := all + (OpenBytes(open) + [b]);
      assert whole + [] == whole;
      if !Ends(open, b) && !IsAbort(b) && (b == 0x1b ==> open.InString?) {
        ExtendedOk(open, b);
      }
    }
  }

  lemma {:induction false} NextIsReading(w: seq<byte>, r: Reading, b: byte)
    requires IsReading(w, r.tokens, r.open)
    ensures IsReading(w + [b], Next(r, b).tokens, Next(r, b).open)
  {
    hide AllBytes, OpenBytes, Ends;
    NextBytes(r, b);
    if r.open.Some? {
      var open := r.open.value;
      if !Ends(open, b) && !IsAbort(b) && (b == 0x1b ==> open.InString?) {
        ExtendedOk(open, b);
      }
    }
  }

  lemma {:induction false} EmptyIsReading()
    ensures IsReading([], [], None)
  {
    assert AllBytes([]) + [] == [];
  }

  lemma {:induction false} ReadIsReading(w: seq<byte>)
    ensures IsReading(w, Read(w).tokens, Read(w).open)
    decreases |w|
  {
    hide IsReading, Next;
    if w == [] {
      EmptyIsReading();
    } else {
      ReadIsReading(w[..|w| - 1]);
      NextIsReading(w[..|w| - 1], Read(w[..|w| - 1]), w[|w| - 1]);
      assert w == w[..|w| - 1] + [w[|w| - 1]];
    }
  }

  /** The scanner is in Ground exactly after a whole number of tokens. */
  lemma {:induction false} GroundIffWholeTokens(w: seq<byte>)
    ensures Scan(Ground, w).Ground? <==> exists tokens :: IsReading(w, tokens, None)
  {
    hide IsReading, Scan;
    ReadIsReading(w);
    ReadingScans(w, Read(w).tokens, Read(w).open);
    forall tokens | IsReading(w, tokens, None) ensures Scan(Ground, w).Ground? {
      ReadingScans(w, tokens, None);
    }
    if Scan(Ground, w).Ground? {
      assert Read(w).open.None?;
    }
  }

  // ------------------------------------------------------------------
  // Cuts and tokens.
  // ------------------------------------------------------------------

  /** Where the first `i` tokens end. */
  function Boundary(tokens: seq<Token>, i: nat): (at: nat)
    requires i <= |tokens|
  {
    |AllBytes(tokens[..i])|
  }

  /** What stands from boundary `i` on: a token, or the unfinished one. */
  function Part(tokens: seq<Token>, open: Option<Open>, i: nat): (bytes: seq<byte>)
    requires i <= |tokens|
  {
    if i < |tokens| then TokenBytes(tokens[i]) else Rest(open)
  }

  /** A plain byte that is no line end, CAN or SUB. */
  predicate IsQuiet(t: Token) {
    t.Plain? && t.b != 0x0a && t.b != 0x0d && !IsAbort(t.b)
  }

  /** The boundaries the scan cuts at: the first, those after anything but a quiet byte, and
      those before an ESC. */
  predicate IsCutBoundary(tokens: seq<Token>, open: Option<Open>, i: nat)
    requires i <= |tokens|
  {
    i == 0 || !IsQuiet(tokens[i - 1]) || EscapeFollows(tokens, open, i)
  }

  lemma {:induction false} BytesThrough(tokens: seq<Token>, i: nat)
    requires i <= |tokens|
    ensures AllBytes(tokens[..i]) <= AllBytes(tokens)
    ensures i < |tokens| ==> AllBytes(tokens[..i + 1]) == AllBytes(tokens[..i]) + TokenBytes(tokens[i])
    decreases |tokens|
  {
    hide AllBytes, TokenBytes;
    if i < |tokens| {
      var init, last := tokens[..|tokens| - 1], tokens[|tokens| - 1];
      AllBytesSnoc(tokens[..i], tokens[i]);
      assert tokens[..i] + [tokens[i]] == tokens[..i + 1];
      BytesThrough(init, i);
      assert init[..i] == tokens[..i];
      AllBytesSnoc(init, last);
      assert init + [last] == tokens;
    } else {
      assert tokens[..i] == tokens;
    }
  }

  /** A part stands at its boundary. */
  lemma {:induction false} PartAt(w: seq<byte>, tokens: seq<Token>, open: Option<Open>, i: nat, k: nat)
    requires i <= |tokens| && IsReading(w, tokens, open) && k <= |Part(tokens, open, i)|
    ensures Boundary(tokens, i) + k <= |w|
    ensures w[..Boundary(tokens, i) + k] == AllBytes(tokens[..i]) + Part(tokens, open, i)[..k]
    ensures w[Boundary(tokens, i)..Boundary(tokens, i) + k] == Part(tokens, open, i)[..k]
  {
    hide TokenBytes, OpenBytes;
    var before, part := AllBytes(tokens[..i]), Part(tokens, open, i);
    BytesThrough(tokens, i);
    if i < |tokens| {
      BytesThrough(tokens, i + 1);
    } else {
      assert tokens[..i] == tokens;
    }
    assert before + part <= w;
    assert (before + part)[..|before| + k] == before + part[..k];
  }

  /** The state inside a part is the state after its own bytes. */
  lemma {:induction false} StateInPart(w: seq<byte>, tokens: seq<Token>, open: Option<Open>, i: nat, k: nat)
    requires i <= |tokens| && IsReading(w, tokens, open) && k <= |Part(tokens, open, i)|
    ensures Boundary(tokens, i) + k <= |w|
    ensures Scan(Ground, w[..Boundary(tokens, i) + k])
            == if k == 0 then StateBefore(tokens, i) else Scan(Ground, Part(tokens, open, i)[..k])
  {
    hide Scan, TokenBytes, OpenBytes, AllBytes, StateAfter;
    var part := Part(tokens, open, i);
    PartAt(w, tokens, open, i, k);
    ScanTokens(w, tokens, open, i);
    AbandonedRestarts(tokens, open, i);
    ScanAppend(Ground, AllBytes(tokens[..i]), part[..k]);
    if k == 0 {
      EmptyScan(StateBefore(tokens, i));
    } else {
      assert part[..k][0] == part[0];
      if EscapeFollows(tokens, open, i) {
        PartBegins(tokens, open, i);
      }
      TransparentCutScan(StateBefore(tokens, i), part[..k]);
    }
  }

  lemma {:induction false} PartBegins(tokens: seq<Token>, open: Option<Open>, i: nat)
    requires i <= |tokens| && EscapeFollows(tokens, open, i)
    ensures Part(tokens, open, i) != [] && Part(tokens, open, i)[0] == 0x1b
  {
  }

  /** A beginning of an unfinished sequence is one, and what follows it is an ESC only inside
      a string. */
  lemma {:induction false} OpenPrefix(open: Open, k: nat) returns (p: Open)
    requires ValidOpen(open) && 0 < k <= |OpenBytes(open)|
    ensures ValidOpen(p) && OpenBytes(p) == OpenBytes(open)[..k]
    ensures k < |OpenBytes(open)| && OpenBytes(open)[k] == 0x1b ==> p.InString?
    ensures k == |OpenBytes(open)| ==> p == open
    decreases |OpenBytes(open)|
  {
    hide OpenBytes;
    if k == |OpenBytes(open)| {
      p := open;
      assert OpenBytes(open)[..k] == OpenBytes(open);
    } else {
      OneEscape();
      ShorterBytes(open);
      ShorterStep(open);
      p := OpenPrefix(Shorter(open), k);
      var bytes := OpenBytes(Shorter(open));
      assert (bytes + [LastByte(open)])[..k] == bytes[..k];
    }
  }

  /** Strictly inside a token, and anywhere inside an unfinished one, the scanner is not in
      Ground and does not read an ESC that restarts it. */
  lemma {:induction false} InsidePart(tokens: seq<Token>, open: Option<Open>, i: nat, k: nat)
    requires i <= |tokens| && (i < |tokens| ==> ValidToken(tokens[i])) && (open.Some? ==> ValidOpen(open.value))
    requires 0 < k <= |Part(tokens, open, i)| && (i < |tokens| ==> k < |Part(tokens, open, i)|)
    ensures
      var part := Part(tokens, open, i);
      var s := Scan(Ground, part[..k]);
      && !s.Ground?
      && (k < |part| && part[k] == 0x1b ==> !RestartsOnEscape(s))
  {
    hide Scan, OpenBytes;
    var part := Part(tokens, open, i);
    var o := if i < |tokens| then tokens[i].open else open.value;
    var bytes := OpenBytes(o);
    assert bytes <= part;
    assert part[..k] == bytes[..k];
    var p := OpenPrefix(o, k);
    ScanOpen(p);
    assert k < |bytes| ==> part[k] == bytes[k];
  }

  /** Every offset lies at a boundary or inside a part. */
  lemma {:induction false} Locate(tokens: seq<Token>, rest: seq<byte>, c: nat) returns (i: nat, k: nat)
    requires c <= |AllBytes(tokens)| + |rest|
    ensures i <= |tokens| && c == Boundary(tokens, i) + k
    ensures i < |tokens| ==> k < |TokenBytes(tokens[i])|
    ensures i == |tokens| ==> k <= |rest|
    decreases |tokens|
  {
    hide TokenBytes;
    if c >= |AllBytes(tokens)| {
      assert tokens[..|tokens|] == tokens;
      i, k := |tokens|, c - |AllBytes(tokens)|;
    } else {
      var init, last := tokens[..|tokens| - 1], tokens[|tokens| - 1];
      i, k := Locate(init, TokenBytes(last), c);
      assert init[..i] == tokens[..i];
      if i == |init| && k == |TokenBytes(last)| {
        assert false;
      }
    }
  }

  /** A cut is exactly a cut boundary, in offsets from the first scanned byte. */
  lemma {:induction false} CutIffBoundary(window: seq<byte>, tokens: seq<Token>, open: Option<Open>, c: nat)
    requires
      var first := LeadingContinuations(window);
      IsReading(window[first..], tokens, open) && first + c <= |window|
    ensures IsCut(window, LeadingContinuations(window), LeadingContinuations(window) + c)
            <==> exists i: nat :: i <= |tokens| && Boundary(tokens, i) == c && IsCutBoundary(tokens, open, i)
  {
    hide Scan, AllBytes, TokenBytes, OpenBytes, IsCut, LeadingContinuations, StateAfter;
    var first := LeadingContinuations(window);
    var w := window[first..];
    var i, k := Locate(tokens, Rest(open), c);
    if k == 0 {
      BoundaryCuts(window, tokens, open, i);
      forall n: nat | n <= |tokens| && Boundary(tokens, n) == c ensures n == i {
        BoundariesDiffer(tokens, i, n);
      }
    } else {
      NoCutInside(window, tokens, open, i, k);
      forall n: nat | n <= |tokens| ensures Boundary(tokens, n) != c {
        BoundaryIsNotInside(tokens, open, i, k, n);
      }
    }
  }

  lemma {:induction false} BoundariesGrow(tokens: seq<Token>, a: nat, b: nat)
    requires a < b <= |tokens|
    ensures Boundary(tokens, a) + |TokenBytes(tokens[a])| <= Boundary(tokens, b)
    decreases b
  {
    hide TokenBytes;
    BytesThrough(tokens, b - 1);
    if a < b - 1 {
      BoundariesGrow(tokens, a, b - 1);
    }
  }

  lemma {:induction false} BoundariesDiffer(tokens: seq<Token>, a: nat, b: nat)
    requires a <= |tokens| && b <= |tokens| && Boundary(tokens, a) == Boundary(tokens, b)
    ensures a == b
  {
    hide AllBytes;
    if a < b {
      BoundariesGrow(tokens, a, b);
    } else if b < a {
      BoundariesGrow(tokens, b, a);
    }
  }

  lemma {:induction false} BoundaryIsNotInside(tokens: seq<Token>, open: Option<Open>, i: nat, k: nat, n: nat)
    requires i <= |tokens| && n <= |tokens| && 0 < k && (i < |tokens| ==> k < |TokenBytes(tokens[i])|)
    ensures Boundary(tokens, n) != Boundary(tokens, i) + k
  {
    hide AllBytes, TokenBytes;
    if i < n {
      BoundariesGrow(tokens, i, n);
    } else if n < i {
      BoundariesGrow(tokens, n, i);
    }
  }

  lemma {:induction false} NoCutInside(window: seq<byte>, tokens: seq<Token>, open: Option<Open>, i: nat, k: nat)
    requires
      var first := LeadingContinuations(window);
      IsReading(window[first..], tokens, open)
    requires i <= |tokens| && 0 < k <= |Part(tokens, open, i)| && (i < |tokens| ==> k < |Part(tokens, open, i)|)
    ensures !IsCut(window, LeadingContinuations(window), LeadingContinuations(window) + Boundary(tokens, i) + k)
  {
    hide Scan, AllBytes, TokenBytes, OpenBytes, LeadingContinuations, StateAfter;
    var first := LeadingContinuations(window);
    var w, c, part := window[first..], Boundary(tokens, i) + k, Part(tokens, open, i);
    StateInPart(w, tokens, open, i, k);
    InsidePart(tokens, open, i, k);
    SliceOfTail(window, first, c);
    ByteInPart(w, tokens, open, i, k);
    hide IsReading, Part, RestartsOnEscape;
    InsideIsNoCut(window, first, first + c);
  }

  /** Where the scanner is not in Ground and no ESC restarts it there is no cut. */
  lemma {:induction false} InsideIsNoCut(window: seq<byte>, first: nat, c: nat)
    requires first < c <= |window| && !StateAt(window, first, c).Ground?
    requires c < |window| && window[c] == 0x1b ==> !RestartsOnEscape(StateAt(window, first, c))
    ensures !IsCut(window, first, c)
  {
    hide StateAt;
    StateStep(window, first, c - 1);
  }

  lemma {:induction false} SliceOfTail(window: seq<byte>, first: nat, c: nat)
    requires first + c <= |window|
    ensures window[first..][..c] == window[first..first + c]
  {
  }

  /** The byte at an offset inside a part is the part's own. */
  lemma {:induction false} ByteInPart(w: seq<byte>, tokens: seq<Token>, open: Option<Open>, i: nat, k: nat)
    requires i <= |tokens| && IsReading(w, tokens, open)
    requires k <= |Part(tokens, open, i)| && (i < |tokens| ==> k < |Part(tokens, open, i)|)
    ensures
      var c, part := Boundary(tokens, i) + k, Part(tokens, open, i);
      && c <= |w|
      && (k < |part| <==> c < |w|)
      && (k < |part| ==> w[c] == part[k])
  {
    hide AllBytes, TokenBytes, OpenBytes;
    var c, part := Boundary(tokens, i) + k, Part(tokens, open, i);
    if k < |part| {
      PartAt(w, tokens, open, i, k + 1);
      assert w[Boundary(tokens, i)..c + 1][k] == part[..k + 1][k];
    } else {
      WholeLength(w, tokens, open);
    }
  }

  lemma {:induction false} WholeLength(w: seq<byte>, tokens: seq<Token>, open: Option<Open>)
    requires IsReading(w, tokens, open)
    ensures |w| == Boundary(tokens, |tokens|) + |Rest(open)|
  {
    assert tokens[..|tokens|] == tokens;
  }

  lemma {:induction false} BoundaryCuts(window: seq<byte>, tokens: seq<Token>, open: Option<Open>, i: nat)
    requires
      var first := LeadingContinuations(window);
      IsReading(window[first..], tokens, open)
    requires i <= |tokens|
    ensures LeadingContinuations(window) + Boundary(tokens, i) <= |window|
    ensures IsCut(window, LeadingContinuations(window), LeadingContinuations(window) + Boundary(tokens, i))
            <==> IsCutBoundary(tokens, open, i)
  {
    hide Scan, AllBytes, OpenBytes, LeadingContinuations, StateAfter;
    var first := LeadingContinuations(window);
    var w, c := window[first..], Boundary(tokens, i);
    StateInPart(w, tokens, open, i, 0);
    AbandonedRestarts(tokens, open, i);
    SliceOfTail(window, first, c);
    NextByte(w, tokens, open, i);
    if i > 0 {
      LastStep(w, tokens, open, i);
      SliceOfTail(window, first, c - 1);
      EndsBefore(tokens, open, i);
    } else {
      NothingBefore(tokens);
    }
  }

  lemma {:induction false} NothingBefore(tokens: seq<Token>)
    ensures Boundary(tokens, 0) == 0
  {
  }

  /** The byte at a boundary is an ESC exactly when a sequence follows. */
  lemma {:induction false} NextByte(w: seq<byte>, tokens: seq<Token>, open: Option<Open>, i: nat)
    requires i <= |tokens| && IsReading(w, tokens, open)
    ensures Boundary(tokens, i) <= |w|
    ensures EscapeFollows(tokens, open, i) <==> Boundary(tokens, i) < |w| && w[Boundary(tokens, i)] == 0x1b
  {
    hide AllBytes;
    var c, part := Boundary(tokens, i), Part(tokens, open, i);
    if part != [] {
      PartAt(w, tokens, open, i, 1);
      assert w[c..c + 1][0] == part[..1][0];
    } else {
      PartAt(w, tokens, open, i, 0);
      WholeLength(w, tokens, open);
    }
  }

  /** The scanner's state and byte just before a boundary. */
  lemma {:induction false} LastStep(w: seq<byte>, tokens: seq<Token>, open: Option<Open>, i: nat)
    requires 0 < i <= |tokens| && IsReading(w, tokens, open)
    ensures
      var c, bytes := Boundary(tokens, i), TokenBytes(tokens[i - 1]);
      && 0 < c <= |w| && w[c - 1] == bytes[|bytes| - 1]
      && Scan(Ground, w[..c - 1])
         == if |bytes| == 1 then StateBefore(tokens, i - 1) else Scan(Ground, bytes[..|bytes| - 1])
  {
    hide Scan, AllBytes, OpenBytes, StateAfter;
    var bytes := TokenBytes(tokens[i - 1]);
    var n := |bytes|;
    BytesThrough(tokens, i - 1);
    var c := Boundary(tokens, i);
    assert c == Boundary(tokens, i - 1) + n;
    PartAt(w, tokens, open, i - 1, n);
    assert w[Boundary(tokens, i - 1)..c][n - 1] == bytes[..n][n - 1];
    StateInPart(w, tokens, open, i - 1, n - 1);
  }

  /** Something ends at a boundary exactly after a token that is neither quiet nor abandoned. */
  lemma {:induction false} EndsBefore(tokens: seq<Token>, open: Option<Open>, i: nat)
    requires 0 < i <= |tokens|
    requires forall k :: 0 <= k < |tokens| ==> ValidToken(tokens[k])
    requires forall k :: 0 <= k < |tokens| && tokens[k].Abandoned? ==> EscapeFollows(tokens, open, k + 1)
    ensures
      var t := tokens[i - 1];
      var bytes := TokenBytes(t);
      var s := if |bytes| == 1 then StateBefore(tokens, i - 1) else Scan(Ground, bytes[..|bytes| - 1]);
      EndsUnit(s, bytes[|bytes| - 1]) <==> !IsQuiet(t) && !t.Abandoned?
  {
    hide Scan, OpenBytes;
    var t := tokens[i - 1];
    var bytes := TokenBytes(t);
    AbandonedRestarts(tokens, open, i - 1);
    match t
    case Plain(b) => assert StateBefore(tokens, i - 1).Ground?;
    case Complete(o, end) =>
      assert bytes[..|bytes| - 1] == OpenBytes(o);
      ScanOpen(o);
      EndStep(o, end);
    case Cancelled(o, abort) =>
      assert bytes[..|bytes| - 1] == OpenBytes(o);
      ScanOpen(o);
      EndStep(o, abort);
    case Abandoned(o) => AbandonedEndsNothing(tokens, open, i);
  }

  lemma {:induction false} AbandonedEndsNothing(tokens: seq<Token>, open: Option<Open>, i: nat)
    requires 0 < i <= |tokens| && tokens[i - 1].Abandoned? && ValidToken(tokens[i - 1])
    requires RestartsOnEscape(StateBefore(tokens, i - 1))
    ensures
      var bytes := OpenBytes(tokens[i - 1].open);
      var s := if |bytes| == 1 then StateBefore(tokens, i - 1) else Scan(Ground, bytes[..|bytes| - 1]);
      !EndsUnit(s, bytes[|bytes| - 1])
  {
    hide Scan;
    var o := tokens[i - 1].open;
    if !o.AfterEscape? {
      ShorterBytes(o);
      ShorterStep(o);
      ScanOpen(Shorter(o));
      var bytes := OpenBytes(o);
      assert bytes[..|bytes| - 1] == OpenBytes(Shorter(o));
    }
  }

  /**
    The chosen start is a token boundary of the window, however the window is read: the
    greatest one that is the first, follows anything but a quiet byte, or precedes an ESC.
    It never lies inside a sequence.
   */
  lemma {:induction false} AlignedStartIsBoundary(window: seq<byte>, scanStart: nat, tokens: seq<Token>, open: Option<Open>)
    requires IsReading(window[LeadingContinuations(window)..], tokens, open)
    ensures
      var first := scanStart + LeadingContinuations(window);
      var start := AlignedInWindow(window, scanStart, scanStart + |window|);
      exists i: nat :: i <= |tokens| && start == first + Boundary(tokens, i) && IsCutBoundary(tokens, open, i)
                       && forall n: nat :: i < n <= |tokens| ==> !IsCutBoundary(tokens, open, n)
  {
    hide Scan, AllBytes, IsCut, LeadingContinuations, LastCut, IsReading;
    var first, cut := LeadingContinuations(window), LastCut(window);
    LastCutIsGreatest(window);
    CutIffBoundary(window, tokens, open, cut - first);
    var i: nat :| i <= |tokens| && Boundary(tokens, i) == cut - first && IsCutBoundary(tokens, open, i);
    forall n: nat | i < n <= |tokens| ensures !IsCutBoundary(tokens, open, n) {
      BoundariesGrow(tokens, i, n);
      BoundaryCuts(window, tokens, open, n);
    }
  }
}
