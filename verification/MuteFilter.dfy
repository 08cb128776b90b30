/**
  Muting the answers a fresh terminal gives to queries in a replay: during the mute
  window every ESC-prefixed sequence is stripped from stdin.
 */
module MuteFilter {
  import opened Bytes

  const BACKSLASH: byte := '\\' as int

  datatype MuteState = Ground | Escape | Csi | Osc | OscEscape | Dcs | DcsEscape | Ss3

  function NextState(s: MuteState, b: byte): (t: MuteState) {
    match s
    case Ground => if b == ESC then Escape else Ground
    case Escape =>
      if b == '[' as int then Csi
      else if b == ']' as int then Osc
      else if b == 'P' as int then Dcs
      else if b == 'O' as int then Ss3
      else Ground
    case Csi => if 0x40 <= b <= 0x7e then Ground else Csi
    case Osc => if b == BEL then Ground else if b == ESC then OscEscape else Osc
    case OscEscape => if b == BACKSLASH then Ground else Osc
    case Dcs => if b == ESC then DcsEscape else Dcs
    case DcsEscape => if b == BACKSLASH then Ground else Dcs
    case Ss3 => Ground
  }

  /** Only a byte read in Ground is forwarded, and never an ESC. */
  function Emitted(s: MuteState, b: byte): (out: seq<byte>) {
    if s.Ground? && b != ESC then [b] else []
  }

  datatype Output = Output(bytes: seq<byte>, state: MuteState)

  function MuteAll(s: MuteState, input: seq<byte>): (o: Output)
    decreases |input|
  {
    if input == [] then Output([], s)
    else
      var front := MuteAll(s, input[..|input| - 1]);
      var b := input[|input| - 1];
      Output(front.bytes + Emitted(front.state, b), NextState(front.state, b))
  }

  class Filter {
    var state: MuteState

    constructor ()
      ensures state == Ground
    {
      state := Ground;
    }

    predicate IsGround()
      reads this
    {
      state == Ground
    }

    method Mute(input: seq<byte>) returns (out: seq<byte>)
      modifies this
      ensures Output(out, state) == MuteAll(old(state), input)
    {
      out := [];
      for i := 0 to |input|
        invariant Output(out, state) == MuteAll(old(state), input[..i])
      {
        assert input[..i + 1][..i] == input[..i];
        var b := input[i];
        match state
        case Ground =>
          if b == ESC { state := Escape; } else { out := out + [b]; }
        case Escape =>
          state := if b == '[' as int then Csi
                   else if b == ']' as int then Osc
                   else if b == 'P' as int then Dcs
                   else if b == 'O' as int then Ss3
                   else Ground;
        case Csi =>
          if 0x40 <= b <= 0x7e { state := Ground; }
        case Osc =>
          if b == BEL { state := Ground; } else if b == ESC { state := OscEscape; }
        case OscEscape =>
          state := if b == BACKSLASH then Ground else Osc;
        case Dcs =>
          if b == ESC { state := DcsEscape; }
        case DcsEscape =>
          state := if b == BACKSLASH then Ground else Dcs;
        case Ss3 =>
          state := Ground;
      }
      assert input[..|input|] == input;
    }
  }

  lemma {:induction false} MuteAllAppend(s: MuteState, a: seq<byte>, b: seq<byte>)
    ensures MuteAll(s, a + b)
            == Output(MuteAll(s, a).bytes + MuteAll(MuteAll(s, a).state, b).bytes,
                      MuteAll(MuteAll(s, a).state, b).state)
    decreases |b|
  {
    if b == [] {
      assert a + b == a;
    } else {
      hide NextState, Emitted;
      var init := b[..|b| - 1];
      assert (a + b)[..|a + b| - 1] == a + init;
      MuteAllAppend(s, a, init);
      var front := MuteAll(s, a);
      var rest := MuteAll(front.state, init);
      ConcatAssociative(front.bytes, rest.bytes, Emitted(rest.state, b[|b| - 1]));
    }
  }

  lemma {:induction false} MuteOne(s: MuteState, b: byte)
    ensures MuteAll(s, [b]) == Output(Emitted(s, b), NextState(s, b))
  {
    assert [b][..0] == [];
    assert [] + Emitted(s, b) == Emitted(s, b);
  }

  // ------------------------------------------------------------------
  // The grammar of what it reads.
  // ------------------------------------------------------------------

  /** A unit of a control string: one byte, or an ESC and the byte after it. */
  datatype StringUnit = Lone(b: byte) | Pair(b: byte)

  datatype Token =
    | Plain(b: byte)
    | TwoByte(second: byte)
    | Ss3Sequence(final: byte)
    | CsiSequence(params: seq<byte>, final: byte)
    | OscString(body: seq<StringUnit>, bel: bool)
    | DcsString(body: seq<StringUnit>)

  predicate ValidUnit(u: StringUnit, belEnds: bool) {
    match u
    case Lone(b) => b != ESC && !(belEnds && b == BEL)
    case Pair(b) => b != BACKSLASH
  }

  predicate ValidBody(body: seq<StringUnit>, belEnds: bool) {
    forall i :: 0 <= i < |body| ==> ValidUnit(body[i], belEnds)
  }

  predicate ValidParams(params: seq<byte>) {
    forall i :: 0 <= i < |params| ==> !(0x40 <= params[i] <= 0x7e)
  }

  predicate ValidToken(t: Token) {
    match t
    case Plain(b) => b != ESC
    case TwoByte(second) =>
      second != '[' as int && second != ']' as int && second != 'P' as int && second != 'O' as int
    case Ss3Sequence(_) => true
    case CsiSequence(params, final) => ValidParams(params) && 0x40 <= final <= 0x7e
    case OscString(body, _) => ValidBody(body, true)
    case DcsString(body) => ValidBody(body, false)
  }

  function UnitBytes(u: StringUnit): (bytes: seq<byte>) {
    match u
    case Lone(b) => [b]
    case Pair(b) => [ESC, b]
  }

  function BodyBytes(body: seq<StringUnit>): (bytes: seq<byte>) {
    if body == [] then [] else BodyBytes(body[..|body| - 1]) + UnitBytes(body[|body| - 1])
  }

  function TokenBytes(t: Token): (bytes: seq<byte>) {
    match t
    case Plain(b) => [b]
    case TwoByte(second) => [ESC, second]
    case Ss3Sequence(final) => [ESC, 'O' as int, final]
    case CsiSequence(params, final) => [ESC, '[' as int] + params + [final]
    case OscString(body, bel) =>
      [ESC, ']' as int] + BodyBytes(body) + (if bel then [BEL] else [ESC, BACKSLASH])
    case DcsString(body) => [ESC, 'P' as int] + BodyBytes(body) + [ESC, BACKSLASH]
  }

  function AllBytes(tokens: seq<Token>): (bytes: seq<byte>) {
    if tokens == [] then [] else AllBytes(tokens[..|tokens| - 1]) + TokenBytes(tokens[|tokens| - 1])
  }

  /** What is left when every escape token is erased. */
  function PlainBytes(tokens: seq<Token>): (bytes: seq<byte>) {
    if tokens == [] then []
    else
      PlainBytes(tokens[..|tokens| - 1])
      + (match tokens[|tokens| - 1] case Plain(b) => [b] case _ => [])
  }

  predicate ValidTokens(tokens: seq<Token>) {
    forall i :: 0 <= i < |tokens| ==> ValidToken(tokens[i])
  }

  // ------------------------------------------------------------------
  // An unfinished token, in each state.
  // ------------------------------------------------------------------

  /** `rest` is what has been read of a token whose body so far is `params`/`body`. */
  predicate Unfinished(s: MuteState, params: seq<byte>, body: seq<StringUnit>, rest: seq<byte>) {
    match s
    case Ground => rest == []
    case Escape => rest == [ESC]
    case Csi => ValidParams(params) && rest == [ESC, '[' as int] + params
    case Osc => ValidBody(body, true) && rest == [ESC, ']' as int] + BodyBytes(body)
    case OscEscape => ValidBody(body, true) && rest == [ESC, ']' as int] + BodyBytes(body) + [ESC]
    case Dcs => ValidBody(body, false) && rest == [ESC, 'P' as int] + BodyBytes(body)
    case DcsEscape => ValidBody(body, false) && rest == [ESC, 'P' as int] + BodyBytes(body) + [ESC]
    case Ss3 => rest == [ESC, 'O' as int]
  }

  /** `rest` is a proper, non-empty beginning of a token. */
  ghost predicate IsTokenPrefix(rest: seq<byte>) {
    rest != []
    && exists t: Token, more: seq<byte> :: ValidToken(t) && more != [] && TokenBytes(t) == rest + more
  }

  lemma {:induction false} AllBytesOne(t: Token)
    ensures AllBytes([t]) == TokenBytes(t)
    ensures PlainBytes([t]) == match t case Plain(b) => [b] case _ => []
  {
    assert [t][..0] == [];
    assert [] + TokenBytes(t) == TokenBytes(t);
  }

  lemma {:induction false} AllBytesAppend(a: seq<Token>, b: seq<Token>)
    ensures AllBytes(a + b) == AllBytes(a) + AllBytes(b)
    ensures PlainBytes(a + b) == PlainBytes(a) + PlainBytes(b)
    decreases |b|
  {
    hide TokenBytes;
    if b == [] {
      assert a + b == a;
    } else {
      var init, last := b[..|b| - 1], b[|b| - 1];
      assert (a + b)[..|a + b| - 1] == a + init;
      AllBytesAppend(a, init);
      ConcatAssociative(AllBytes(a), AllBytes(init), TokenBytes(last));
      ConcatAssociative(PlainBytes(a), PlainBytes(init), if last.Plain? then [last.b] else []);
    }
  }

  lemma {:induction false} BodyBytesSnoc(body: seq<StringUnit>, u: StringUnit)
    ensures BodyBytes(body + [u]) == BodyBytes(body) + UnitBytes(u)
  {
    assert (body + [u])[..|body|] == body;
  }

  // ------------------------------------------------------------------
  // Reading a token.
  // ------------------------------------------------------------------

  lemma {:induction false} MuteParams(params: seq<byte>)
    requires ValidParams(params)
    ensures MuteAll(Csi, params) == Output([], Csi)
    decreases |params|
  {
    if params != [] {
      MuteParams(params[..|params| - 1]);
    }
  }

  lemma {:induction false} MuteBody(s: MuteState, body: seq<StringUnit>)
    requires (s.Osc? && ValidBody(body, true)) || (s.Dcs? && ValidBody(body, false))
    ensures MuteAll(s, BodyBytes(body)) == Output([], s)
    decreases |body|
  {
    if body != [] {
      var init, u := body[..|body| - 1], body[|body| - 1];
      MuteBody(s, init);
      MuteAllAppend(s, BodyBytes(init), UnitBytes(u));
      MuteUnit(s, u);
    }
  }

  lemma {:induction false} MuteUnit(s: MuteState, u: StringUnit)
    requires (s.Osc? && ValidUnit(u, true)) || (s.Dcs? && ValidUnit(u, false))
    ensures MuteAll(s, UnitBytes(u)) == Output([], s)
  {
    match u
    case Lone(b) => MuteOne(s, b);
    case Pair(b) => MuteTwo(s, ESC, b);
  }

  lemma {:induction false} MuteTwo(s: MuteState, a: byte, b: byte)
    ensures MuteAll(s, [a, b])
            == Output(Emitted(s, a) + Emitted(NextState(s, a), b), NextState(NextState(s, a), b))
  {
    assert [a, b][..1] == [a];
    MuteOne(s, a);
  }

  /** A token read from Ground comes back to Ground and forwards only plain bytes. */
  lemma {:induction false} MuteToken(t: Token)
    requires ValidToken(t)
    ensures MuteAll(Ground, TokenBytes(t)) == Output(PlainBytes([t]), Ground)
  {
    hide MuteAll;
    AllBytesOne(t);
    match t
    case Plain(b) => MuteOne(Ground, b);
    case TwoByte(second) => MuteTwo(Ground, ESC, second);
    case Ss3Sequence(final) =>
      EmptyMute(Ss3);
      MuteIntroduced(Ss3, [], [final]);
      MuteOne(Ss3, final);
      assert [ESC, 'O' as int] + [] + [final] == TokenBytes(t);
    case CsiSequence(params, final) =>
      MuteParams(params);
      MuteIntroduced(Csi, params, [final]);
      MuteOne(Csi, final);
    case OscString(body, bel) =>
      var end: seq<byte> := if bel then [BEL] else [ESC, BACKSLASH];
      MuteBody(Osc, body);
      MuteIntroduced(Osc, BodyBytes(body), end);
      MuteOne(Osc, BEL);
      MuteTwo(Osc, ESC, BACKSLASH);
    case DcsString(body) =>
      MuteBody(Dcs, body);
      MuteIntroduced(Dcs, BodyBytes(body), [ESC, BACKSLASH]);
      MuteTwo(Dcs, ESC, BACKSLASH);
  }

  lemma {:induction false} EmptyMute(s: MuteState)
    ensures MuteAll(s, []) == Output([], s)
  {
  }

  function Introducer(s: MuteState): (b: byte)
    requires s.Ss3? || s.Csi? || s.Osc? || s.Dcs?
  {
    match s
    case Ss3 => 'O' as int
    case Csi => '[' as int
    case Osc => ']' as int
    case Dcs => 'P' as int
  }

  lemma {:induction false} MuteIntroduced(s: MuteState, body: seq<byte>, end: seq<byte>)
    requires s.Ss3? || s.Csi? || s.Osc? || s.Dcs?
    requires MuteAll(s, body) == Output([], s)
    ensures MuteAll(Ground, [ESC, Introducer(s)] + body + end) == MuteAll(s, end)
  {
    hide MuteAll;
    MuteTwo(Ground, ESC, Introducer(s));
    MuteAllAppend(Ground, [ESC, Introducer(s)], body);
    MuteAllAppend(Ground, [ESC, Introducer(s)] + body, end);
    assert [] + MuteAll(s, end).bytes == MuteAll(s, end).bytes;
  }

  /** The filter erases exactly the escape tokens, however the tokens are chunked. */
  lemma {:induction false} MuteErasesTokens(tokens: seq<Token>)
    requires ValidTokens(tokens)
    ensures MuteAll(Ground, AllBytes(tokens)) == Output(PlainBytes(tokens), Ground)
    decreases |tokens|
  {
    if tokens != [] {
      var init, t := tokens[..|tokens| - 1], tokens[|tokens| - 1];
      MuteErasesTokens(init);
      MuteAllAppend(Ground, AllBytes(init), TokenBytes(t));
      MuteToken(t);
      AllBytesOne(t);
    }
  }

  // ------------------------------------------------------------------
  // Every input is whole tokens and at most one unfinished one.
  // ------------------------------------------------------------------

  /** One more byte either extends the unfinished token or completes it. */
  lemma {:induction false} ReadByte(s: MuteState, params: seq<byte>, body: seq<StringUnit>, rest: seq<byte>, b: byte)
    returns (done: seq<Token>, params': seq<byte>, body': seq<StringUnit>, rest': seq<byte>)
    requires Unfinished(s, params, body, rest)
    ensures ValidTokens(done) && PlainBytes(done) == Emitted(s, b)
    ensures rest + [b] == AllBytes(done) + rest'
    ensures Unfinished(NextState(s, b), params', body', rest')
  {
    if NextState(s, b).Ground? {
      var t := CompletedToken(s, params, body, b);
      CompletedTokenBytes(s, params, body, rest, b);
      AllBytesOne(t);
      done, params', body', rest' := [t], [], [], [];
      assert AllBytes(done) + [] == AllBytes(done);
    } else {
      done, rest' := [], rest + [b];
      assert [] + rest' == rest';
      if BodyStart(s) != [] {
        params' := params;
        body' := ReadBodyByte(s, params, body, rest, b);
      } else {
        params', body' := if s.Csi? then params + [b] else [], [];
        hide Emitted;
        match s
        case Ground =>
        case Escape => assert [ESC, b] + [] == rest';
        case Csi => assert rest' == [ESC, '[' as int] + params';
        case Ss3 =>
      }
    }
  }

  /** How a control string opens; empty outside one. */
  function BodyStart(s: MuteState): (open: seq<byte>) {
    if s.Osc? || s.OscEscape? then [ESC, ']' as int]
    else if s.Dcs? || s.DcsEscape? then [ESC, 'P' as int]
    else []
  }

  lemma {:induction false} ReadBodyByte(s: MuteState, params: seq<byte>, body: seq<StringUnit>, rest: seq<byte>, b: byte)
    returns (body': seq<StringUnit>)
    requires Unfinished(s, params, body, rest) && BodyStart(s) != [] && !NextState(s, b).Ground?
    ensures Unfinished(NextState(s, b), params, body', rest + [b])
  {
    hide BodyBytes;
    body' := body;
    var open := BodyStart(s);
    if s.OscEscape? || s.DcsEscape? {
      body' := body + [Pair(b)];
      BodyBytesSnoc(body, Pair(b));
      assert rest + [b] == open + (BodyBytes(body) + [ESC, b]);
    } else if b != ESC {
      body' := body + [Lone(b)];
      BodyBytesSnoc(body, Lone(b));
      ConcatAssociative(open, BodyBytes(body), [b]);
    }
  }

  /** The token that byte `b` completes. */
  function CompletedToken(s: MuteState, params: seq<byte>, body: seq<StringUnit>, b: byte): (t: Token)
    requires NextState(s, b).Ground?
  {
    match s
    case Ground => Plain(b)
    case Escape => TwoByte(b)
    case Csi => CsiSequence(params, b)
    case Osc => OscString(body, true)
    case OscEscape => OscString(body, false)
    case Dcs => Plain(b)
    case DcsEscape => DcsString(body)
    case Ss3 => Ss3Sequence(b)
  }

  lemma {:induction false} CompletedTokenBytes(s: MuteState, params: seq<byte>, body: seq<StringUnit>, rest: seq<byte>,
                            b: byte)
    requires Unfinished(s, params, body, rest) && NextState(s, b).Ground?
    ensures ValidToken(CompletedToken(s, params, body, b))
    ensures TokenBytes(CompletedToken(s, params, body, b)) == rest + [b]
    ensures s.Ground? <==> CompletedToken(s, params, body, b).Plain?
  {
    match s
    case OscEscape =>
      ConcatAssociative([ESC, ']' as int] + BodyBytes(body), [ESC], [b]);
    case DcsEscape =>
      ConcatAssociative([ESC, 'P' as int] + BodyBytes(body), [ESC], [b]);
    case _ =>
  }

  /** Any input at all is whole tokens followed by at most one unfinished token; the
      filter has forwarded the plain bytes of the whole ones. */
  lemma {:induction false} MuteReadsTokens(input: seq<byte>)
    returns (tokens: seq<Token>, params: seq<byte>, body: seq<StringUnit>, rest: seq<byte>)
    ensures ValidTokens(tokens) && input == AllBytes(tokens) + rest
    ensures MuteAll(Ground, input).bytes == PlainBytes(tokens)
    ensures Unfinished(MuteAll(Ground, input).state, params, body, rest)
    decreases |input|
  {
    if input == [] {
      tokens, params, body, rest := [], [], [], [];
    } else {
      hide *;
      var init, b := input[..|input| - 1], input[|input| - 1];
      assert input == init + [b];
      MuteSnoc(init, b);
      var before, p, u, r := MuteReadsTokens(init);
      var done;
      done, params, body, rest := ReadByte(MuteAll(Ground, init).state, p, u, r, b);
      tokens := before + done;
      ValidTokensAppend(before, done);
      AllBytesAppend(before, done);
      ConcatAssociative(AllBytes(before), r, [b]);
      ConcatAssociative(AllBytes(before), AllBytes(done), rest);
    }
  }

  lemma {:induction false} ValidTokensAppend(a: seq<Token>, b: seq<Token>)
    requires ValidTokens(a) && ValidTokens(b)
    ensures ValidTokens(a + b)
  {
  }

  lemma {:induction false} MuteSnoc(init: seq<byte>, b: byte)
    ensures MuteAll(Ground, init + [b])
            == Output(MuteAll(Ground, init).bytes + Emitted(MuteAll(Ground, init).state, b),
                      NextState(MuteAll(Ground, init).state, b))
  {
    assert (init + [b])[..|init|] == init;
  }

  /** An unfinished token needs more bytes. */
  lemma {:induction false} UnfinishedIsPrefix(s: MuteState, params: seq<byte>, body: seq<StringUnit>, rest: seq<byte>)
    requires Unfinished(s, params, body, rest) && !s.Ground?
    ensures IsTokenPrefix(rest) && rest[0] == ESC
  {
    if s.Dcs? {
      ConcatAssociative([ESC, 'P' as int], BodyBytes(body), [ESC, BACKSLASH]);
      assert TokenBytes(DcsString(body)) == rest + [ESC, BACKSLASH];
    } else {
      var b := LastByte(s);
      CompletedTokenBytes(s, params, body, rest, b);
      assert TokenBytes(CompletedToken(s, params, body, b)) == rest + [b];
    }
  }

  /** A byte that completes the token open in state `s`. */
  function LastByte(s: MuteState): (b: byte)
    requires !s.Dcs?
    ensures NextState(s, b).Ground?
  {
    if s.Csi? then 'm' as int
    else if s.Osc? then BEL
    else if s.OscEscape? || s.DcsEscape? then BACKSLASH
    else 'c' as int
  }

  /** The filter is in Ground exactly when what it has read is a whole number of
      tokens. */
  lemma {:induction false} GroundIffWholeTokens(input: seq<byte>)
    ensures MuteAll(Ground, input).state.Ground?
            <==> exists tokens :: ValidTokens(tokens) && AllBytes(tokens) == input
  {
    if exists tokens :: ValidTokens(tokens) && AllBytes(tokens) == input {
      var tokens :| ValidTokens(tokens) && AllBytes(tokens) == input;
      MuteErasesTokens(tokens);
    } else {
      var tokens, params, body, rest := MuteReadsTokens(input);
      assert rest == [] ==> AllBytes(tokens) + rest == AllBytes(tokens);
    }
  }

  /** No ESC gets through. */
  lemma {:induction false} NeverEmitsEscape(s: MuteState, input: seq<byte>)
    ensures ESC !in MuteAll(s, input).bytes
    decreases |input|
  {
    if input != [] {
      NeverEmitsEscape(s, input[..|input| - 1]);
    }
  }
}
