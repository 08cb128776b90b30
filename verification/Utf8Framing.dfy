/**
  UTF-8 framing of stdin: the write command carries text, so the pump relays the
  well-formed characters, drops ill-formed bytes, and holds back a character
  whose last bytes have not been read yet.
 */
module Utf8Framing {
  import opened Bytes
  import opened Wrappers

  // ------------------------------------------------------------------
  // Well-formed UTF-8: the grammar of section 4 of RFC 3629.
  // ------------------------------------------------------------------

  /** The bytes allowed after the lead byte `lead` of a 3- or 4-byte character. */
  predicate SecondByteOk(lead: byte, second: byte) {
    IsContinuation(second)
    && (lead == 0xe0 ==> 0xa0 <= second)
    && (lead == 0xed ==> second <= 0x9f)
    && (lead == 0xf0 ==> 0x90 <= second)
    && (lead == 0xf4 ==> second <= 0x8f)
  }

  /** `s` is exactly one UTF8-char of the grammar. */
  predicate IsChar(s: seq<byte>) {
    match |s|
    case 1 => s[0] <= 0x7f
    case 2 => 0xc2 <= s[0] <= 0xdf && IsContinuation(s[1])
    case 3 => 0xe0 <= s[0] <= 0xef && SecondByteOk(s[0], s[1]) && IsContinuation(s[2])
    case 4 => 0xf0 <= s[0] <= 0xf4 && SecondByteOk(s[0], s[1])
              && IsContinuation(s[2]) && IsContinuation(s[3])
    case _ => false
  }

  /** `s` is a sequence of characters. */
  ghost predicate WellFormed(s: seq<byte>)
    decreases |s|
  {
    s == [] || exists n :: 0 < n <= |s| && IsChar(s[..n]) && WellFormed(s[n..])
  }

  /** `s` is a non-empty beginning of a character that more bytes would complete. */
  ghost predicate IsCharPrefix(s: seq<byte>) {
    s != [] && exists t: seq<byte> :: t != [] && IsChar(s + t)
  }

  /** Deleting some elements of `whole`, keeping the order of the rest, gives `part`. */
  predicate Subsequence(part: seq<byte>, whole: seq<byte>) {
    part == []
    || (whole != []
        && ((part[0] == whole[0] && Subsequence(part[1..], whole[1..]))
            || Subsequence(part, whole[1..])))
  }

  /** `p` lies between two characters of `s`, or at one of its ends. */
  ghost predicate CharBoundary(s: seq<byte>, p: nat)
    decreases |s|
  {
    p == 0 || exists n :: 0 < n <= |s| && n <= p && IsChar(s[..n]) && CharBoundary(s[n..], p - n)
  }

  // ------------------------------------------------------------------
  // The standard library's validation, one unit at a time.
  // ------------------------------------------------------------------

  /** What stands at the front of a byte string: a character, bytes that cannot
      begin one (`error_len`), or a character cut off by the end of input. */
  datatype Unit = Char(len: nat) | Bad(len: nat) | Incomplete

  function FirstUnit(s: seq<byte>): (u: Unit)
    requires s != []
    ensures u.Char? ==> 0 < u.len <= |s|
    ensures u.Bad? ==> 0 < u.len <= |s|
  {
    var lead := s[0];
    if lead <= 0x7f then Char(1)
    else if 0xc2 <= lead <= 0xdf then
      if |s| == 1 then Incomplete
      else if !IsContinuation(s[1]) then Bad(1)
      else Char(2)
    else if 0xe0 <= lead <= 0xef then
      if |s| == 1 then Incomplete
      else if !SecondByteOk(lead, s[1]) then Bad(1)
      else if |s| == 2 then Incomplete
      else if !IsContinuation(s[2]) then Bad(2)
      else Char(3)
    else if 0xf0 <= lead <= 0xf4 then
      if |s| == 1 then Incomplete
      else if !SecondByteOk(lead, s[1]) then Bad(1)
      else if |s| == 2 then Incomplete
      else if !IsContinuation(s[2]) then Bad(2)
      else if |s| == 3 then Incomplete
      else if !IsContinuation(s[3]) then Bad(3)
      else Char(4)
    else Bad(1)
  }

  /** A character stands at the front exactly when the grammar says so. */
  lemma {:induction false} FirstUnitIsChar(s: seq<byte>, n: nat)
    requires 0 < n <= |s|
    ensures IsChar(s[..n]) <==> FirstUnit(s) == Char(n)
  {
    assert forall i :: 0 <= i < n ==> s[..n][i] == s[i];
  }

  /** `Incomplete` means exactly that more bytes could still make a character. */
  lemma {:induction false} IncompleteIsPrefix(s: seq<byte>)
    requires s != []
    ensures FirstUnit(s).Incomplete? <==> IsCharPrefix(s)
    ensures IsCharPrefix(s) ==> |s| <= 3
  {
    if FirstUnit(s).Incomplete? {
      var t: seq<byte> :=
        if s[0] <= 0xdf then [0x80]
        else if s[0] <= 0xef then
          if |s| == 2 then [0x80] else if s[0] == 0xe0 then [0xa0, 0x80] else [0x80, 0x80]
        else
          if |s| == 3 then [0x80] else if |s| == 2 then [0x80, 0x80]
          else if s[0] == 0xf0 then [0x90, 0x80, 0x80] else [0x80, 0x80, 0x80];
      assert IsChar(s + t);
    }
    if IsCharPrefix(s) {
      var t: seq<byte> :| t != [] && IsChar(s + t);
      assert forall i :: 0 <= i < |s| ==> (s + t)[i] == s[i];
    }
  }

  /** Neither a character nor the beginning of one stands at the front. */
  ghost predicate NothingBegins(s: seq<byte>) {
    !IsCharPrefix(s) && forall m :: 0 < m <= |s| ==> !IsChar(s[..m])
  }

  /** The longest part of the front that could still have become a character, or the first
      byte when there is none. */
  ghost predicate IsMaximalPart(s: seq<byte>, n: nat) {
    && 0 < n <= |s|
    && (n == 1 || IsCharPrefix(s[..n]))
    && forall m :: n < m <= |s| ==> !IsCharPrefix(s[..m])
  }

  /** What is dropped as ill-formed, and how much of it, is decided by the grammar alone. */
  lemma {:induction false} BadIsMaximalPart(s: seq<byte>, n: nat)
    requires s != []
    ensures FirstUnit(s) == Bad(n) <==> NothingBegins(s) && IsMaximalPart(s, n)
  {
    BadIsNothing(s);
    if FirstUnit(s).Bad? {
      var bad := FirstUnit(s).len;
      forall m | 0 < m <= |s| ensures IsCharPrefix(s[..m]) ==> m <= bad
      {
        PrefixLengths(s, m);
      }
      PrefixLengths(s, bad);
      hide FirstUnit, IsCharPrefix;
    }
  }

  lemma {:induction false} BadIsNothing(s: seq<byte>)
    requires s != []
    ensures FirstUnit(s).Bad? <==> NothingBegins(s)
  {
    IncompleteIsPrefix(s);
    hide FirstUnit, IsCharPrefix, IsChar;
    forall m | 0 < m <= |s| ensures IsChar(s[..m]) <==> FirstUnit(s) == Char(m) {
      FirstUnitIsChar(s, m);
    }
  }

  /** The beginnings of a bad unit that could have become a character are all but those
      longer than it. */
  lemma {:induction false} PrefixLengths(s: seq<byte>, m: nat)
    requires 0 < m <= |s| && FirstUnit(s).Bad?
    ensures IsCharPrefix(s[..m]) ==> m <= FirstUnit(s).len
    ensures 1 < m == FirstUnit(s).len ==> IsCharPrefix(s[..m])
  {
    var front := s[..m];
    IncompleteIsPrefix(front);
    hide IsCharPrefix, IsChar;
    assert forall i :: 0 <= i < m ==> front[i] == s[i];
  }

  /** Bytes after a decided unit do not change it. */
  lemma {:induction false} FirstUnitExtends(a: seq<byte>, b: seq<byte>)
    requires a != [] && !FirstUnit(a).Incomplete?
    ensures FirstUnit(a + b) == FirstUnit(a)
  {
    assert forall i :: 0 <= i < |a| ==> (a + b)[i] == a[i];
  }

  /** The outcome of `std::str::from_utf8`. */
  datatype Check = Valid | Invalid(validUpTo: nat, errorLen: Option<nat>)

  function FromUtf8(s: seq<byte>): (c: Check)
    ensures c.Invalid? ==> c.validUpTo <= |s|
    ensures c.Invalid? && c.errorLen.Some? ==>
      0 < c.errorLen.value && c.validUpTo + c.errorLen.value <= |s|
    decreases |s|
  {
    if s == [] then Valid
    else match FirstUnit(s)
      case Incomplete => Invalid(0, None)
      case Bad(n) => Invalid(0, Some(n))
      case Char(n) =>
        match FromUtf8(s[n..])
        case Valid => Valid
        case Invalid(v, e) => Invalid(n + v, e)
  }

  // ------------------------------------------------------------------
  // split_valid_utf8
  // ------------------------------------------------------------------

  datatype Split = Split(text: seq<byte>, held: seq<byte>)

  function SplitValidUtf8(pending: seq<byte>): (r: Split)
    decreases |pending|
  {
    match FromUtf8(pending)
    case Valid => Split(pending, [])
    case Invalid(v, None) => Split(pending[..v], pending[v..])
    case Invalid(v, Some(bad)) =>
      var more := SplitValidUtf8(pending[v + bad..]);
      Split(pending[..v] + more.text, more.held)
  }

  /** The whole-input reading: keep each character, skip each bad unit, stop at
      an unfinished one. */
  function Keep(s: seq<byte>): (r: Split)
    decreases |s|
  {
    if s == [] then Split([], [])
    else match FirstUnit(s)
      case Incomplete => Split([], s)
      case Bad(n) => Keep(s[n..])
      case Char(n) => var rest := Keep(s[n..]); Split(s[..n] + rest.text, rest.held)
  }

  /** The library's verdict: a well-formed prefix, then the first unit that is not
      a character. */
  lemma {:induction false} CheckMeaning(s: seq<byte>)
    ensures FromUtf8(s).Valid? ==> WellFormed(s)
    ensures FromUtf8(s).Invalid? ==>
      var v := FromUtf8(s).validUpTo;
      v < |s| && WellFormed(s[..v])
      && FirstUnit(s[v..]) == (match FromUtf8(s).errorLen
                               case None => Incomplete
                               case Some(bad) => Bad(bad))
    decreases |s|
  {
    hide FirstUnit;
    if s != [] && FirstUnit(s).Char? {
      var n := FirstUnit(s).len;
      FirstUnitIsChar(s, n);
      CheckMeaning(s[n..]);
      if FromUtf8(s[n..]).Invalid? {
        var v := FromUtf8(s[n..]).validUpTo;
        var good := s[..n + v];
        assert good[..n] == s[..n] && good[n..] == s[n..][..v];
        assert s[n..][v..] == s[n + v..];
      }
    }
  }

  /** Scanning for the longest valid prefix, skipping, and recursing keeps exactly
      the characters the unit-by-unit reading keeps. */
  lemma {:induction false} SplitIsKeep(s: seq<byte>)
    ensures SplitValidUtf8(s) == Keep(s)
    decreases |s|
  {
    hide FirstUnit, FromUtf8, WellFormed;
    CheckMeaning(s);
    match FromUtf8(s)
    case Valid =>
      KeepsWellFormed(s);
    case Invalid(v, e) =>
      KeepAfterWellFormed(s, v);
      var rest := s[v..];
      if e.Some? {
        assert Keep(rest) == Keep(rest[e.value..]);
        hide Keep;
        assert rest[e.value..] == s[v + e.value..];
        SplitIsKeep(s[v + e.value..]);
      } else {
        assert Keep(rest) == Split([], rest);
        hide Keep;
        assert s[..v] + [] == s[..v];
      }
  }

  lemma {:induction false} KeepAfterWellFormed(s: seq<byte>, v: nat)
    requires v <= |s| && WellFormed(s[..v])
    ensures Keep(s) == Split(s[..v] + Keep(s[v..]).text, Keep(s[v..]).held)
  {
    hide Keep, WellFormed;
    KeepsWellFormed(s[..v]);
    KeepStreams(s[..v], s[v..]);
    assert s[..v] + s[v..] == s && [] + s[v..] == s[v..];
  }

  lemma {:induction false} SubsequenceDrop(part: seq<byte>, whole: seq<byte>, n: nat)
    requires n <= |whole| && Subsequence(part, whole[n..])
    ensures Subsequence(part, whole)
    decreases n
  {
    if n > 0 {
      assert whole[1..][n - 1..] == whole[n..];
      SubsequenceDrop(part, whole[1..], n - 1);
    }
  }

  lemma {:induction false} SubsequencePrefix(part: seq<byte>, whole: seq<byte>, n: nat)
    requires n <= |whole| && Subsequence(part, whole[n..])
    ensures Subsequence(whole[..n] + part, whole)
    decreases n
  {
    if n > 0 {
      assert whole[1..][n - 1..] == whole[n..];
      SubsequencePrefix(part, whole[1..], n - 1);
      var all := whole[..n] + part;
      assert all[1..] == whole[1..][..n - 1] + part;
    } else {
      assert whole[..0] + part == part;
    }
  }

  /**
    What the pump relays is well-formed and is the input with bytes deleted; what
    it holds back is the end of the input and a proper beginning of one
    character, so at most three bytes.
   */
  lemma {:induction false} SplitSound(s: seq<byte>)
    ensures WellFormed(SplitValidUtf8(s).text)
    ensures Subsequence(SplitValidUtf8(s).text, s)
    ensures SplitValidUtf8(s).held == [] || IsCharPrefix(SplitValidUtf8(s).held)
    ensures |SplitValidUtf8(s).held| <= 3
    ensures |SplitValidUtf8(s).held| <= |s|
    ensures SplitValidUtf8(s).held == s[|s| - |SplitValidUtf8(s).held|..]
  {
    SplitIsKeep(s);
    KeepTextSound(s);
    KeepHeldSound(s);
  }

  lemma {:induction false} KeepTextSound(s: seq<byte>)
    ensures WellFormed(Keep(s).text)
    ensures Subsequence(Keep(s).text, s)
    decreases |s|
  {
    hide FirstUnit, Subsequence, IsChar;
    if s == [] || FirstUnit(s).Incomplete? {
      NothingIsSubsequence(s);
    } else {
      var n := FirstUnit(s).len;
      var rest := Keep(s[n..]).text;
      KeepTextSound(s[n..]);
      if FirstUnit(s).Bad? {
        assert Keep(s).text == rest;
        hide Keep, WellFormed;
        SubsequenceDrop(rest, s, n);
      } else {
        assert Keep(s).text == s[..n] + rest;
        hide Keep, WellFormed;
        FirstUnitIsChar(s, n);
        SubsequencePrefix(rest, s, n);
        CharThenWellFormed(s[..n], rest);
      }
    }
  }

  lemma {:induction false} KeepHeldSound(s: seq<byte>)
    ensures Keep(s).held == [] || IsCharPrefix(Keep(s).held)
    ensures |Keep(s).held| <= 3
    ensures |Keep(s).held| <= |s|
    ensures Keep(s).held == s[|s| - |Keep(s).held|..]
    decreases |s|
  {
    if s != [] {
      IncompleteIsPrefix(s);
      hide FirstUnit, IsCharPrefix, IsChar;
      if !FirstUnit(s).Incomplete? {
        KeepHeldSound(s[FirstUnit(s).len..]);
      }
    }
  }

  lemma {:induction false} NothingIsSubsequence(s: seq<byte>)
    ensures Subsequence([], s)
  {
  }

  lemma {:induction false} CharThenWellFormed(c: seq<byte>, rest: seq<byte>)
    requires c != [] && IsChar(c) && WellFormed(rest)
    ensures WellFormed(c + rest)
  {
    hide IsChar;
    var all := c + rest;
    assert all[..|c|] == c && all[|c|..] == rest;
  }

  /** The ASCII bytes of a byte string, in order. */
  function AsciiOf(s: seq<byte>): (ascii: seq<byte>) {
    if s == [] then [] else (if s[0] <= 0x7f then [s[0]] else []) + AsciiOf(s[1..])
  }

  lemma {:induction false} AsciiOfAppend(a: seq<byte>, b: seq<byte>)
    ensures AsciiOf(a + b) == AsciiOf(a) + AsciiOf(b)
  {
    if a == [] {
      assert a + b == b;
    } else {
      var first := if a[0] <= 0x7f then [a[0]] else [];
      var all := a + b;
      assert all[1..] == a[1..] + b;
      assert AsciiOf(a) == first + AsciiOf(a[1..]);
      assert AsciiOf(all) == first + AsciiOf(all[1..]);
      AsciiOfAppend(a[1..], b);
      hide AsciiOf;
      ConcatAssociative(first, AsciiOf(a[1..]), AsciiOf(b));
    }
  }

  lemma {:induction false} NoAscii(s: seq<byte>)
    requires forall i :: 0 <= i < |s| ==> s[i] > 0x7f
    ensures AsciiOf(s) == []
  {
    if s != [] {
      NoAscii(s[1..]);
    }
  }

  /** A bad or unfinished unit holds no ASCII byte. */
  lemma {:induction false} DroppedIsNotAscii(s: seq<byte>)
    requires s != [] && !FirstUnit(s).Char?
    ensures
      var n := if FirstUnit(s).Bad? then FirstUnit(s).len else |s|;
      AsciiOf(s[..n]) == []
  {
    var n := if FirstUnit(s).Bad? then FirstUnit(s).len else |s|;
    NoAscii(s[..n]);
  }

  /** No ASCII byte is ever lost, whatever ill-formed bytes surround it. */
  lemma {:induction false} SplitKeepsAscii(s: seq<byte>)
    ensures AsciiOf(SplitValidUtf8(s).text) == AsciiOf(s)
  {
    SplitIsKeep(s);
    KeepKeepsAscii(s);
  }

  lemma {:induction false} KeepKeepsAscii(s: seq<byte>)
    ensures AsciiOf(Keep(s).text) == AsciiOf(s)
    decreases |s|
  {
    hide FirstUnit, AsciiOf;
    if s == [] {
    } else if FirstUnit(s).Incomplete? {
      DroppedIsNotAscii(s);
      NoAscii([]);
      assert s[..|s|] == s;
    } else {
      var n := FirstUnit(s).len;
      assert s[..n] + s[n..] == s;
      AsciiOfAppend(s[..n], s[n..]);
      KeepKeepsAscii(s[n..]);
      if FirstUnit(s).Bad? {
        DroppedIsNotAscii(s);
        assert [] + AsciiOf(s[n..]) == AsciiOf(s[n..]);
      } else {
        AsciiOfAppend(s[..n], Keep(s[n..]).text);
      }
    }
  }

  /** Nothing well-formed is lost: text survives whole exactly when it is well-formed. */
  lemma {:induction false} SplitKeepsWellFormed(s: seq<byte>)
    ensures WellFormed(s) <==> SplitValidUtf8(s) == Split(s, [])
  {
    SplitIsKeep(s);
    if WellFormed(s) {
      KeepsWellFormed(s);
    }
    SplitSound(s);
  }

  lemma {:induction false} KeepsWellFormed(s: seq<byte>)
    requires WellFormed(s)
    ensures Keep(s) == Split(s, [])
    decreases |s|
  {
    if s != [] {
      var n :| 0 < n <= |s| && IsChar(s[..n]) && WellFormed(s[n..]);
      FirstUnitIsChar(s, n);
      KeepsWellFormed(s[n..]);
      assert s[..n] + s[n..] == s;
    }
  }

  /**
    Carrying the held bytes into the next read gives the same text as reading
    everything at once: the split points between reads do not show.
   */
  lemma {:induction false} SplitStreams(a: seq<byte>, b: seq<byte>)
    ensures SplitValidUtf8(a + b).text
            == SplitValidUtf8(a).text + SplitValidUtf8(SplitValidUtf8(a).held + b).text
    ensures SplitValidUtf8(a + b).held == SplitValidUtf8(SplitValidUtf8(a).held + b).held
  {
    SplitIsKeep(a);
    SplitIsKeep(a + b);
    SplitIsKeep(Keep(a).held + b);
    KeepStreams(a, b);
  }

  lemma {:induction false} KeepStreams(a: seq<byte>, b: seq<byte>)
    ensures Keep(a + b).text == Keep(a).text + Keep(Keep(a).held + b).text
    ensures Keep(a + b).held == Keep(Keep(a).held + b).held
    decreases |a|
  {
    hide FirstUnit;
    if a == [] {
      assert a + b == b;
      assert Keep(a).held + b == b;
    } else if FirstUnit(a).Incomplete? {
      assert Keep(a) == Split([], a);
      hide Keep;
      assert [] + Keep(a + b).text == Keep(a + b).text;
    } else {
      var n := FirstUnit(a).len;
      FirstUnitExtends(a, b);
      KeepStreams(a[n..], b);
      assert (a + b)[n..] == a[n..] + b;
      assert (a + b)[..n] == a[..n];
      var rest := Keep(a[n..]);
      ConcatAssociative(a[..n], rest.text, Keep(rest.held + b).text);
    }
  }

  /** A character cut short by an ASCII byte is dropped, and the byte is kept. */
  lemma {:induction false} SplitAfterCutShort(held: seq<byte>, b: byte)
    requires held == [] || IsCharPrefix(held)
    requires b <= 0x7f
    ensures SplitValidUtf8(held + [b]) == Split([b], [])
  {
    hide FirstUnit, SplitValidUtf8, IsCharPrefix;
    var all := held + [b];
    SplitIsKeep(all);
    OneAscii(b);
    if held == [] {
      assert all == [b];
    } else {
      CutShortIsBad(held, b);
      assert all[|held|..] == [b];
      assert Keep(all) == Keep(all[|held|..]);
    }
  }

  lemma {:induction false} CutShortIsBad(held: seq<byte>, b: byte)
    requires IsCharPrefix(held) && b <= 0x7f
    ensures FirstUnit(held + [b]) == Bad(|held|)
  {
    IncompleteIsPrefix(held);
    hide IsCharPrefix;
    assert forall i :: 0 <= i < |held| ==> (held + [b])[i] == held[i];
  }

  lemma {:induction false} OneAscii(b: byte)
    requires b <= 0x7f
    ensures Keep([b]) == Split([b], [])
  {
    assert [b][1..] == [] && [b][..1] == [b];
    assert Keep([]) == Split([], []);
  }

  // ------------------------------------------------------------------
  // Character boundaries of well-formed text.
  // ------------------------------------------------------------------

  lemma {:induction false} CharShape(s: seq<byte>, n: nat, i: nat)
    requires 0 < n <= |s| && IsChar(s[..n]) && i < n
    ensures IsContinuation(s[i]) <==> i > 0
  {
    assert forall k :: 0 <= k < n ==> s[..n][k] == s[k];
  }

  /** In well-formed text a position splits a character exactly when a
      continuation byte stands there. */
  lemma {:induction false} BoundaryIffNotContinuation(s: seq<byte>, p: nat)
    requires WellFormed(s) && p <= |s|
    ensures CharBoundary(s, p) <==> p == |s| || !IsContinuation(s[p])
    decreases |s|
  {
    if s != [] {
      var n :| 0 < n <= |s| && IsChar(s[..n]) && WellFormed(s[n..]);
      CharShape(s, n, 0);
      if p >= n {
        BoundaryIffNotContinuation(s[n..], p - n);
        assert p < |s| ==> s[n..][p - n] == s[p];
        FirstUnitIsChar(s, n);
        forall m | 0 < m <= |s| && IsChar(s[..m])
          ensures m == n
        {
          FirstUnitIsChar(s, m);
        }
      } else if p > 0 {
        CharShape(s, n, p);
        FirstUnitIsChar(s, n);
        forall m | 0 < m <= |s| && IsChar(s[..m])
          ensures m == n
        {
          FirstUnitIsChar(s, m);
        }
      }
    }
  }

  /** After an ASCII byte of well-formed text comes a character boundary. */
  lemma {:induction false} AsciiEndsCharacter(s: seq<byte>, p: nat)
    requires WellFormed(s) && p < |s| && IsAscii(s[p])
    ensures CharBoundary(s, p) && CharBoundary(s, p + 1)
    decreases |s|
  {
    BoundaryIffNotContinuation(s, p);
    if p + 1 < |s| {
      var n :| 0 < n <= |s| && IsChar(s[..n]) && WellFormed(s[n..]);
      if p < n {
        assert s[..n][p] == s[p];
        assert n == 1;
        assert CharBoundary(s[n..], 0);
      } else {
        AsciiEndsCharacter(s[n..], p - n);
      }
    }
    BoundaryIffNotContinuation(s, p + 1);
  }
}
