/** Bytes as they appear in the terminal journal and on stdin. */
module Bytes {
  type byte = b: int | 0 <= b < 256

  const BEL: byte := 0x07
  const LF: byte := 0x0a
  const CR: byte := 0x0d
  const CAN: byte := 0x18
  const SUB: byte := 0x1a
  const ESC: byte := 0x1b

  /** `(byte & 0b1100_0000) == 0b1000_0000`: the byte continues a UTF-8 character. */
  predicate IsContinuation(b: byte) {
    0x80 <= b < 0xc0
  }

  predicate IsAscii(b: byte) {
    b < 0x80
  }

  /** A slice of a slice is a slice. */
  lemma {:induction false} SliceOfSlice<T>(s: seq<T>, a: nat, b: nat, c: nat, d: nat)
    requires a <= b <= |s| && c <= d <= b - a
    ensures s[a..b][c..d] == s[a + c..a + d]
  {
    var left, right := s[a..b][c..d], s[a + c..a + d];
    forall i | 0 <= i < d - c
      ensures left[i] == right[i]
    {
      assert left[i] == s[a..b][c + i] == s[a + c + i];
    }
  }

  lemma {:induction false} SliceJoin<T>(s: seq<T>, a: nat, b: nat, c: nat)
    requires a <= b <= c <= |s|
    ensures s[a..b] + s[b..c] == s[a..c]
  {
  }

  lemma {:induction false} ConcatAssociative<T>(a: seq<T>, b: seq<T>, c: seq<T>)
    ensures (a + b) + c == a + (b + c)
  {
  }
}
