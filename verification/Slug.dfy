/** Workspace slugs: the words of a name joined by dashes, and the numbered candidates. */
module Slug {
  import Decimal

  predicate IsAlnum(c: char) {
    '0' <= c <= '9' || 'a' <= c <= 'z' || 'A' <= c <= 'Z'
  }

  predicate AllAlnum(w: string) {
    forall i :: 0 <= i < |w| ==> IsAlnum(w[i])
  }

  predicate NoAlnum(w: string) {
    forall i :: 0 <= i < |w| ==> !IsAlnum(w[i])
  }

  predicate EndsInAlnum(s: string) {
    s != [] && IsAlnum(s[|s| - 1])
  }

  predicate AreWords(words: seq<string>) {
    forall k :: 0 <= k < |words| ==> words[k] != [] && AllAlnum(words[k])
  }

  /** One more character extends the last word, begins one, or does neither. */
  function NextWords(words: seq<string>, inWord: bool, c: char): (longer: seq<string>)
    requires inWord ==> words != []
  {
    if !IsAlnum(c) then words
    else if inWord then words[..|words| - 1] + [words[|words| - 1] + [c]]
    else words + [[c]]
  }

  /** The maximal runs of ASCII letters and digits. */
  function Words(s: string): (words: seq<string>)
    ensures AreWords(words)
    ensures EndsInAlnum(s) ==> words != []
  {
    if s == [] then []
    else
      var init := s[..|s| - 1];
      NextWords(Words(init), EndsInAlnum(init), s[|s| - 1])
  }

  function Join(words: seq<string>): (s: string) {
    if words == [] then ""
    else if |words| == 1 then words[0]
    else Join(words[..|words| - 1]) + "-" + words[|words| - 1]
  }

  function Slug(s: string): (slug: string) {
    if Words(s) == [] then "workspace" else Join(Words(s))
  }

  // ------------------------------------------------------------------
  // slugify
  // ------------------------------------------------------------------

  /** `slugify` on an already lowercased name. */
  method Slugify(lowered: string) returns (slug: string)
    ensures slug == Slug(lowered)
  {
    slug := "";
    var lastWasDash := true;
    NoWords();
    assert lowered[..0] == "";
    for k := 0 to |lowered|
      invariant lastWasDash == !EndsInAlnum(lowered[..k])
      invariant slug == Join(Words(lowered[..k])) + Tail(Words(lowered[..k]), lastWasDash)
    {
      hide Words, Join, EndsInAlnum;
      var c := lowered[k];
      NextChar(lowered, k);
      if IsAlnum(c) {
        slug := slug + [c];
        lastWasDash := false;
      } else if !lastWasDash {
        slug := slug + "-";
        lastWasDash := true;
      }
    }
    assert lowered[..|lowered|] == lowered;
    ghost var joined := Join(Words(lowered));
    JoinEnds(Words(lowered));
    hide Words, Join;
    slug := TrimDashes(slug, joined);
    if slug == "" {
      slug := "workspace";
    }
  }

  lemma {:induction false} NoWords()
    ensures Words("") == [] && Join(Words("")) == ""
  {
  }

  /** Drop the dashes at the end. */
  method TrimDashes(dashed: string, ghost joined: string) returns (slug: string)
    requires dashed == joined || dashed == joined + "-"
    requires joined == "" || EndsInAlnum(joined)
    ensures slug == joined
  {
    slug := dashed;
    while slug != "" && slug[|slug| - 1] == '-'
      invariant slug == joined || slug == joined + "-"
      decreases |slug|
    {
      slug := slug[..|slug| - 1];
    }
  }

  /** A dash is pending after a word once something else follows it. */
  function Tail(words: seq<string>, lastWasDash: bool): (s: string) {
    if words != [] && lastWasDash then "-" else ""
  }

  lemma {:induction false} NextChar(s: string, k: nat)
    requires k < |s|
    ensures EndsInAlnum(s[..k + 1]) == IsAlnum(s[k])
    ensures EndsInAlnum(s[..k]) ==> Words(s[..k]) != []
    ensures IsAlnum(s[k]) ==>
      Words(s[..k + 1]) != []
      && Join(Words(s[..k + 1])) == Join(Words(s[..k])) + Tail(Words(s[..k]), !EndsInAlnum(s[..k])) + [s[k]]
    ensures !IsAlnum(s[k]) ==> Words(s[..k + 1]) == Words(s[..k])
  {
    assert s[..k + 1][..k] == s[..k];
    var words := Words(s[..k]);
    if IsAlnum(s[k]) {
      if EndsInAlnum(s[..k]) {
        ExtendLast(words, s[k]);
      } else {
        var longer := words + [[s[k]]];
        assert longer[..|longer| - 1] == words;
      }
    }
  }

  lemma {:induction false} ExtendLast(words: seq<string>, c: char)
    requires words != []
    ensures Join(words[..|words| - 1] + [words[|words| - 1] + [c]]) == Join(words) + [c]
  {
    var init, last := words[..|words| - 1], words[|words| - 1];
    var longer := init + [last + [c]];
    assert longer[..|longer| - 1] == init;
    if |words| > 1 {
      assert Join(init) + "-" + (last + [c]) == (Join(init) + "-" + last) + [c];
    }
  }

  lemma {:induction false} JoinEnds(words: seq<string>)
    requires AreWords(words)
    ensures words != [] ==> EndsInAlnum(Join(words)) && IsAlnum(Join(words)[0])
    ensures words == [] ==> Join(words) == ""
    decreases |words|
  {
    if |words| > 1 {
      JoinEnds(words[..|words| - 1]);
    }
  }

  // ------------------------------------------------------------------
  // What a slug is.
  // ------------------------------------------------------------------

  /** Words between gaps: a gap, then each word with the gap after it. */
  function Weave(words: seq<string>, gaps: seq<string>): (s: string)
    requires |gaps| == |words| + 1
  {
    if words == [] then gaps[0]
    else Weave(words[..|words| - 1], gaps[..|gaps| - 1]) + words[|words| - 1] + gaps[|gaps| - 1]
  }

  /** Other characters between the words, and at least one between any two; the last gap
      is empty exactly after a letter or digit, or before anything. */
  predicate AreGaps(s: string, gaps: seq<string>) {
    && gaps != []
    && (forall k :: 0 <= k < |gaps| ==> NoAlnum(gaps[k]))
    && (forall k :: 0 < k < |gaps| - 1 ==> gaps[k] != "")
    && (gaps[|gaps| - 1] == "" <==> s == "" || EndsInAlnum(s))
  }

  /** The name is its words between gaps of other characters, and two neighbouring words
      are kept apart by at least one of them. */
  lemma {:induction false} WordsAreRuns(s: string) returns (gaps: seq<string>)
    ensures |gaps| == |Words(s)| + 1 && s == Weave(Words(s), gaps) && AreGaps(s, gaps)
    decreases |s|
  {
    if s == [] {
      gaps := [""];
    } else {
      var init, c := s[..|s| - 1], s[|s| - 1];
      gaps := WordsAreRuns(init);
      assert s == init + [c];
      WordsSnoc(init, c);
      gaps := GapsSnoc(init, Words(init), gaps, c);
    }
  }

  /** One more character extends the last gap or the last word, or begins a word. */
  lemma {:induction false} GapsSnoc(s: string, words: seq<string>, gaps: seq<string>, c: char)
    returns (gaps': seq<string>)
    requires |gaps| == |words| + 1 && s == Weave(words, gaps) && AreGaps(s, gaps)
    requires AreWords(words) && (EndsInAlnum(s) ==> words != [])
    ensures
      var longer := NextWords(words, EndsInAlnum(s), c);
      |gaps'| == |longer| + 1 && s + [c] == Weave(longer, gaps') && AreGaps(s + [c], gaps')
  {
    if !IsAlnum(c) {
      ExtendGap(words, gaps, c);
      hide Weave;
      gaps' := gaps[..|gaps| - 1] + [gaps[|gaps| - 1] + [c]];
    } else if EndsInAlnum(s) {
      ExtendWord(words, gaps, c);
      hide Weave;
      gaps' := gaps;
    } else {
      var longer := words + [[c]];
      gaps' := gaps + [""];
      assert gaps'[..|gaps|] == gaps && longer[..|words|] == words;
      assert words != [] ==> s != "";
    }
  }

  lemma {:induction false} WordsSnoc(s: string, c: char)
    ensures Words(s + [c]) == NextWords(Words(s), EndsInAlnum(s), c)
  {
    assert (s + [c])[..|s|] == s;
  }

  lemma {:induction false} ExtendWord(words: seq<string>, gaps: seq<string>, c: char)
    requires |gaps| == |words| + 1 && words != [] && gaps[|gaps| - 1] == ""
    ensures Weave(words[..|words| - 1] + [words[|words| - 1] + [c]], gaps) == Weave(words, gaps) + [c]
  {
    var longer := words[..|words| - 1] + [words[|words| - 1] + [c]];
    assert longer[..|longer| - 1] == words[..|words| - 1];
  }

  lemma {:induction false} ExtendGap(words: seq<string>, gaps: seq<string>, c: char)
    requires |gaps| == |words| + 1
    ensures Weave(words, gaps[..|gaps| - 1] + [gaps[|gaps| - 1] + [c]]) == Weave(words, gaps) + [c]
  {
    var longer := gaps[..|gaps| - 1] + [gaps[|gaps| - 1] + [c]];
    if words != [] {
      assert longer[..|longer| - 1] == gaps[..|gaps| - 1];
    }
  }

  /** Letters, digits and single dashes between them. */
  predicate IsSlug(s: string) {
    && s != "" && IsAlnum(s[0]) && IsAlnum(s[|s| - 1])
    && (forall i :: 0 <= i < |s| ==> IsAlnum(s[i]) || s[i] == '-')
    && forall i :: 0 <= i < |s| - 1 ==> IsAlnum(s[i]) || IsAlnum(s[i + 1])
  }

  lemma {:induction false} JoinIsSlug(words: seq<string>)
    requires AreWords(words) && words != []
    ensures IsSlug(Join(words))
    decreases |words|
  {
    if |words| > 1 {
      JoinIsSlug(words[..|words| - 1]);
    }
  }

  lemma {:induction false} SlugShape(s: string)
    ensures IsSlug(Slug(s))
  {
    if Words(s) != [] {
      JoinIsSlug(Words(s));
    }
  }

  lemma {:induction false} OneWord(w: string)
    requires w != "" && AllAlnum(w)
    ensures Words(w) == [w]
    decreases |w|
  {
    var init, c := w[..|w| - 1], w[|w| - 1];
    assert w == init + [c];
    WordsSnoc(init, c);
    if init == "" {
      assert w == [c] && Words(init) == [];
    } else {
      OneWord(init);
      assert [init][..0] == [];
    }
  }

  lemma {:induction false} WordAfterDash(s: string, w: string)
    requires w != "" && AllAlnum(w)
    ensures Words(s + "-" + w) == Words(s) + [w]
    decreases |w|
  {
    var init, c := w[..|w| - 1], w[|w| - 1];
    assert w == init + [c] && s + "-" + w == s + "-" + init + [c];
    WordsSnoc(s, '-');
    WordsSnoc(s + "-" + init, c);
    if init == "" {
      assert s + "-" + init == s + ['-'] && w == [c];
    } else {
      WordAfterDash(s, init);
      assert (Words(s) + [init])[..|Words(s)|] == Words(s);
    }
  }

  lemma {:induction false} WordsOfJoin(words: seq<string>)
    requires AreWords(words)
    ensures Words(Join(words)) == words
    decreases |words|
  {
    if words != [] {
      var init, last := words[..|words| - 1], words[|words| - 1];
      assert words == init + [last];
      if init == [] {
        OneWord(last);
      } else {
        WordsOfJoin(init);
        WordAfterDash(Join(init), last);
        hide Words;
      }
    }
  }

  /** A slug is its own slug. */
  lemma {:induction false} SlugTwice(s: string)
    ensures Slug(Slug(s)) == Slug(s)
  {
    if Words(s) == [] {
      OneWord("workspace");
    } else {
      WordsOfJoin(Words(s));
    }
  }

  // ------------------------------------------------------------------
  // Numbered candidates.
  // ------------------------------------------------------------------

  function Chars(ds: seq<nat>): (s: string)
    requires Decimal.AllDigits(ds)
    ensures |s| == |ds|
    ensures forall i :: 0 <= i < |s| ==> s[i] == '0' + ds[i] as char
  {
    if ds == [] then "" else ['0' + ds[0] as char] + Chars(ds[1..])
  }

  function Numeral(n: nat): (s: string)
    ensures s != "" && AllAlnum(s)
  {
    Chars(Decimal.Digits(n))
  }

  lemma {:induction false} NumeralInjective(a: nat, b: nat)
    requires Numeral(a) == Numeral(b)
    ensures a == b
  {
    var x, y := Decimal.Digits(a), Decimal.Digits(b);
    assert forall i :: 0 <= i < |x| ==> Numeral(a)[i] == Numeral(b)[i];
    assert x == y;
    Decimal.DigitsInjective(a, b);
  }

  /** The base, then the base with 2, 3 and so on. */
  function Candidate(base: string, k: nat): (c: string) {
    if k == 0 then base else base + "-" + Numeral(k + 1)
  }

  lemma {:induction false} CandidatesDiffer(base: string, j: nat, k: nat)
    requires Candidate(base, j) == Candidate(base, k)
    ensures j == k
  {
    if j != 0 && k != 0 {
      var a, b := Candidate(base, j), Candidate(base, k);
      assert a[|base| + 1..] == Numeral(j + 1) && b[|base| + 1..] == Numeral(k + 1);
      NumeralInjective(j + 1, k + 1);
    }
  }

  lemma {:induction false} CandidateIsSlug(base: string, k: nat)
    requires IsSlug(base)
    ensures IsSlug(Candidate(base, k))
  {
  }
}
