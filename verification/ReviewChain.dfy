/**
  The hash chain of a session's action reviews: every entry names the hash of the one
  before it and carries the digest of its own other fields.
 */
module ReviewChain {
  import opened Json

  type Entry = map<string, Json>

  const GENESIS: string := "genesis"

  /** One line of `action-reviews.jsonl`: blank, not JSON, or a JSON value. */
  datatype Line = Blank | Unparseable | Parsed(value: Json)

  /** How verification ends; line numbers count from 1. `Raised` is an exception: a line
      that is not JSON or not an object. */
  datatype Verdict =
    | Accepted(count: nat)
    | BrokenLink(line: nat)
    | HashMismatch(line: nat)
    | Raised(line: nat)

  /** The fields the digest covers. */
  function Canonical(e: Entry): (c: Entry) {
    e - {"entry_hash"}
  }

  predicate FollowsHash(e: Entry, prev: string) {
    "prev_hash" in e && e["prev_hash"] == String(prev)
  }

  /** `digest` is the hex SHA-256 of the canonical serialisation. */
  predicate CarriesDigest(digest: Entry -> string, e: Entry) {
    "entry_hash" in e && e["entry_hash"] == String(digest(Canonical(e)))
  }

  /** The hash the next entry has to name. */
  function HeadHash(digest: Entry -> string, log: seq<Entry>): (h: string) {
    if log == [] then GENESIS else digest(Canonical(log[|log| - 1]))
  }

  predicate Chained(digest: Entry -> string, log: seq<Entry>) {
    log == []
    || (Chained(digest, log[..|log| - 1])
        && FollowsHash(log[|log| - 1], HeadHash(digest, log[..|log| - 1]))
        && CarriesDigest(digest, log[|log| - 1]))
  }

  // ------------------------------------------------------------------
  // cmd_verify_chain
  // ------------------------------------------------------------------

  predicate AllObjects(lines: seq<Line>) {
    forall i :: 0 <= i < |lines| ==> lines[i].Blank? || (lines[i].Parsed? && lines[i].value.Object?)
  }

  /** The entries of a file all of whose lines are blank or objects. */
  function Entries(lines: seq<Line>): (log: seq<Entry>)
    requires AllObjects(lines)
  {
    if lines == [] then []
    else
      var front, last := Entries(lines[..|lines| - 1]), lines[|lines| - 1];
      if last.Blank? then front else front + [last.value.fields]
  }

  /** `lines` holds one well-linked chain. */
  predicate FileChained(digest: Entry -> string, lines: seq<Line>) {
    AllObjects(lines) && Chained(digest, Entries(lines))
  }

  lemma {:induction false} EntriesSnoc(lines: seq<Line>, k: nat)
    requires k < |lines| && AllObjects(lines[..k + 1])
    ensures AllObjects(lines[..k])
    ensures Entries(lines[..k + 1])
            == if lines[k].Blank? then Entries(lines[..k])
               else Entries(lines[..k]) + [lines[k].value.fields]
  {
    assert lines[..k + 1][..k] == lines[..k];
    assert forall i :: 0 <= i < k ==> lines[..k + 1][i] == lines[..k][i];
  }

  lemma {:induction false} ChainedSnoc(digest: Entry -> string, log: seq<Entry>, e: Entry)
    ensures Chained(digest, log + [e])
            <==> Chained(digest, log) && FollowsHash(e, HeadHash(digest, log)) && CarriesDigest(digest, e)
    ensures HeadHash(digest, log + [e]) == digest(Canonical(e))
  {
    assert (log + [e])[..|log|] == log;
  }

  /** Everything before the reported line is chained, and that line is what the verdict
      says. */
  predicate StopsAt(digest: Entry -> string, lines: seq<Line>, verdict: Verdict)
    requires !verdict.Accepted?
  {
    && 1 <= verdict.line <= |lines|
    && FileChained(digest, lines[..verdict.line - 1])
    && var line := lines[verdict.line - 1];
    && var isObject := line.Parsed? && line.value.Object?;
    && var prev := HeadHash(digest, Entries(lines[..verdict.line - 1]));
    && match verdict
       case Raised(_) => !line.Blank? && !isObject
       case BrokenLink(_) => isObject && !FollowsHash(line.value.fields, prev)
       case HashMismatch(_) =>
         isObject && FollowsHash(line.value.fields, prev) && !CarriesDigest(digest, line.value.fields)
  }

  /**
    The verifier accepts exactly the chained files, with the number of their entries;
    otherwise it stops at the first line that breaks the chain and says how.
   */
  method VerifyChain(digest: Entry -> string, lines: seq<Line>) returns (verdict: Verdict)
    ensures verdict.Accepted? <==> FileChained(digest, lines)
    ensures verdict.Accepted? ==> verdict.count == |Entries(lines)|
    ensures !verdict.Accepted? ==> StopsAt(digest, lines, verdict)
  {
    var prev := GENESIS;
    var count := 0;
    for k := 0 to |lines|
      invariant FileChained(digest, lines[..k])
      invariant prev == HeadHash(digest, Entries(lines[..k]))
      invariant count == |Entries(lines[..k])|
    {
      hide Entries, Chained, HeadHash;
      var line := lines[k];
      if line.Unparseable? || (line.Parsed? && !line.value.Object?) {
        BadLineUnchained(digest, lines, k);
        return Raised(k + 1);
      }
      assert AllObjects(lines[..k + 1]);
      EntriesSnoc(lines, k);
      if line.Parsed? {
        var e := line.value.fields;
        ChainedSnoc(digest, Entries(lines[..k]), e);
        if "prev_hash" !in e || e["prev_hash"] != String(prev) {
          BadEntryUnchained(digest, lines, k);
          return BrokenLink(k + 1);
        }
        if "entry_hash" !in e || e["entry_hash"] != String(digest(Canonical(e))) {
          BadEntryUnchained(digest, lines, k);
          return HashMismatch(k + 1);
        }
        prev := e["entry_hash"].s;
        count := count + 1;
      }
    }
    assert lines[..|lines|] == lines;
    verdict := Accepted(count);
  }

  lemma {:induction false} BadLineUnchained(digest: Entry -> string, lines: seq<Line>, k: nat)
    requires k < |lines| && !lines[k].Blank? && !(lines[k].Parsed? && lines[k].value.Object?)
    ensures !FileChained(digest, lines)
  {
  }

  lemma {:induction false} BadEntryUnchained(digest: Entry -> string, lines: seq<Line>, k: nat)
    requires k < |lines| && AllObjects(lines[..k + 1]) && !Chained(digest, Entries(lines[..k + 1]))
    ensures !FileChained(digest, lines)
  {
    if FileChained(digest, lines) {
      FilePrefixChained(digest, lines, k + 1);
    }
  }

  /** A file cut after any line is chained if the whole file is. */
  lemma {:induction false} FilePrefixChained(digest: Entry -> string, lines: seq<Line>, k: nat)
    requires k <= |lines| && FileChained(digest, lines)
    ensures FileChained(digest, lines[..k])
    decreases |lines|
  {
    if k < |lines| {
      var init := lines[..|lines| - 1];
      assert forall i :: 0 <= i < |init| ==> init[i] == lines[i];
      var log := Entries(lines);
      assert lines[|lines| - 1].Parsed? ==> log[..|log| - 1] == Entries(init);
      FilePrefixChained(digest, init, k);
      assert init[..k] == lines[..k];
    } else {
      assert lines[..k] == lines;
    }
  }

  // ------------------------------------------------------------------
  // What an accepted head hash pins down.
  // ------------------------------------------------------------------

  lemma {:induction false} PrefixChained(digest: Entry -> string, log: seq<Entry>, k: nat)
    requires k <= |log| && Chained(digest, log)
    ensures Chained(digest, log[..k])
    decreases |log|
  {
    if k < |log| {
      PrefixChained(digest, log[..|log| - 1], k);
      assert log[..|log| - 1][..k] == log[..k];
    } else {
      assert log[..k] == log;
    }
  }

  /** Two different sets of fields among the two logs' entries have one digest. */
  ghost predicate Collision(digest: Entry -> string, a: seq<Entry>, b: seq<Entry>) {
    exists i, j :: 0 <= i < |a| && 0 <= j < |b|
      && Canonical(a[i]) != Canonical(b[j]) && digest(Canonical(a[i])) == digest(Canonical(b[j]))
  }

  ghost predicate DigestsToGenesis(digest: Entry -> string, log: seq<Entry>) {
    exists i :: 0 <= i < |log| && digest(Canonical(log[i])) == GENESIS
  }

  lemma {:induction false} EntryDetermined(digest: Entry -> string, x: Entry, y: Entry)
    requires CarriesDigest(digest, x) && CarriesDigest(digest, y) && Canonical(x) == Canonical(y)
    ensures x == y
  {
    forall k | k in x || k in y
      ensures k in x && k in y && x[k] == y[k]
    {
      if k != "entry_hash" {
        assert k in Canonical(x) <==> k in x;
        assert k in Canonical(y) <==> k in y;
        assert Canonical(x)[k] == x[k] && Canonical(y)[k] == y[k];
      }
    }
  }

  /**
    The head hash pins the whole history: two chained logs with the same head hash are
    the same list of entries, or their entries exhibit a digest collision or a digest
    equal to "genesis".
   */
  lemma {:induction false} SameHeadSameLog(digest: Entry -> string, a: seq<Entry>, b: seq<Entry>)
    requires Chained(digest, a) && Chained(digest, b)
    requires HeadHash(digest, a) == HeadHash(digest, b)
    ensures a == b || Collision(digest, a, b) || DigestsToGenesis(digest, a) || DigestsToGenesis(digest, b)
    decreases |a|
  {
    if a != [] && b != [] {
      var n, m := |a| - 1, |b| - 1;
      if Canonical(a[n]) == Canonical(b[m]) {
        EntryDetermined(digest, a[n], b[m]);
        SameHeadSameLog(digest, a[..n], b[..m]);
        if a[..n] == b[..m] {
          assert a == a[..n] + [a[n]] && b == b[..m] + [b[m]];
        }
      }
    }
  }

  /** With an injective digest that never yields "genesis", the head hash determines the
      log. */
  lemma {:induction false} HeadHashDeterminesLog(digest: Entry -> string, a: seq<Entry>, b: seq<Entry>)
    requires forall x: Entry, y: Entry :: digest(x) == digest(y) ==> x == y
    requires forall x: Entry :: digest(x) != GENESIS
    requires Chained(digest, a) && Chained(digest, b)
    ensures HeadHash(digest, a) == HeadHash(digest, b) <==> a == b
  {
    if HeadHash(digest, a) == HeadHash(digest, b) {
      SameHeadSameLog(digest, a, b);
    }
  }
}
