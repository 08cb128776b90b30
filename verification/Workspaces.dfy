/** The workspace registry: minting, finding and removing isolated state homes. */
module Workspaces {
  import opened Json
  import Slug
  import opened Wrappers

  datatype Record = Record(id: string, name: string, home: string, createdAt: int, extra: map<string, Json>)

  datatype File = File(version: int, workspaces: seq<Record>, extra: map<string, Json>)

  /** What is on disk for the registry: a file that parses, or anything else. */
  datatype Stored = Parsed(file: File) | Unreadable

  datatype Error = NoName | NoSuchWorkspace | AmbiguousReference(count: nat) | IoError

  type Outcome<T> = Result<T, Error>

  const DEFAULT: File := File(1, [], map[])

  function Load(stored: Stored): (file: File) {
    if stored.Parsed? then stored.file else DEFAULT
  }

  /** A registry that does not parse counts as an empty one. */
  lemma {:induction false} LoadMeaning(stored: Stored)
    ensures stored.Parsed? ==> Load(stored) == stored.file
    ensures stored.Unreadable? ==> Load(stored) == File(1, [], map[])
  {
  }

  // ------------------------------------------------------------------
  // Paths.
  // ------------------------------------------------------------------

  /** Joining a relative name onto a directory. */
  function PathJoin(dir: string, name: string): (path: string) {
    if dir == "" then name
    else if dir[|dir| - 1] == '/' then dir + name
    else dir + "/" + name
  }

  function StripSlashes(path: string): (p: string)
    ensures |p| <= |path| && p == path[..|p|]
    ensures p == "" || p[|p| - 1] != '/'
    ensures forall i :: |p| <= i < |path| ==> path[i] == '/'
  {
    if path != "" && path[|path| - 1] == '/' then StripSlashes(path[..|path| - 1]) else path
  }

  function TrimTrailingSlash(path: string): (p: string) {
    var trimmed := StripSlashes(path);
    if trimmed == "" then path else trimmed
  }

  function AfterLastSlash(path: string): (name: string) {
    if path == "" || path[|path| - 1] == '/' then ""
    else AfterLastSlash(path[..|path| - 1]) + [path[|path| - 1]]
  }

  /** The last normal component of a path, if it has one. */
  function FileName(path: string): (name: Option<string>)
    decreases |path|
  {
    var p := StripSlashes(path);
    if p == "" then None
    else
      var name := AfterLastSlash(p);
      if name == "." then FileName(p[..|p| - 1])
      else if name == ".." then None
      else Some(name)
  }

  /** The `--workspace` argument for a record. */
  function SlugOf(record: Record): (slug: string) {
    var name := FileName(record.home);
    if name.Some? then name.value else record.home
  }

  function Root(realDir: string): (path: string) {
    PathJoin(realDir, "profiles")
  }

  function HomeOf(realDir: string, slug: string): (home: string) {
    PathJoin(Root(realDir), slug)
  }

  lemma {:induction false} HomeIsUnderRoot(realDir: string, slug: string)
    ensures HomeOf(realDir, slug) == Root(realDir) + "/" + slug
  {
    var root := Root(realDir);
    assert root[|root| - 1] == 's';
  }

  lemma {:induction false} HomesDiffer(realDir: string, a: string, b: string)
    requires HomeOf(realDir, a) == HomeOf(realDir, b)
    ensures a == b
  {
    HomeIsUnderRoot(realDir, a);
    HomeIsUnderRoot(realDir, b);
    var root := Root(realDir);
    assert (root + "/" + a)[|root| + 1..] == a && (root + "/" + b)[|root| + 1..] == b;
  }

  lemma {:induction false} HomeIsTrimmed(realDir: string, slug: string)
    requires Slug.IsSlug(slug)
    ensures TrimTrailingSlash(HomeOf(realDir, slug)) == HomeOf(realDir, slug)
  {
    HomeIsUnderRoot(realDir, slug);
    var home := HomeOf(realDir, slug);
    assert home[|home| - 1] == slug[|slug| - 1];
  }

  /** A home's basename is the slug it was minted from. */
  lemma {:induction false} SlugOfHome(realDir: string, slug: string, record: Record)
    requires Slug.IsSlug(slug) && record.home == HomeOf(realDir, slug)
    ensures SlugOf(record) == slug
  {
    HomeIsUnderRoot(realDir, slug);
    var home := record.home;
    assert home[|home| - 1] == slug[|slug| - 1];
    LastPart(Root(realDir), slug);
    assert slug[0] != '.';
  }

  lemma {:induction false} LastPart(dir: string, name: string)
    requires '/' !in name
    ensures AfterLastSlash(dir + "/" + name) == name
    decreases |name|
  {
    var path := dir + "/" + name;
    if name != "" {
      var init := name[..|name| - 1];
      assert path[|path| - 1] == name[|name| - 1] && name[|name| - 1] in name;
      assert path[..|path| - 1] == dir + "/" + init;
      LastPart(dir, init);
    }
  }

  // ------------------------------------------------------------------
  // Finding.
  // ------------------------------------------------------------------

  function LowerAscii(c: char): (l: char) {
    if 'A' <= c <= 'Z' then c - 'A' + 'a' else c
  }

  predicate EqIgnoreAsciiCase(a: string, b: string) {
    |a| == |b| && forall i :: 0 <= i < |a| ==> LowerAscii(a[i]) == LowerAscii(b[i])
  }

  predicate Answers(record: Record, reference: string) {
    EqIgnoreAsciiCase(record.name, reference) || SlugOf(record) == reference
  }

  /** The records that satisfy a test, in order. */
  function Select(records: seq<Record>, test: Record -> bool): (chosen: seq<Record>) {
    if records == [] then []
    else Select(records[..|records| - 1], test)
         + if test(records[|records| - 1]) then [records[|records| - 1]] else []
  }

  /** The positions of the chosen records: exactly those whose record satisfies the test,
      in order. */
  ghost predicate AreChosen(records: seq<Record>, test: Record -> bool, at: seq<nat>) {
    && (forall j, k :: 0 <= j < k < |at| ==> at[j] < at[k])
    && (forall k :: 0 <= k < |at| ==> at[k] < |records| && test(records[at[k]]))
    && forall n: nat :: n < |records| && test(records[n]) ==> n in at
  }

  lemma {:induction false} SelectInOrder(records: seq<Record>, test: Record -> bool) returns (at: seq<nat>)
    ensures AreChosen(records, test, at)
    ensures |at| == |Select(records, test)|
    ensures forall k :: 0 <= k < |at| ==> Select(records, test)[k] == records[at[k]]
    decreases |records|
  {
    at := [];
    if records != [] {
      var init, last := records[..|records| - 1], |records| - 1;
      at := SelectInOrder(init, test);
      ChosenSnoc(records, test, at);
      hide AreChosen;
      if test(records[last]) {
        at := at + [last];
      }
    }
  }

  lemma {:induction false} ChosenSnoc(records: seq<Record>, test: Record -> bool, at: seq<nat>)
    requires records != [] && AreChosen(records[..|records| - 1], test, at)
    ensures test(records[|records| - 1]) ==> AreChosen(records, test, at + [|records| - 1])
    ensures !test(records[|records| - 1]) ==> AreChosen(records, test, at)
    ensures forall k :: 0 <= k < |at| ==> at[k] < |records| - 1
  {
    var init, last := records[..|records| - 1], |records| - 1;
    assert forall n: nat :: n < last ==> init[n] == records[n];
    assert last in at + [last];
  }

  function AnsweringTo(reference: string): (test: Record -> bool) {
    (r: Record) => Answers(r, reference)
  }

  function Matches(records: seq<Record>, reference: string): (matches: seq<Record>) {
    Select(records, AnsweringTo(reference))
  }

  function Find(records: seq<Record>, reference: string): (r: Outcome<Option<Record>>) {
    var matches := Matches(records, reference);
    if |matches| == 0 then Ok(None)
    else if |matches| == 1 then Ok(Some(matches[0]))
    else Err(AmbiguousReference(|matches|))
  }

  /** Which positions match decides the answer: none, exactly one, or more. */
  lemma {:induction false} FindMeaning(records: seq<Record>, reference: string)
    ensures Find(records, reference) == Ok(None)
            <==> forall n :: 0 <= n < |records| ==> !Answers(records[n], reference)
    ensures Find(records, reference).Err?
            <==> exists m, n :: 0 <= m < n < |records| && Answers(records[m], reference) && Answers(records[n], reference)
    ensures forall r :: Find(records, reference) == Ok(Some(r)) ==> r in records && Answers(r, reference)
  {
    var at := SelectInOrder(records, AnsweringTo(reference));
    hide Answers, Select;
    if |at| > 1 {
      assert at[0] < at[1] && Answers(records[at[0]], reference) && Answers(records[at[1]], reference);
    }
    forall n: nat | n < |records| && Answers(records[n], reference) ensures |at| > 0 {
      assert n in at;
    }
    forall m: nat, n: nat
      | m < n < |records| && Answers(records[m], reference) && Answers(records[n], reference)
      ensures |at| > 1
    {
      assert m in at && n in at;
    }
  }

  /** What stays when the records with an id go. */
  function Retain(records: seq<Record>, id: string): (kept: seq<Record>) {
    Select(records, (r: Record) => r.id != id)
  }

  /** `kept` is the records with another id, each where it stood among them, and no other. */
  ghost predicate IsWithout(kept: seq<Record>, records: seq<Record>, id: string) {
    exists at: seq<nat> ::
      && |at| == |kept|
      && (forall j, k :: 0 <= j < k < |at| ==> at[j] < at[k])
      && (forall k :: 0 <= k < |at| ==> at[k] < |records| && kept[k] == records[at[k]] && kept[k].id != id)
      && forall n: nat :: n < |records| && records[n].id != id ==> n in at
  }

  lemma {:induction false} RetainIsWithout(records: seq<Record>, id: string)
    ensures IsWithout(Retain(records, id), records, id)
  {
    var at := SelectInOrder(records, (r: Record) => r.id != id);
    hide Select;
    assert |at| == |Retain(records, id)|;
  }

  // ------------------------------------------------------------------
  // Minting.
  // ------------------------------------------------------------------

  function Taken(records: seq<Record>): (homes: set<string>) {
    set r | r in records :: TrimTrailingSlash(r.home)
  }

  predicate DistinctHomes(records: seq<Record>) {
    forall i, j :: 0 <= i < j < |records| ==> records[i].home != records[j].home
  }

  /** The first candidate whose home is neither registered nor on disk. */
  ghost predicate IsFirstFree(realDir: string, base: string, forbidden: set<string>, slug: string) {
    exists k: nat ::
      && slug == Slug.Candidate(base, k)
      && HomeOf(realDir, slug) !in forbidden
      && forall j: nat :: j < k ==> HomeOf(realDir, Slug.Candidate(base, j)) in forbidden
  }

  /** The search ends because its candidates are all different and only finitely many
      homes are forbidden. */
  method UniqueSlug(realDir: string, lowered: string, existing: seq<Record>, disk: set<string>)
    returns (candidate: string)
    ensures IsFirstFree(realDir, Slug.Slug(lowered), Taken(existing) + disk, candidate)
    ensures Slug.IsSlug(candidate)
  {
    var base := Slug.Slugify(lowered);
    Slug.SlugShape(lowered);
    var taken := Taken(existing);
    candidate := base;
    var counter := 2;
    ghost var k: nat := 0;
    hide *;
    FirstCandidate(base);
    while true
      invariant counter == k + 2 && candidate == Slug.Candidate(base, k)
      invariant Tried(realDir, base, k) <= taken + disk
      decreases taken + disk - Tried(realDir, base, k)
    {
      var home := HomeOf(realDir, candidate);
      Slug.CandidateIsSlug(base, k);
      HomeIsTrimmed(realDir, candidate);
      if TrimTrailingSlash(home) !in taken && home !in disk {
        FirstFree(realDir, base, k, taken + disk);
        return;
      }
      NotTriedYet(realDir, base, k);
      NextCandidate(base, k);
      k := k + 1;
      candidate := base + "-" + Slug.Numeral(counter);
      counter := counter + 1;
    }
  }

  /** The homes of the first `k` candidates. */
  ghost function Tried(realDir: string, base: string, k: nat): (homes: set<string>) {
    if k == 0 then {} else Tried(realDir, base, k - 1) + {HomeOf(realDir, Slug.Candidate(base, k - 1))}
  }

  lemma {:induction false} TriedHolds(realDir: string, base: string, k: nat, home: string)
    ensures home in Tried(realDir, base, k)
            <==> exists j: nat :: j < k && HomeOf(realDir, Slug.Candidate(base, j)) == home
  {
    hide HomeOf, Slug.Candidate;
    if k > 0 {
      TriedHolds(realDir, base, k - 1, home);
    }
  }

  lemma {:induction false} NotTriedYet(realDir: string, base: string, k: nat)
    ensures HomeOf(realDir, Slug.Candidate(base, k)) !in Tried(realDir, base, k)
    ensures Tried(realDir, base, k + 1)
            == Tried(realDir, base, k) + {HomeOf(realDir, Slug.Candidate(base, k))}
  {
    var home := HomeOf(realDir, Slug.Candidate(base, k));
    TriedHolds(realDir, base, k, home);
    if home in Tried(realDir, base, k) {
      var j: nat :| j < k && HomeOf(realDir, Slug.Candidate(base, j)) == home;
      HomesDiffer(realDir, Slug.Candidate(base, j), Slug.Candidate(base, k));
      Slug.CandidatesDiffer(base, j, k);
    }
  }

  lemma {:induction false} FirstFree(realDir: string, base: string, k: nat, forbidden: set<string>)
    requires Tried(realDir, base, k) <= forbidden
    requires HomeOf(realDir, Slug.Candidate(base, k)) !in forbidden
    ensures IsFirstFree(realDir, base, forbidden, Slug.Candidate(base, k))
  {
    hide HomeOf, Slug.Candidate;
    forall j: nat | j < k ensures HomeOf(realDir, Slug.Candidate(base, j)) in forbidden {
      TriedHolds(realDir, base, k, HomeOf(realDir, Slug.Candidate(base, j)));
    }
  }

  lemma {:induction false} FirstCandidate(base: string)
    ensures Slug.Candidate(base, 0) == base
  {
  }

  lemma {:induction false} NextCandidate(base: string, k: nat)
    ensures Slug.Candidate(base, k + 1) == base + "-" + Slug.Numeral(k + 2)
  {
  }

  // ------------------------------------------------------------------
  // The registry over a run.
  // ------------------------------------------------------------------

  datatype Step =
    | CreateStep(name: string, id: string, now: int, dirFails: bool, saveFails: bool)
    | RemoveStep(reference: string, saveFails: bool)
    | RegistryChanges(stored: Stored)      // another instance writes the file, or damages it
    | DirectoriesAppear(paths: set<string>)

  class Registry {
    const realDir: string
    const trim: string -> string
    const lower: string -> string
    var stored: Stored
    var disk: set<string>
    ghost var minted: seq<Record>

    /** Every home ever minted is still on disk, and no two are the same. */
    ghost predicate Valid()
      reads this
    {
      DistinctHomes(minted) && forall r :: r in minted ==> r.home in disk
    }

    constructor (realDir: string, trim: string -> string, lower: string -> string, stored: Stored, disk: set<string>)
      ensures Valid() && minted == []
      ensures this.realDir == realDir && this.trim == trim && this.lower == lower
      ensures this.stored == stored && this.disk == disk
    {
      this.realDir, this.trim, this.lower := realDir, trim, lower;
      this.stored, this.disk, minted := stored, disk, [];
    }

    ghost function Forbidden(): (homes: set<string>)
      reads this
    {
      Taken(Load(stored).workspaces) + disk
    }

    method Create(name: string, id: string, now: int, dirFails: bool, saveFails: bool)
      returns (r: Outcome<Record>)
      requires Valid()
      modifies this
      ensures Valid()
      ensures r.Ok? <==> trim(name) != "" && !dirFails && !saveFails
      ensures trim(name) == "" <==> r == Err(NoName)
      ensures r.Err? ==> stored == old(stored) && minted == old(minted)
      ensures trim(name) == "" || dirFails ==> disk == old(disk)
      ensures old(disk) <= disk
      ensures r.Ok? ==> minted == old(minted) + [r.value]
      ensures r.Ok? ==>
        stored == Parsed(old(Load(stored)).(workspaces := old(Load(stored).workspaces) + [r.value]))
      ensures r.Ok? && old(stored).Parsed? ==>
        stored == Parsed(old(stored).file.(workspaces := old(stored).file.workspaces + [r.value]))
      ensures r.Ok? && old(stored).Unreadable? ==> stored == Parsed(File(1, [r.value], map[]))
      ensures r.Ok? ==> r.value.home in disk
      ensures r.Ok? ==> IsMinted(r.value, name, id, now, old(Forbidden()))
    {
      hide HomeOf, SlugOf, Taken, Root, IsFirstFree, IsMinted, Load;
      var trimmed := trim(name);
      if trimmed == "" {
        return Err(NoName);
      }
      var file := Load(stored);
      var record := Mint(name, id, now);
      if dirFails {
        return Err(IoError);
      }
      disk := disk + {Root(realDir), record.home};
      if saveFails {
        return Err(IoError);
      }
      LoadMeaning(stored);
      assert [] + [record] == [record];
      stored := Parsed(file.(workspaces := file.workspaces + [record]));
      minted := minted + [record];
      r := Ok(record);
    }

    /** A record as a creation makes it: the home is the first free one for its name, and
        its basename is the slug that finds it again. */
    ghost predicate IsMinted(record: Record, name: string, id: string, now: int, forbidden: set<string>) {
      && record.id == id && record.name == trim(name) && record.createdAt == now && record.extra == map[]
      && record.home !in forbidden
      && record.home == HomeOf(realDir, SlugOf(record))
      && IsFirstFree(realDir, Slug.Slug(lower(trim(name))), forbidden, SlugOf(record))
    }

    method Mint(name: string, id: string, now: int) returns (record: Record)
      ensures IsMinted(record, name, id, now, Forbidden())
      ensures record.home !in disk
    {
      var slug := UniqueSlug(realDir, lower(trim(name)), Load(stored).workspaces, disk);
      record := Record(id, trim(name), HomeOf(realDir, slug), now, map[]);
      SlugOfHome(realDir, slug, record);
      hide HomeOf, SlugOf, Taken, Slug.Slug, Slug.IsSlug;
    }

    /** The one record that answers to the reference goes, and every record with its id; the
        others stay in their order, and so does the rest of the file. */
    method Remove(reference: string, saveFails: bool) returns (r: Outcome<Record>)
      requires Valid()
      modifies this`stored
      ensures Valid()
      ensures
        var found := Find(old(Load(stored)).workspaces, reference);
        match found {
          case Err(e) => r == Err(e) && stored == old(stored)
          case Ok(None) => r == Err(NoSuchWorkspace) && stored == old(stored)
          case Ok(Some(record)) =>
            if saveFails then r == Err(IoError) && stored == old(stored)
            else
              && r == Ok(record)
              && stored == Parsed(old(Load(stored)).(workspaces := Retain(old(Load(stored)).workspaces, record.id)))
        }
      ensures r.Ok? ==>
        && old(stored).Parsed? && stored.Parsed?
        && r.value in old(stored).file.workspaces && Answers(r.value, reference)
        && stored.file.version == old(stored).file.version && stored.file.extra == old(stored).file.extra
        && IsWithout(stored.file.workspaces, old(stored).file.workspaces, r.value.id)
      ensures r.Err? ==> stored == old(stored)
    {
      FindMeaning(Load(stored).workspaces, reference);
      LoadMeaning(stored);
      hide Find, Retain, Load, IsWithout, Answers;
      var found := Find(Load(stored).workspaces, reference);
      if found.Err? {
        return Err(found.error);
      }
      if found.value.None? {
        return Err(NoSuchWorkspace);
      }
      var removed := found.value.value;
      var file := Load(stored);
      if saveFails {
        return Err(IoError);
      }
      RetainIsWithout(file.workspaces, removed.id);
      stored := Parsed(file.(workspaces := Retain(file.workspaces, removed.id)));
      r := Ok(removed);
    }

    predicate Succeeds(step: Step) {
      step.CreateStep? && trim(step.name) != "" && !step.dirFails && !step.saveFails
    }

    function Creations(steps: seq<Step>): (n: nat) {
      if steps == [] then 0
      else Creations(steps[..|steps| - 1]) + if Succeeds(steps[|steps| - 1]) then 1 else 0
    }

    /** Any sequence of creations and removals, with the registry file changing in any way
        and directories appearing in between, never mints one home twice; what is removed
        from the registry keeps its home. */
    method Run(steps: seq<Step>)
      requires Valid()
      modifies this
      ensures Valid()
      ensures old(minted) <= minted && |minted| == |old(minted)| + Creations(steps)
      ensures forall i, j :: 0 <= i < j < |minted| ==> minted[i].home != minted[j].home
      ensures forall i :: 0 <= i < |minted| ==> minted[i].home in disk
      ensures forall i :: |old(minted)| <= i < |minted| ==> minted[i].home !in old(disk)
    {
      hide Load, Find;
      for n := 0 to |steps|
        invariant Valid() && old(minted) <= minted && old(disk) <= disk
        invariant |minted| == |old(minted)| + Creations(steps[..n])
        invariant forall i :: |old(minted)| <= i < |minted| ==> minted[i].home !in old(disk)
      {
        assert steps[..n + 1][..n] == steps[..n];
        match steps[n] {
          case CreateStep(name, id, now, dirFails, saveFails) =>
            var _ := Create(name, id, now, dirFails, saveFails);
          case RemoveStep(reference, saveFails) =>
            var _ := Remove(reference, saveFails);
          case RegistryChanges(other) =>
            stored := other;
          case DirectoriesAppear(paths) =>
            disk := disk + paths;
        }
      }
      assert steps[..|steps|] == steps;
    }
  }
}
