/**
  Sharding grants: the approval lists move from `app-state.json` to `grants.json` by two
  file replacements, the grants file first.
 */
module GrantShard {
  import opened Json

  const GRANT_KEYS: seq<string> :=
    ["mcp_write_approvals", "mcp_app_open_approvals", "browser_approvals", "computer_approvals"]

  predicate IsGrantKey(key: string) {
    exists i :: 0 <= i < |GRANT_KEYS| && GRANT_KEYS[i] == key
  }

  /** `app-state.json` as it is found. */
  datatype StateFile = Unreadable | Corrupt | NotObject(value: Json) | State(doc: Document)

  /** `grants.json` as it is found; a damaged file no longer parses, whatever it held. */
  datatype GrantsFile = Absent | Damaged(held: Document) | Grants(doc: Document)

  /** How the four writes and renames turn out, and after how many the process dies. */
  datatype Fate = Fate(writeGrants: bool, renameGrants: bool, writeState: bool, renameState: bool,
                       crashAfter: nat)

  datatype Outcome = Reported | Error | Migrated | Crashed

  /** The grants the migration starts from: an unreadable file counts as empty. */
  function Existing(grants: GrantsFile): (doc: Document) {
    if grants.Grants? then grants.doc else map[]
  }

  predicate NeedsSharding(state: Document) {
    exists key :: key in state && IsGrantKey(key)
  }

  /** Every grant key moves unless the grants file already has it. */
  function ShardedGrants(state: Document, grants: Document): (doc: Document) {
    (map key | key in state && IsGrantKey(key) :: state[key]) + grants
  }

  function ShardedState(state: Document): (doc: Document) {
    map key | key in state && !IsGrantKey(key) :: state[key]
  }

  predicate Smooth(fate: Fate) {
    fate.writeGrants && fate.renameGrants && fate.writeState && fate.renameState && fate.crashAfter > 4
  }

  /** `a` is listed before `b`. */
  predicate ListedBefore(a: string, b: string) {
    exists m, n :: 0 <= m < n < |GRANT_KEYS| && GRANT_KEYS[m] == a && GRANT_KEYS[n] == b
  }

  /** The grant keys the state file still holds, in the order they are listed. */
  method KeysToMigrate(state: Document) returns (keys: seq<string>)
    ensures forall key :: key in keys <==> key in state && IsGrantKey(key)
    ensures forall i, j :: 0 <= i < j < |keys| ==> ListedBefore(keys[i], keys[j])
    ensures keys == [] <==> !NeedsSharding(state)
  {
    keys := [];
    for i := 0 to |GRANT_KEYS|
      invariant forall key :: key in keys <==> key in state && key in GRANT_KEYS[..i]
      invariant forall k, l :: 0 <= k < l < |keys| ==> ListedBefore(keys[k], keys[l])
    {
      if GRANT_KEYS[i] in state {
        forall k | 0 <= k < |keys| ensures ListedBefore(keys[k], GRANT_KEYS[i]) {
          assert keys[k] in keys;
          var m :| 0 <= m < i && GRANT_KEYS[m] == keys[k];
        }
        keys := keys + [GRANT_KEYS[i]];
      }
    }
    GrantKeysListed();
    if keys != [] {
      assert keys[0] in keys;
    }
  }

  /** Move each key; on conflict the grants file's value stays. */
  method MoveGrants(state: Document, grants: Document, keys: seq<string>)
    returns (state': Document, grants': Document)
    requires forall key :: key in keys <==> key in state && IsGrantKey(key)
    ensures state' == ShardedState(state) && grants' == ShardedGrants(state, grants)
  {
    hide IsGrantKey;
    state', grants' := state, grants;
    ghost var done: set<string> := {};
    for i := 0 to |keys|
      invariant forall n :: 0 <= n < i ==> keys[n] in done
      invariant forall key :: key in done ==> key in keys
      invariant state' == state - done
      invariant grants' == (map key | key in done :: state[key]) + grants
    {
      var key := keys[i];
      assert key in keys;
      MoveOne(state, grants, done, key);
      if key in state' {
        if key !in grants' {
          grants' := grants'[key := state'[key]];
        }
        state' := state' - {key};
      }
      done := done + {key};
    }
    assert forall key :: key in done <==> key in state && IsGrantKey(key);
    MovedAll(state, grants, done);
  }

  lemma {:induction false} MovedAll(state: Document, grants: Document, done: set<string>)
    requires forall key :: key in done <==> key in state && IsGrantKey(key)
    ensures state - done == ShardedState(state)
    ensures (map key | key in done :: state[key]) + grants == ShardedGrants(state, grants)
  {
    hide IsGrantKey;
  }

  lemma {:induction false} MoveOne(state: Document, grants: Document, done: set<string>, key: string)
    requires key in state && forall k :: k in done ==> k in state
    ensures state - (done + {key}) == (state - done) - {key}
    ensures
      var before := (map k | k in done :: state[k]) + grants;
      var after := (map k | k in done + {key} :: state[k]) + grants;
      after == if key in before then before else before[key := state[key]]
  {
  }

  // ------------------------------------------------------------------
  // The two documents.
  // ------------------------------------------------------------------

  /** The documents after a clean run. */
  datatype Documents = Documents(state: Document, grants: Document)

  function Shard(d: Documents): (e: Documents) {
    if NeedsSharding(d.state)
    then Documents(ShardedState(d.state), ShardedGrants(d.state, d.grants))
    else d
  }

  /** What a key means: the grants file wins on conflict. */
  function Lookup(d: Documents, key: string): (v: Json)
    requires key in d.grants || key in d.state
  {
    if key in d.grants then d.grants[key] else d.state[key]
  }

  /** How far a run got before it failed or died: the three things a run can leave. */
  datatype Stop = BeforeRenames | BetweenRenames | AfterRenames

  function StoppedAt(d: Documents, stop: Stop): (e: Documents) {
    if !NeedsSharding(d.state) then d
    else
      match stop
      case BeforeRenames => d
      case BetweenRenames => Documents(d.state, ShardedGrants(d.state, d.grants))
      case AfterRenames => Shard(d)
  }

  function AfterRuns(d: Documents, stops: seq<Stop>): (e: Documents) {
    if stops == [] then d else StoppedAt(AfterRuns(d, stops[..|stops| - 1]), stops[|stops| - 1])
  }

  class Store {
    var state: StateFile
    var grants: GrantsFile

    constructor (state: StateFile, grants: GrantsFile)
      ensures this.state == state && this.grants == grants
    {
      this.state := state;
      this.grants := grants;
    }

    /** The two documents as the step reads them. */
    function Read(): (d: Documents)
      reads this
      requires state.State?
    {
      Documents(state.doc, Existing(grants))
    }

    /**
      The step. Only three things can be on disk afterwards: what was there, the new
      grants with the old state, or both new; the middle one only after an error or a
      crash. `stop` says which.
     */
    method StepGrantShard(apply: bool, fate: Fate) returns (outcome: Outcome, ghost stop: Stop)
      modifies this
      ensures old(!state.State?) || !apply || !NeedsSharding(old(state).doc) ==>
        state == old(state) && grants == old(grants) && !outcome.Migrated?
      ensures old(state.State?) && apply && NeedsSharding(old(state).doc) ==>
        var newGrants := Grants(ShardedGrants(old(state).doc, Existing(old(grants))));
        match stop
        case BeforeRenames =>
          state == old(state) && grants == old(grants) && (outcome.Error? || outcome.Crashed?)
        case BetweenRenames =>
          state == old(state) && grants == newGrants && (outcome.Error? || outcome.Crashed?)
        case AfterRenames =>
          state == State(ShardedState(old(state).doc)) && grants == newGrants
          && (outcome.Migrated? || outcome.Crashed?)
      ensures (old(state.State?) && apply && NeedsSharding(old(state).doc) && Smooth(fate)) ==>
        outcome.Migrated?
      ensures old(state.State?) && apply && Smooth(fate) ==> grants == GrantsAfter(old(state).doc, old(grants))
      ensures old(state.State?) && apply ==> state.State? && Read() == StoppedAt(old(Read()), stop)
    {
      stop := BeforeRenames;
      if state.Unreadable? || state.NotObject? {
        return Reported, stop;
      }
      if state.Corrupt? {
        return Error, stop;
      }
      var stateDoc := state.doc;
      var toMigrate := KeysToMigrate(stateDoc);
      if toMigrate == [] || !apply {
        return Reported, stop;
      }
      var grantsDoc;
      stateDoc, grantsDoc := MoveGrants(stateDoc, Existing(grants), toMigrate);

      if fate.crashAfter == 0 { return Crashed, stop; }
      if !fate.writeGrants { return Error, stop; }
      if fate.crashAfter == 1 { return Crashed, stop; }
      if !fate.renameGrants { return Error, stop; }
      grants, stop := Grants(grantsDoc), BetweenRenames;
      if fate.crashAfter == 2 { return Crashed, stop; }
      if !fate.writeState { return Error, stop; }
      if fate.crashAfter == 3 { return Crashed, stop; }
      if !fate.renameState { return Error, stop; }
      state, stop := State(stateDoc), AfterRenames;
      if fate.crashAfter == 4 { return Crashed, stop; }
      return Migrated, stop;
    }

    /**
      Any number of runs, each failing or dying wherever its fate says, and then one that
      goes through: the files hold what one clean run from the start would have written,
      and no grant has changed its meaning.
     */
    method RunUntilDone(fates: seq<Fate>, last: Fate)
      requires state.State? && Smooth(last)
      modifies this
      ensures state.State? && Read() == Shard(old(Read()))
      ensures forall key :: IsGrantKey(key) && (key in old(Read()).grants || key in old(Read()).state) ==>
        (key in Read().grants || key in Read().state) && Lookup(Read(), key) == Lookup(old(Read()), key)
      ensures !NeedsSharding(state.doc)
    {
      ghost var stops: seq<Stop> := [];
      ghost var first := Read();
      hide Shard, StoppedAt, NeedsSharding, ShardedGrants, ShardedState;
      for i := 0 to |fates|
        invariant state.State? && Read() == AfterRuns(first, stops)
      {
        var outcome, stop := StepGrantShard(true, fates[i]);
        AfterRunsSnoc(first, stops, stop);
        stops := stops + [stop];
      }
      RerunsConverge(first, stops);
      ghost var before := Read();
      var outcome, stop := StepGrantShard(true, last);
      SmoothIsShard(before, stop);
      RerunsConverge(first, stops + [AfterRenames]);
      AfterRunsSnoc(first, stops, AfterRenames);
      ShardTwice(first);
    }
  }

  lemma {:induction false} GrantKeysListed()
    ensures GRANT_KEYS[..|GRANT_KEYS|] == GRANT_KEYS
    ensures forall key :: key in GRANT_KEYS <==> IsGrantKey(key)
  {
  }

  // ------------------------------------------------------------------
  // What every run keeps.
  // ------------------------------------------------------------------

  /** A crash between the two renames, then a rerun, ends where one clean run does. */
  lemma {:induction false} CrashConverges(d: Documents)
    ensures Shard(Documents(d.state, ShardedGrants(d.state, d.grants))) == Shard(d)
  {
    var again := ShardedGrants(d.state, ShardedGrants(d.state, d.grants));
    assert again == ShardedGrants(d.state, d.grants);
    if !NeedsSharding(d.state) {
      assert ShardedGrants(d.state, d.grants) == d.grants;
    }
  }

  /** A further run changes nothing. */
  lemma {:induction false} ShardTwice(d: Documents)
    ensures Shard(Shard(d)) == Shard(d)
    ensures !NeedsSharding(Shard(d).state)
  {
  }

  /**
    At every point of the migration — before it, between the renames, after it — each
    grant key that was in either file is in one of them with the same meaning, and each
    other key of the state stays where it was.
   */
  lemma {:induction false} NoGrantIsEverMissing(d: Documents, key: string)
    requires IsGrantKey(key) && (key in d.grants || key in d.state)
    ensures
      var between := Documents(d.state, ShardedGrants(d.state, d.grants));
      && (key in between.grants || key in between.state) && Lookup(between, key) == Lookup(d, key)
      && (key in Shard(d).grants || key in Shard(d).state) && Lookup(Shard(d), key) == Lookup(d, key)
      && (NeedsSharding(d.state) ==> key in Shard(d).grants && key !in Shard(d).state)
  {
  }

  lemma {:induction false} AfterRunsSnoc(d: Documents, stops: seq<Stop>, stop: Stop)
    ensures AfterRuns(d, stops + [stop]) == StoppedAt(AfterRuns(d, stops), stop)
  {
    assert (stops + [stop])[..|stops|] == stops;
  }

  /** A run that gets past both renames, or has nothing to do, is a clean run. */
  lemma {:induction false} SmoothIsShard(d: Documents, stop: Stop)
    ensures stop.AfterRenames? || !NeedsSharding(d.state) ==> StoppedAt(d, stop) == Shard(d)
    ensures StoppedAt(d, AfterRenames) == Shard(d)
  {
  }

  /** However many runs are cut short, and wherever, each grant keeps its meaning and one
      clean run ends where it would have ended without them. */
  lemma {:induction false} RerunsConverge(d: Documents, stops: seq<Stop>)
    ensures Shard(AfterRuns(d, stops)) == Shard(d)
    ensures forall key :: IsGrantKey(key) && (key in d.grants || key in d.state) ==>
      var e := AfterRuns(d, stops);
      (key in e.grants || key in e.state) && Lookup(e, key) == Lookup(d, key)
    decreases |stops|
  {
    if stops != [] {
      var before := AfterRuns(d, stops[..|stops| - 1]);
      RerunsConverge(d, stops[..|stops| - 1]);
      CrashConverges(before);
      ShardTwice(before);
      forall key | IsGrantKey(key) && (key in before.grants || key in before.state)
        ensures
          var e := AfterRuns(d, stops);
          (key in e.grants || key in e.state) && Lookup(e, key) == Lookup(before, key)
      {
        NoGrantIsEverMissing(before, key);
      }
    }
  }

  lemma {:induction false} OtherKeysStay(d: Documents, key: string)
    requires !IsGrantKey(key)
    ensures key in Shard(d).state <==> key in d.state
    ensures key in d.state ==> Shard(d).state[key] == d.state[key]
    ensures key in Shard(d).grants <==> key in d.grants
    ensures key in d.grants ==> Shard(d).grants[key] == d.grants[key]
  {
  }

  /** What a grants file held, readable or not. */
  function Held(grants: GrantsFile): (doc: Document) {
    match grants
    case Absent => map[]
    case Damaged(held) => held
    case Grants(doc) => doc
  }

  /** `grants.json` after a step that goes through. */
  function GrantsAfter(state: Document, grants: GrantsFile): (after: GrantsFile) {
    if NeedsSharding(state) then Grants(ShardedGrants(state, Existing(grants))) else grants
  }

  /** Every grant the file held is still in it with its value. */
  predicate Survive(before: GrantsFile, after: GrantsFile) {
    forall key :: key in Held(before) ==> key in Held(after) && Held(after)[key] == Held(before)[key]
  }

  /**
    A damaged grants file is replaced without being read. What it held survives exactly
    when there is nothing to migrate, the file was not damaged, or the state file has
    every held grant with the same value.
   */
  lemma {:induction false} GrantsSurviveIff(state: Document, grants: GrantsFile)
    ensures Survive(grants, GrantsAfter(state, grants))
            <==> || !NeedsSharding(state)
                 || !grants.Damaged?
                 || forall key :: key in grants.held ==>
                      IsGrantKey(key) && key in state && state[key] == grants.held[key]
  {
    if NeedsSharding(state) && grants.Damaged? {
      var after := ShardedGrants(state, map[]);
      assert forall key :: key in after <==> key in state && IsGrantKey(key);
      assert forall key :: key in after ==> after[key] == state[key];
      assert Held(GrantsAfter(state, grants)) == after;
    }
  }

  /** What a caller can see beforehand, whether the file parses and whether the state has
      a grant to move, decides whether survival is certain whatever the file held. */
  lemma {:induction false} SurvivalIsCertainIff(state: Document)
    ensures forall grants: GrantsFile :: !grants.Damaged? ==> Survive(grants, GrantsAfter(state, grants))
    ensures (forall held: Document :: Survive(Damaged(held), GrantsAfter(state, Damaged(held))))
            <==> !NeedsSharding(state)
  {
    forall grants: GrantsFile | !grants.Damaged? ensures Survive(grants, GrantsAfter(state, grants)) {
      GrantsSurviveIff(state, grants);
    }
    if NeedsSharding(state) {
      var held: Document := map["" := Null];
      GrantsSurviveIff(state, Damaged(held));
      assert "" in held && !IsGrantKey("");
    }
  }

  lemma {:induction false} DamagedGrantsCanBeLost()
    ensures
      var state: Document := map["browser_approvals" := Array([])];
      var grants := Damaged(map["computer_approvals" := Array([])]);
      NeedsSharding(state) && "computer_approvals" !in ShardedGrants(state, Existing(grants))
  {
    assert GRANT_KEYS[2] == "browser_approvals";
    assert IsGrantKey("browser_approvals");
  }
}
