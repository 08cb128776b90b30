/**
  Quarantining legacy connector grants: bare strings leave the approval lists and are
  kept under a separate key, so that nothing is approved by guesswork and nothing is
  forgotten.
 */
module GrantQuarantine {
  import opened Json

  const APPROVALS: string := "mcp_connector_approvals"
  const QUARANTINED: string := "mcp_connector_approvals_quarantined"

  /** The edited document and how many grants were newly quarantined, or an error that
      leaves the file alone. */
  datatype Edit = Edited(root: Document, count: nat) | Refused

  // ------------------------------------------------------------------
  // Lists.
  // ------------------------------------------------------------------

  /** The bare strings of a list, in order. */
  function Bare(items: seq<Json>): (tools: seq<string>) {
    if items == [] then []
    else Bare(items[..|items| - 1])
         + if items[|items| - 1].String? then [items[|items| - 1].s] else []
  }

  /** Everything else, in order. */
  function Kept(items: seq<Json>): (rest: seq<Json>) {
    if items == [] then []
    else Kept(items[..|items| - 1])
         + if items[|items| - 1].String? then [] else [items[|items| - 1]]
  }

  /** Append each tool that is not listed yet. */
  function Enlist(list: seq<Json>, tools: seq<string>): (longer: seq<Json>) {
    if tools == [] then list
    else
      var so := Enlist(list, tools[..|tools| - 1]);
      var v := String(tools[|tools| - 1]);
      if v in so then so else so + [v]
  }

  // ------------------------------------------------------------------
  // The edit, on values.
  // ------------------------------------------------------------------

  function OrEmptyObject(root: Document, key: string): (v: Json) {
    if key in root then root[key] else Object(map[])
  }

  predicate HasBare(list: Json) {
    list.Array? && Bare(list.items) != []
  }

  function Movers(approvals: Document): (callers: set<string>) {
    set caller | caller in approvals && HasBare(approvals[caller])
  }

  function CleanedList(list: Json): (l: Json) {
    if list.Array? then Array(Kept(list.items)) else list
  }

  function CleanedApprovals(approvals: Document): (doc: Document) {
    map caller | caller in approvals :: CleanedList(approvals[caller])
  }

  /** One caller's quarantine entry after its bare strings arrive; an entry that is not
      a list is left as it is. */
  function QuarantineEntry(quarantined: Document, caller: string, tools: seq<string>): (entry: Json) {
    var entry := if caller in quarantined then quarantined[caller] else Array([]);
    if entry.Array? then Array(Enlist(entry.items, tools)) else entry
  }

  /** The quarantine after the callers in `callers` have been dealt with. */
  function Filled(quarantined: Document, approvals: Document, callers: set<string>): (doc: Document)
    requires callers <= Movers(approvals)
  {
    map caller | caller in quarantined.Keys + callers ::
      if caller in callers
      then QuarantineEntry(quarantined, caller, Bare(approvals[caller].items))
      else quarantined[caller]
  }

  /** The tools a caller's quarantine list gains; an entry that is not a list gains none. */
  function NewTools(quarantined: Document, caller: string, tools: seq<string>): (gained: set<string>) {
    if caller !in quarantined then Additions([], tools)
    else if quarantined[caller].Array? then Additions(quarantined[caller].items, tools)
    else {}
  }

  function Additions(list: seq<Json>, tools: seq<string>): (gained: set<string>) {
    set tool | tool in tools && String(tool) !in list
  }

  /** The (caller, tool) pairs that become quarantined. */
  function NewlyQuarantined(quarantined: Document, approvals: Document, callers: set<string>)
    : (pairs: set<(string, string)>)
    requires callers <= Movers(approvals)
  {
    set caller, tool |
      caller in callers && tool in NewTools(quarantined, caller, Bare(approvals[caller].items))
      :: (caller, tool)
  }

  function Quarantine(root: Document): (e: Edit) {
    var approvals := OrEmptyObject(root, APPROVALS);
    var seeded := root[APPROVALS := approvals];
    if !approvals.Object? || Movers(approvals.fields) == {} then Edited(seeded, 0)
    else
      var quarantined := OrEmptyObject(seeded, QUARANTINED);
      if !quarantined.Object? then Refused
      else
        Edited(seeded[APPROVALS := Object(CleanedApprovals(approvals.fields))]
                     [QUARANTINED := Object(Filled(quarantined.fields, approvals.fields, Movers(approvals.fields)))],
               |NewlyQuarantined(quarantined.fields, approvals.fields, Movers(approvals.fields))|)
  }

  // ------------------------------------------------------------------
  // quarantine_grants_at
  // ------------------------------------------------------------------

  /** Append the tools not yet in the list and count them. */
  method EnlistAll(list: seq<Json>, tools: seq<string>) returns (longer: seq<Json>, added: nat)
    ensures longer == Enlist(list, tools)
    ensures added == |Additions(list, tools)|
  {
    longer, added := list, 0;
    for k := 0 to |tools|
      invariant longer == Enlist(list, tools[..k])
      invariant added == |Additions(list, tools[..k])|
    {
      assert tools[..k + 1][..k] == tools[..k];
      EnlistHolds(list, tools[..k], String(tools[k]));
      AdditionsStep(list, tools, k);
      var v := String(tools[k]);
      if v !in longer {
        longer := longer + [v];
        added := added + 1;
      }
    }
    assert tools[..|tools|] == tools;
  }

  lemma {:induction false} AdditionsStep(list: seq<Json>, tools: seq<string>, k: nat)
    requires k < |tools|
    ensures
      var before, after := Additions(list, tools[..k]), Additions(list, tools[..k + 1]);
      if String(tools[k]) in list || tools[k] in tools[..k] then after == before
      else |after| == |before| + 1
  {
    var before, after := Additions(list, tools[..k]), Additions(list, tools[..k + 1]);
    assert forall x :: x in tools[..k + 1] <==> x in tools[..k] || x == tools[k];
    if String(tools[k]) !in list {
      assert after == before + {tools[k]};
    } else {
      assert after == before;
    }
  }

  /** A longer list holds what the list held and the enlisted tools, and nothing else. */
  lemma {:induction false} EnlistHolds(list: seq<Json>, tools: seq<string>, v: Json)
    ensures v in Enlist(list, tools) <==> v in list || (v.String? && v.s in tools)
    decreases |tools|
  {
    if tools != [] {
      var init, last := tools[..|tools| - 1], tools[|tools| - 1];
      EnlistHolds(list, init, v);
      EnlistHolds(list, init, String(last));
      assert forall x :: x in tools <==> x in init || x == last;
    }
  }

  lemma {:induction false} NoBareKeepsAll(items: seq<Json>)
    requires Bare(items) == []
    ensures Kept(items) == items
    decreases |items|
  {
    if items != [] {
      NoBareKeepsAll(items[..|items| - 1]);
    }
  }

  type Move = (string, seq<string>)

  function Names(moves: seq<Move>): (callers: set<string>) {
    if moves == [] then {} else Names(moves[..|moves| - 1]) + {moves[|moves| - 1].0}
  }

  /** Each move names a mover with its bare strings, and no caller is named twice. */
  predicate ValidMoves(moves: seq<Move>, approvals: Document) {
    moves == []
    || (var last := moves[|moves| - 1];
        && ValidMoves(moves[..|moves| - 1], approvals)
        && last.0 in Movers(approvals)
        && last.0 !in Names(moves[..|moves| - 1])
        && last.1 == Bare(approvals[last.0].items))
  }

  lemma {:induction false} ValidMovesPrefix(moves: seq<Move>, approvals: Document, k: nat)
    requires ValidMoves(moves, approvals) && k <= |moves|
    ensures ValidMoves(moves[..k], approvals) && Names(moves[..k]) <= Movers(approvals)
    decreases |moves|
  {
    if k < |moves| {
      ValidMovesPrefix(moves[..|moves| - 1], approvals, k);
      assert moves[..|moves| - 1][..k] == moves[..k];
    } else {
      assert moves[..k] == moves;
      if moves != [] {
        ValidMovesPrefix(moves[..|moves| - 1], approvals, |moves| - 1);
        assert moves[..|moves| - 1][..|moves| - 1] == moves[..|moves| - 1];
      }
    }
  }

  lemma {:induction false} AddMove(moves: seq<Move>, approvals: Document, caller: string)
    requires ValidMoves(moves, approvals)
    requires caller in Movers(approvals) - Names(moves)
    ensures
      var longer := moves + [(caller, Bare(approvals[caller].items))];
      ValidMoves(longer, approvals) && Names(longer) == Names(moves) + {caller}
  {
    var longer := moves + [(caller, Bare(approvals[caller].items))];
    assert longer[..|longer| - 1] == moves;
  }

  /** Collect the movers and clean their lists. */
  method CollectMoves(approvals: Document) returns (cleaned: Document, moves: seq<Move>)
    ensures cleaned == CleanedApprovals(approvals)
    ensures ValidMoves(moves, approvals) && Names(moves) == Movers(approvals)
  {
    cleaned, moves := approvals, [];
    var left := approvals.Keys;
    hide Bare, Kept;
    while left != {}
      invariant left <= approvals.Keys && cleaned.Keys == approvals.Keys
      invariant forall caller :: caller in approvals ==>
        cleaned[caller] == if caller in left then approvals[caller] else CleanedList(approvals[caller])
      invariant ValidMoves(moves, approvals) && Names(moves) == Movers(approvals) - left
    {
      hide Names, ValidMoves;
      var caller :| caller in left;
      var list := approvals[caller];
      if list.Array? {
        var bare := Bare(list.items);
        if bare != [] {
          AddMove(moves, approvals, caller);
          moves := moves + [(caller, bare)];
          cleaned := cleaned[caller := Array(Kept(list.items))];
        } else {
          NoBareKeepsAll(list.items);
        }
      }
      left := left - {caller};
    }
    assert cleaned == CleanedApprovals(approvals);
  }

  method QuarantineGrants(root: Document) returns (e: Edit)
    ensures e == Quarantine(root)
  {
    var approvals := OrEmptyObject(root, APPROVALS);
    var edited := root[APPROVALS := approvals];
    if !approvals.Object? {
      return Edited(edited, 0);
    }
    var cleaned, moves := CollectMoves(approvals.fields);
    if moves == [] {
      return Edited(edited, 0);
    }
    assert moves[|moves| - 1].0 in Movers(approvals.fields);
    edited := edited[APPROVALS := Object(cleaned)];
    var quarantine := OrEmptyObject(edited, QUARANTINED);
    assert quarantine == OrEmptyObject(root[APPROVALS := approvals], QUARANTINED);
    if !quarantine.Object? {
      return Refused;
    }
    var filled, count := FillQuarantine(quarantine.fields, approvals.fields, moves);
    e := Edited(edited[QUARANTINED := Object(filled)], count);
  }

  method FillQuarantine(quarantined: Document, approvals: Document, moves: seq<Move>)
    returns (filled: Document, count: nat)
    requires ValidMoves(moves, approvals) && Names(moves) == Movers(approvals)
    ensures filled == Filled(quarantined, approvals, Movers(approvals))
    ensures count == |NewlyQuarantined(quarantined, approvals, Movers(approvals))|
  {
    hide *;
    filled, count := quarantined, 0;
    FillEnds(quarantined, approvals, moves);
    for i := 0 to |moves|
      invariant filled == FilledBy(quarantined, approvals, moves, i)
      invariant count == CountBy(quarantined, approvals, moves, i)
    {
      var (caller, bare) := moves[i];
      NextFill(quarantined, approvals, moves, i);
      var added;
      filled, added := QuarantineOne(quarantined, filled, caller, bare);
      count := count + added;
    }
  }

  /** The quarantine after the first `i` moves. */
  ghost function FilledBy(quarantined: Document, approvals: Document, moves: seq<Move>, i: nat): Document
    requires ValidMoves(moves, approvals) && i <= |moves|
  {
    ValidMovesPrefix(moves, approvals, i);
    Filled(quarantined, approvals, Names(moves[..i]))
  }

  ghost function CountBy(quarantined: Document, approvals: Document, moves: seq<Move>, i: nat): nat
    requires ValidMoves(moves, approvals) && i <= |moves|
  {
    ValidMovesPrefix(moves, approvals, i);
    |NewlyQuarantined(quarantined, approvals, Names(moves[..i]))|
  }

  lemma {:induction false} FillEnds(quarantined: Document, approvals: Document, moves: seq<Move>)
    requires ValidMoves(moves, approvals) && Names(moves) == Movers(approvals)
    ensures FilledBy(quarantined, approvals, moves, 0) == quarantined
    ensures CountBy(quarantined, approvals, moves, 0) == 0
    ensures FilledBy(quarantined, approvals, moves, |moves|) == Filled(quarantined, approvals, Movers(approvals))
    ensures CountBy(quarantined, approvals, moves, |moves|)
            == |NewlyQuarantined(quarantined, approvals, Movers(approvals))|
  {
    assert moves[..|moves|] == moves;
    FillNone(quarantined, approvals);
    hide Filled, NewlyQuarantined;
  }

  lemma {:induction false} NextFill(quarantined: Document, approvals: Document, moves: seq<Move>, i: nat)
    requires ValidMoves(moves, approvals) && i < |moves|
    ensures
      var (caller, bare) := moves[i];
      var filled := FilledBy(quarantined, approvals, moves, i);
      && (caller in filled <==> caller in quarantined)
      && (caller in filled ==> filled[caller] == quarantined[caller])
      && FilledBy(quarantined, approvals, moves, i + 1)
         == filled[caller := QuarantineEntry(quarantined, caller, bare)]
      && CountBy(quarantined, approvals, moves, i + 1)
         == CountBy(quarantined, approvals, moves, i) + |NewTools(quarantined, caller, bare)|
  {
    hide Filled, NewlyQuarantined, Names, ValidMoves, Movers;
    ValidMovesPrefix(moves, approvals, i);
    NextMove(moves, approvals, i);
    var caller, done := moves[i].0, Names(moves[..i]);
    FillOne(quarantined, approvals, done, caller);
    CountOne(quarantined, approvals, done, caller);
    FilledAt(quarantined, approvals, done, caller);
  }

  /** Quarantine one caller's bare strings: `or_insert_with` an empty list, then enlist. */
  method QuarantineOne(ghost quarantined: Document, filled: Document, caller: string, bare: seq<string>)
    returns (longer: Document, added: nat)
    requires caller in filled <==> caller in quarantined
    requires caller in filled ==> filled[caller] == quarantined[caller]
    ensures longer == filled[caller := QuarantineEntry(quarantined, caller, bare)]
    ensures added == |NewTools(quarantined, caller, bare)|
  {
    hide Enlist, Additions;
    var entry := if caller in filled then filled[caller] else Array([]);
    added := 0;
    if entry.Array? {
      var items;
      items, added := EnlistAll(entry.items, bare);
      entry := Array(items);
    }
    longer := filled[caller := entry];
  }

  lemma {:induction false} NextMove(moves: seq<Move>, approvals: Document, i: nat)
    requires ValidMoves(moves, approvals) && i < |moves|
    ensures moves[i].0 in Movers(approvals) - Names(moves[..i])
    ensures moves[i].1 == Bare(approvals[moves[i].0].items)
    ensures Names(moves[..i + 1]) == Names(moves[..i]) + {moves[i].0}
  {
    ValidMovesPrefix(moves, approvals, i + 1);
    assert moves[..i + 1][..i] == moves[..i];
  }

  lemma {:induction false} FillNone(quarantined: Document, approvals: Document)
    ensures Filled(quarantined, approvals, {}) == quarantined
    ensures NewlyQuarantined(quarantined, approvals, {}) == {}
  {
  }

  lemma {:induction false} FilledAt(quarantined: Document, approvals: Document, done: set<string>, caller: string)
    requires done <= Movers(approvals) && caller !in done
    ensures caller in Filled(quarantined, approvals, done) <==> caller in quarantined
    ensures caller in quarantined ==> Filled(quarantined, approvals, done)[caller] == quarantined[caller]
  {
  }

  lemma {:induction false} FillOne(quarantined: Document, approvals: Document, done: set<string>, caller: string)
    requires done <= Movers(approvals) && caller in Movers(approvals) - done
    ensures Filled(quarantined, approvals, done + {caller})
            == Filled(quarantined, approvals, done)
               [caller := QuarantineEntry(quarantined, caller, Bare(approvals[caller].items))]
  {
    hide Bare, Enlist, QuarantineEntry;
    var entry := QuarantineEntry(quarantined, caller, Bare(approvals[caller].items));
    assert Filled(quarantined, approvals, done + {caller})
        == Filled(quarantined, approvals, done)[caller := entry];
  }

  lemma {:induction false} CountOne(quarantined: Document, approvals: Document, done: set<string>, caller: string)
    requires done <= Movers(approvals) && caller in Movers(approvals) - done
    ensures |NewlyQuarantined(quarantined, approvals, done + {caller})|
            == |NewlyQuarantined(quarantined, approvals, done)|
               + |NewTools(quarantined, caller, Bare(approvals[caller].items))|
  {
    hide Bare, NewTools;
    var gained := NewTools(quarantined, caller, Bare(approvals[caller].items));
    var pairs := set tool | tool in gained :: (caller, tool);
    var before := NewlyQuarantined(quarantined, approvals, done);
    assert NewlyQuarantined(quarantined, approvals, done + {caller}) == before + pairs;
    assert before !! pairs;
    PairsCount(caller, gained);
  }

  lemma {:induction false} PairsCount(caller: string, tools: set<string>)
    ensures |set tool | tool in tools :: (caller, tool)| == |tools|
  {
    var pairs := set tool | tool in tools :: (caller, tool);
    if tools != {} {
      var t :| t in tools;
      PairsCount(caller, tools - {t});
      assert pairs == (set tool | tool in tools - {t} :: (caller, tool)) + {(caller, t)};
    }
  }

  // ------------------------------------------------------------------
  // What the edit means.
  // ------------------------------------------------------------------

  /** The lists under a key; a key that is absent or not an object has none. */
  function Lists(root: Document, key: string): (lists: Document) {
    if key in root && root[key].Object? then root[key].fields else map[]
  }

  /** The (caller, tool) pairs listed as bare strings. */
  function Strings(lists: Document): (pairs: set<(string, string)>) {
    set caller, item |
      caller in lists && lists[caller].Array? && item in lists[caller].items && item.String?
      :: (caller, item.s)
  }

  function Granted(root: Document): (pairs: set<(string, string)>) {
    Strings(Lists(root, APPROVALS))
  }

  function Held(root: Document): (pairs: set<(string, string)>) {
    Strings(Lists(root, QUARANTINED))
  }

  /** A caller's quarantine entry takes strings: it is a list, or it is not there yet. */
  predicate Receives(root: Document, caller: string) {
    caller in Lists(root, QUARANTINED) ==> Lists(root, QUARANTINED)[caller].Array?
  }

  lemma {:induction false} StringsHold(lists: Document, caller: string, tool: string)
    ensures (caller, tool) in Strings(lists)
            <==> caller in lists && lists[caller].Array? && String(tool) in lists[caller].items
  {
    if caller in lists && lists[caller].Array? && String(tool) in lists[caller].items {
      var item := String(tool);
      assert item in lists[caller].items && item.String?;
    }
  }

  lemma {:induction false} BareHolds(items: seq<Json>, tool: string)
    ensures tool in Bare(items) <==> String(tool) in items
    decreases |items|
  {
    if items != [] {
      var init, last := items[..|items| - 1], items[|items| - 1];
      BareHolds(init, tool);
      assert forall v :: v in items <==> v in init || v == last;
    }
  }

  lemma {:induction false} BareExists(items: seq<Json>)
    ensures Bare(items) == [] <==> forall v :: v in items ==> !v.String?
  {
    if Bare(items) != [] {
      BareHolds(items, Bare(items)[0]);
    }
    forall v | v in items && v.String? ensures Bare(items) != [] {
      BareHolds(items, v.s);
    }
  }

  /** The positions of the entries that are no strings, in order. */
  ghost predicate AreOthers(items: seq<Json>, at: seq<nat>) {
    && (forall j, k :: 0 <= j < k < |at| ==> at[j] < at[k])
    && (forall k :: 0 <= k < |at| ==> at[k] < |items| && !items[at[k]].String?)
    && forall n: nat :: n < |items| && !items[n].String? ==> n in at
  }

  /** What is kept is exactly the entries that are no strings, in their order. */
  lemma {:induction false} KeptInOrder(items: seq<Json>) returns (at: seq<nat>)
    ensures AreOthers(items, at)
    ensures |at| == |Kept(items)|
    ensures forall k :: 0 <= k < |at| ==> Kept(items)[k] == items[at[k]]
    decreases |items|
  {
    at := [];
    if items != [] {
      var init, last := items[..|items| - 1], |items| - 1;
      at := KeptInOrder(init);
      assert forall n: nat :: n < last ==> init[n] == items[n];
      if !items[last].String? {
        OthersSnoc(items, at);
        hide AreOthers;
        at := at + [last];
      }
    }
  }

  lemma {:induction false} OthersSnoc(items: seq<Json>, at: seq<nat>)
    requires items != [] && AreOthers(items[..|items| - 1], at) && !items[|items| - 1].String?
    ensures AreOthers(items, at + [|items| - 1])
  {
    var init, last := items[..|items| - 1], |items| - 1;
    assert forall n: nat :: n < last ==> init[n] == items[n];
    assert last in at + [last];
  }

  lemma {:induction false} KeptIsClean(items: seq<Json>)
    ensures forall v :: v in Kept(items) ==> !v.String?
    ensures Bare(Kept(items)) == []
  {
    var at := KeptInOrder(items);
    assert forall k :: 0 <= k < |Kept(items)| ==> Kept(items)[k] == items[at[k]];
    BareExists(Kept(items));
  }

  lemma {:induction false} EnlistGrows(list: seq<Json>, tools: seq<string>)
    ensures list <= Enlist(list, tools)
    decreases |tools|
  {
    if tools != [] {
      EnlistGrows(list, tools[..|tools| - 1]);
    }
  }

  /** The edit is refused exactly when there is something to move and nowhere to put it. */
  lemma {:induction false} RefusedIff(root: Document)
    ensures Quarantine(root).Refused?
            <==> Granted(root) != {} && QUARANTINED in root && !root[QUARANTINED].Object?
  {
    MoversAreGranted(Lists(root, APPROVALS));
  }

  lemma {:induction false} MoversAreGranted(lists: Document)
    ensures Movers(lists) == {} <==> Strings(lists) == {}
    ensures forall caller :: caller in Movers(lists) <==> exists pair :: pair in Strings(lists) && pair.0 == caller
  {
    forall caller
      ensures caller in Movers(lists) <==> exists pair :: pair in Strings(lists) && pair.0 == caller
    {
      if caller in Movers(lists) {
        var tool := Bare(lists[caller].items)[0];
        BareHolds(lists[caller].items, tool);
        StringsHold(lists, caller, tool);
        assert (caller, tool) in Strings(lists);
      }
      if pair :| pair in Strings(lists) && pair.0 == caller {
        StringsHold(lists, caller, pair.1);
        BareHolds(lists[caller].items, pair.1);
      }
    }
    if caller :| caller in Movers(lists) {
      assert exists pair :: pair in Strings(lists) && pair.0 == caller;
    }
    if pair :| pair in Strings(lists) {
      assert pair.0 in Movers(lists);
    }
  }

  /** No list keeps a bare string; nothing else in any list, and no other part of the
      document, changes. */
  lemma {:induction false} QuarantineClearsApprovals(root: Document)
    requires Quarantine(root).Edited?
    ensures Granted(Quarantine(root).root) == {}
    ensures Lists(Quarantine(root).root, APPROVALS) == CleanedApprovals(Lists(root, APPROVALS))
    ensures forall key :: key != APPROVALS && key != QUARANTINED ==>
      (key in Quarantine(root).root <==> key in root)
      && (key in root ==> Quarantine(root).root[key] == root[key])
  {
    var before := Lists(root, APPROVALS);
    if Movers(before) == {} {
      NothingToClean(before);
    }
    assert Lists(Quarantine(root).root, APPROVALS) == CleanedApprovals(before);
    CleanedHasNone(before);
  }

  lemma {:induction false} NothingToClean(lists: Document)
    requires Movers(lists) == {}
    ensures CleanedApprovals(lists) == lists
  {
    forall caller | caller in lists ensures CleanedList(lists[caller]) == lists[caller] {
      if lists[caller].Array? {
        assert caller !in Movers(lists);
        NoBareKeepsAll(lists[caller].items);
      }
    }
  }

  lemma {:induction false} CleanedHasNone(lists: Document)
    ensures Strings(CleanedApprovals(lists)) == {} && Movers(CleanedApprovals(lists)) == {}
  {
    forall caller | caller in lists && lists[caller].Array?
      ensures forall v :: v in Kept(lists[caller].items) ==> !v.String?
    {
      KeptIsClean(lists[caller].items);
    }
    MoversAreGranted(CleanedApprovals(lists));
  }

  lemma {:induction false} ListsAfter(root: Document)
    requires Quarantine(root).Edited?
    ensures
      var lists, quarantined := Lists(root, APPROVALS), Lists(root, QUARANTINED);
      && Lists(Quarantine(root).root, QUARANTINED) == Filled(quarantined, lists, Movers(lists))
      && Quarantine(root).count == |NewlyQuarantined(quarantined, lists, Movers(lists))|
  {
    var lists, quarantined := Lists(root, APPROVALS), Lists(root, QUARANTINED);
    hide Filled, NewlyQuarantined, CleanedApprovals, Movers;
    if Movers(lists) == {} {
      FillNone(quarantined, lists);
    }
    assert Movers(map[]) == {} by { NoMovers(); }
  }

  lemma {:induction false} NoMovers()
    ensures Movers(map[]) == {}
  {
  }

  /** Conservation: the quarantine gains exactly the removed grants of the callers whose
      entry can receive them, and the count is the number of pairs that are new to it. */
  lemma {:induction false} QuarantineConserves(root: Document)
    requires Quarantine(root).Edited?
    ensures forall pair ::
      pair in Held(Quarantine(root).root)
      <==> pair in Held(root) || (pair in Granted(root) && Receives(root, pair.0))
    ensures Quarantine(root).count == |Held(Quarantine(root).root) - Held(root)|
  {
    var lists, quarantined := Lists(root, APPROVALS), Lists(root, QUARANTINED);
    ListsAfter(root);
    forall caller: string, tool: string
      ensures (caller, tool) in Held(Quarantine(root).root)
              <==> (caller, tool) in Held(root) || ((caller, tool) in Granted(root) && Receives(root, caller))
      ensures (caller, tool) in NewlyQuarantined(quarantined, lists, Movers(lists))
              <==> (caller, tool) in Held(Quarantine(root).root) - Held(root)
    {
      FilledHolds(quarantined, lists, caller, tool);
    }
    assert NewlyQuarantined(quarantined, lists, Movers(lists)) == Held(Quarantine(root).root) - Held(root);
  }

  lemma {:induction false} FilledHolds(quarantined: Document, lists: Document, caller: string, tool: string)
    ensures
      (caller, tool) in Strings(Filled(quarantined, lists, Movers(lists)))
      <==> (caller, tool) in Strings(quarantined)
           || ((caller, tool) in Strings(lists) && (caller in quarantined ==> quarantined[caller].Array?))
    ensures
      (caller, tool) in NewlyQuarantined(quarantined, lists, Movers(lists))
      <==> (caller, tool) in Strings(Filled(quarantined, lists, Movers(lists))) - Strings(quarantined)
  {
    StringsHold(Filled(quarantined, lists, Movers(lists)), caller, tool);
    StringsHold(quarantined, caller, tool);
    StringsHold(lists, caller, tool);
    if caller in lists && lists[caller].Array? {
      BareHolds(lists[caller].items, tool);
      var entry := if caller in quarantined then quarantined[caller] else Array([]);
      if entry.Array? {
        EnlistHolds(entry.items, Bare(lists[caller].items), String(tool));
      }
    }
  }

  /** No grant is lost exactly when every caller that loses one has a quarantine entry
      that can receive it. */
  lemma {:induction false} GrantsKeptIff(root: Document)
    requires Quarantine(root).Edited?
    ensures Granted(root) <= Held(Quarantine(root).root)
            <==> forall caller :: caller in Movers(Lists(root, APPROVALS)) ==> Receives(root, caller)
  {
    var lists, quarantined := Lists(root, APPROVALS), Lists(root, QUARANTINED);
    QuarantineConserves(root);
    MoversAreGranted(lists);
    if Granted(root) <= Held(Quarantine(root).root) {
      forall caller | caller in Movers(lists) ensures Receives(root, caller) {
        var pair :| pair in Strings(lists) && pair.0 == caller;
        assert pair in Held(Quarantine(root).root);
        StringsHold(quarantined, caller, pair.1);
      }
    }
  }

  /** An agent with one grant whose quarantine entry is null. */
  const MALFORMED: Document :=
    map[APPROVALS := Object(map["agent" := Array([String("tool")])]),
        QUARANTINED := Object(map["agent" := Null])]

  lemma {:induction false} MalformedFacts()
    ensures Granted(MALFORMED) == {("agent", "tool")} && Held(MALFORMED) == {}
    ensures QUARANTINED in MALFORMED && MALFORMED[QUARANTINED].Object? && !Receives(MALFORMED, "agent")
  {
    var lists := map["agent" := Array([String("tool")])];
    assert Lists(MALFORMED, APPROVALS) == lists;
    assert String("tool") in lists["agent"].items;
    assert ("agent", "tool") in Granted(MALFORMED);
  }

  /** A quarantine entry that is not a list swallows the grant: it leaves the approvals
      and is held nowhere. */
  lemma {:induction false} GrantLostToMalformedEntry()
    ensures Granted(MALFORMED) == {("agent", "tool")}
    ensures Quarantine(MALFORMED).Edited?
    ensures Granted(Quarantine(MALFORMED).root) == {} && Held(Quarantine(MALFORMED).root) == {}
  {
    hide Quarantine, Granted, Held, Receives, Lists;
    MalformedFacts();
    RefusedIff(MALFORMED);
    QuarantineClearsApprovals(MALFORMED);
    QuarantineConserves(MALFORMED);
  }

  /** Existing quarantine entries are kept, in order, ahead of what arrives. */
  lemma {:induction false} QuarantineKeepsEntries(root: Document, caller: string)
    requires Quarantine(root).Edited? && caller in Lists(root, QUARANTINED)
    ensures caller in Lists(Quarantine(root).root, QUARANTINED)
    ensures
      var before, after := Lists(root, QUARANTINED)[caller], Lists(Quarantine(root).root, QUARANTINED)[caller];
      if before.Array? then after.Array? && before.items <= after.items else after == before
  {
    var lists := Lists(root, APPROVALS);
    ListsAfter(root);
    var before := Lists(root, QUARANTINED)[caller];
    if caller in Movers(lists) && before.Array? {
      EnlistGrows(before.items, Bare(lists[caller].items));
    }
  }

  /** A second application changes nothing and counts nothing. */
  lemma {:induction false} QuarantineTwice(root: Document)
    requires Quarantine(root).Edited?
    ensures Quarantine(Quarantine(root).root) == Edited(Quarantine(root).root, 0)
  {
    var after := Quarantine(root).root;
    QuarantineClearsApprovals(root);
    MoversAreGranted(Lists(after, APPROVALS));
    assert after[APPROVALS := after[APPROVALS]] == after;
  }
}
