/**
  Replacing an installed connector by a staged one: the old install is renamed aside,
  the staged directory renamed into place, and the old one restored if that fails.
 */
module SwapInstall {
  import opened Bytes
  import opened Wrappers

  /** A file or a directory tree. */
  datatype Node = File(content: seq<byte>) | Dir(entries: map<string, Node>)

  /** What a recursive removal does: everything goes, or it stops and leaves this. */
  datatype Removal = Removed | Stopped(leftover: Option<Node>)

  /** Copying a file works, or fails leaving this much of it behind. */
  datatype Copying = Copied | CopyFailed(partial: Option<seq<byte>>)

  /** How each system call of one swap turns out, and after how many of them the process
      dies. A rename the file system does not allow fails whatever is said here. */
  datatype Fate = Fate(
    copy: Copying, clear: Removal, aside: bool, into: bool, restore: bool,
    dropBackup: Removal, dropStaging: Removal, crashAfter: nat)

  datatype Outcome = Done | Failed | Crashed

  const CONFIG: string := "config.json"

  predicate HasConfig(node: Node) {
    node.Dir? && CONFIG in node.entries && node.entries[CONFIG].File?
  }

  /** The staged tree with the old install's local config over the bundle's. */
  function WithOldConfig(staged: Node, old_: Option<Node>): (node: Node) {
    if old_.Some? && HasConfig(old_.value) && staged.Dir?
    then Dir(staged.entries[CONFIG := old_.value.entries[CONFIG]])
    else staged
  }

  function At(nodes: map<string, Node>, path: string): (n: Option<Node>) {
    if path in nodes then Some(nodes[path]) else None
  }

  class FileSystem {
    var nodes: map<string, Node>
    /** System calls left before the process dies. */
    var life: nat

    constructor (nodes: map<string, Node>, life: nat)
      ensures this.nodes == nodes && this.life == life
    {
      this.nodes := nodes;
      this.life := life;
    }

    /** Rename replaces only an absent target, an empty directory, or a file by a file. */
    predicate Allowed(source: string, target: string)
      reads this
    {
      && source in nodes
      && (target in nodes ==>
            || (nodes[source].File? && nodes[target].File?)
            || (nodes[source].Dir? && nodes[target] == Dir(map[])))
    }

    /** All or nothing. */
    method Rename(source: string, target: string, works: bool) returns (ok: bool)
      requires source != target
      modifies this
      ensures life == SpendOne(old(life))
      ensures ok == (old(life) > 0 && works && old(Allowed(source, target)))
      ensures ok ==> nodes == (old(nodes) - {source})[target := old(nodes)[source]]
      ensures !ok ==> nodes == old(nodes)
    {
      ok := life > 0 && works && Allowed(source, target);
      if ok {
        nodes := (nodes - {source})[target := nodes[source]];
      }
      life := SpendOne(life);
    }

    /** `remove_dir_all`, whose result the swap ignores. */
    method RemoveTree(path: string, fate: Removal)
      modifies this
      ensures life == SpendOne(old(life))
      ensures forall p :: p != path ==> At(nodes, p) == At(old(nodes), p)
      ensures old(life) == 0 || path !in old(nodes) ==> nodes == old(nodes)
      ensures old(life) > 0 && fate.Removed? ==> path !in nodes
    {
      if life > 0 && path in nodes {
        nodes := if fate.Removed? || fate.leftover.None? then nodes - {path}
                 else nodes[path := fate.leftover.value];
      }
      life := SpendOne(life);
    }

    /** Copy `from/config.json` over `to/config.json`. */
    method CopyConfig(from: string, to: string, fate: Copying) returns (ok: bool)
      requires from != to && from in nodes && HasConfig(nodes[from])
      modifies this
      ensures life == SpendOne(old(life))
      ensures forall p :: p != to ==> At(nodes, p) == At(old(nodes), p)
      ensures ok ==> old(life) > 0 && to in old(nodes) && old(nodes)[to].Dir?
      ensures old(life) > 0 && fate.Copied? && old(Installable(nodes, from, to)) ==> ok
      ensures ok ==> to in nodes && nodes[to] == WithOldConfig(old(nodes)[to], Some(old(nodes)[from]))
    {
      ok := false;
      if life > 0 && to in nodes && nodes[to].Dir?
         && (CONFIG !in nodes[to].entries || nodes[to].entries[CONFIG].File?) {
        match fate
        case Copied =>
          nodes := nodes[to := Dir(nodes[to].entries[CONFIG := nodes[from].entries[CONFIG]])];
          ok := true;
        case CopyFailed(partial) =>
          if partial.Some? {
            nodes := nodes[to := Dir(nodes[to].entries[CONFIG := File(partial.value)])];
          }
      }
      life := SpendOne(life);
    }
  }

  function SpendOne(life: nat): (left: nat) {
    if life == 0 then 0 else life - 1
  }

  // ------------------------------------------------------------------
  // swap_install
  // ------------------------------------------------------------------

  /** The old install survives whole, at its place or beside it, or the new one is in
      place. */
  predicate InstallSafe(now: map<string, Node>, dest: string, backup: string, previous: Node, next: Option<Node>) {
    || At(now, dest) == Some(previous)
    || At(now, backup) == Some(previous)
    || (next.Some? && At(now, dest) == next)
  }

  /** The staged tree, except that a local config file of the install it replaces stays as it
      was. */
  ghost predicate Installs(installed: Node, staged: Node, previous: Option<Node>) {
    if previous.Some? && previous.value.Dir? && "config.json" in previous.value.entries
       && previous.value.entries["config.json"].File?
    then
      && installed.Dir? && staged.Dir?
      && "config.json" in installed.entries
      && installed.entries["config.json"] == previous.value.entries["config.json"]
      && installed.entries - {"config.json"} == staged.entries - {"config.json"}
    else installed == staged
  }

  /**
    For every way the system calls can turn out and every point at which the process can
    die: an old install is never lost; success puts the staged tree with the old local
    config in place; an error leaves the destination as it was, unless restoring the
    backup itself failed; and no other path is touched.
   */
  method SwapInstall(fs: FileSystem, dest: string, staging: string, backup: string, fate: Fate)
    returns (outcome: Outcome)
    requires dest != staging && dest != backup && staging != backup
    requires fs.life == fate.crashAfter
    modifies fs
    ensures dest in old(fs.nodes) ==>
      InstallSafe(fs.nodes, dest, backup, old(fs.nodes)[dest], old(NewTree(fs.nodes, dest, staging)))
    ensures dest !in old(fs.nodes) ==>
      At(fs.nodes, dest) == None || At(fs.nodes, dest) == old(At(fs.nodes, staging))
    ensures outcome.Done? ==>
      staging in old(fs.nodes) && At(fs.nodes, dest) == old(NewTree(fs.nodes, dest, staging))
    ensures outcome.Done? ==>
      dest in fs.nodes && Installs(fs.nodes[dest], old(fs.nodes)[staging], old(At(fs.nodes, dest)))
    ensures outcome.Done? ==> At(fs.nodes, staging).None?
    ensures outcome.Done? && dest in old(fs.nodes) && fate.dropBackup.Removed? ==>
      At(fs.nodes, backup).None?
    ensures Smooth(fate) && old(Installable(fs.nodes, dest, staging)) ==> outcome.Done?
    ensures outcome.Failed? ==>
      || At(fs.nodes, dest) == old(At(fs.nodes, dest))
      || (!fate.restore && At(fs.nodes, backup) == old(At(fs.nodes, dest)))
    ensures forall p :: p != dest && p != staging && p != backup ==>
      At(fs.nodes, p) == old(At(fs.nodes, p))
  {
    if fs.life == 0 {
      return Crashed;
    }
    ghost var next := NewTree(fs.nodes, dest, staging);
    if dest in fs.nodes && HasConfig(fs.nodes[dest]) {
      var copied := fs.CopyConfig(dest, staging, fate.copy);
      if fs.life == 0 { return Crashed; }
      if !copied { return Failed; }
    }
    if dest !in fs.nodes {
      var moved := fs.Rename(staging, dest, fate.into);
      if fs.life == 0 { return Crashed; }
      return if moved then Done else Failed;
    }
    assert At(fs.nodes, staging) == next;
    outcome := ReplaceExisting(fs, dest, staging, backup, fate);
  }

  /** The second half: an install is there, and what is staged goes in its place. */
  method ReplaceExisting(fs: FileSystem, dest: string, staging: string, backup: string, fate: Fate)
    returns (outcome: Outcome)
    requires dest != staging && dest != backup && staging != backup
    requires dest in fs.nodes && fs.life > 0
    modifies fs
    ensures InstallSafe(fs.nodes, dest, backup, old(fs.nodes)[dest], old(At(fs.nodes, staging)))
    ensures outcome.Done? ==>
      staging in old(fs.nodes) && At(fs.nodes, dest) == old(At(fs.nodes, staging))
      && At(fs.nodes, staging).None?
      && (fate.dropBackup.Removed? ==> At(fs.nodes, backup).None?)
    ensures (old(fs.life) > 5 && staging in old(fs.nodes)
             && fate.clear.Removed? && fate.aside && fate.into) ==> outcome.Done?
    ensures outcome.Failed? ==>
      || At(fs.nodes, dest) == old(At(fs.nodes, dest))
      || (!fate.restore && At(fs.nodes, backup) == old(At(fs.nodes, dest)))
    ensures forall p :: p != dest && p != staging && p != backup ==>
      At(fs.nodes, p) == old(At(fs.nodes, p))
  {
    fs.RemoveTree(backup, fate.clear);
    assert At(fs.nodes, staging) == old(At(fs.nodes, staging));
    assert At(fs.nodes, dest) == old(At(fs.nodes, dest));
    if fs.life == 0 { return Crashed; }
    var aside := fs.Rename(dest, backup, fate.aside);
    assert aside ==> At(fs.nodes, backup) == old(At(fs.nodes, dest)) && dest !in fs.nodes;
    if fs.life == 0 { return Crashed; }
    if !aside { return Failed; }
    var installed := fs.Rename(staging, dest, fate.into);
    assert installed ==> At(fs.nodes, dest) == old(At(fs.nodes, staging)) && staging !in fs.nodes;
    if fs.life == 0 { return Crashed; }
    if !installed {
      var restored := fs.Rename(backup, dest, fate.restore);
      assert restored ==> At(fs.nodes, dest) == old(At(fs.nodes, dest));
      if fs.life == 0 { return Crashed; }
      return Failed;
    }
    assert At(fs.nodes, staging).None?;
    fs.RemoveTree(backup, fate.dropBackup);
    assert At(fs.nodes, staging).None?;
    if fs.life == 0 { return Crashed; }
    fs.RemoveTree(staging, fate.dropStaging);
    if fs.life == 0 { return Crashed; }
    return Done;
  }

  /** Nothing goes wrong on the way to having the new tree in place. */
  predicate Smooth(fate: Fate) {
    fate.copy.Copied? && fate.clear.Removed? && fate.aside && fate.into && fate.crashAfter > 6
  }

  /** Something is staged, and the old local config fits into it. */
  predicate Installable(nodes: map<string, Node>, dest: string, staging: string) {
    && staging in nodes
    && (dest in nodes && HasConfig(nodes[dest]) ==>
          nodes[staging].Dir? && (CONFIG in nodes[staging].entries ==> HasConfig(nodes[staging])))
  }

  /** What a successful swap installs, if anything is staged. */
  function NewTree(nodes: map<string, Node>, dest: string, staging: string): (n: Option<Node>) {
    if staging in nodes then Some(WithOldConfig(nodes[staging], At(nodes, dest))) else None
  }
}
