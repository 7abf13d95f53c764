/** The installation of an unpacked dashboard bundle by renames. Every operation on the disk may fail,
    and the process may stop after any of them: the history holds every state of the disk, so a stop
    leaves behind one of its states. */
module BundleInstall {
  import opened Options

  datatype Tree = File | Dir(entries: map<string, Tree>)

  /** What is at the four paths involved; the last two are inside the staging directory. */
  datatype Disk = Disk(target: Option<Tree>, backup: Option<Tree>, extract: Option<Tree>, prepared: Option<Tree>)

  /** How the operations turn out, in the order they are tried. `unpacking` and `removing` lists hold
      the states a lengthy operation passes through. */
  datatype Faults = Faults(
    stagingFails: bool,
    unpacking: seq<Tree>, unpackFails: bool,
    listingFails: bool, prepareFails: bool,
    targetSeen: bool, backupFails: bool, placeFails: bool, restoreFails: bool,
    removingBackup: seq<Option<Tree>>, removingStaging: seq<(Option<Tree>, Option<Tree>)>)

  predicate HasIndex(t: Tree) {
    t.Dir? && "index.html" in t.entries && t.entries["index.html"].File?
  }

  // ---- Where the bundle is in the archive ----

  datatype Root = Whole | Inside(name: string)

  /** The bundle is the whole archive when its index is at the top, and otherwise the only directory. */
  predicate Leads(extract: Tree, root: Root) {
    match root
    case Whole => HasIndex(extract)
    case Inside(name) =>
      && extract.Dir? && !HasIndex(extract)
      && name in extract.entries && HasIndex(extract.entries[name])
      && forall other :: other in extract.entries && extract.entries[other].Dir? ==> other == name
  }

  function At(extract: Tree, root: Root): (t: Tree)
    requires Leads(extract, root)
    ensures HasIndex(t)
  {
    match root
    case Whole => extract
    case Inside(name) => extract.entries[name]
  }

  method LocateBundleRoot(extract: Tree) returns (r: Option<Root>)
    ensures r.Some? ==> Leads(extract, r.value)
    ensures r.None? ==> forall root :: !Leads(extract, root)
  {
    if HasIndex(extract) {
      return Some(Whole);
    }
    if extract.File? {
      return None;
    }
    var todo := extract.entries.Keys;
    var directories: seq<string> := [];
    while todo != {}
      invariant todo <= extract.entries.Keys
      invariant forall n :: n in extract.entries && n !in todo ==> (extract.entries[n].Dir? <==> n in directories)
      invariant forall n :: n in directories ==> n in extract.entries && n !in todo && extract.entries[n].Dir?
      invariant forall i, j :: 0 <= i < j < |directories| ==> directories[i] != directories[j]
    {
      var name :| name in todo;
      todo := todo - {name};
      if extract.entries[name].Dir? {
        directories := directories + [name];
      }
    }
    if |directories| == 1 {
      var candidate := directories[0];
      if HasIndex(extract.entries[candidate]) {
        return Some(Inside(candidate));
      }
      forall root ensures !Leads(extract, root) {
        assert candidate in directories;
      }
    } else if |directories| > 1 {
      assert directories[0] in directories && directories[1] in directories;
    }
    return None;
  }

  lemma BundleRootIsUnique(extract: Tree, a: Root, b: Root)
    requires Leads(extract, a) && Leads(extract, b)
    ensures a == b
  {
    if a.Inside? && b.Inside? {
      assert extract.entries[b.name].Dir?;
    }
  }

  /** `t` is the bundle of the archive. */
  ghost predicate IsBundleOf(t: Tree, extract: Tree) {
    exists root :: Leads(extract, root) && t == At(extract, root)
  }

  // ---- The installation ----

  /** What the archive unpacks to. */
  function Unpacked(f: Faults): Tree {
    if f.unpacking == [] then Dir(map[]) else f.unpacking[|f.unpacking| - 1]
  }

  /** The last of the states an operation passes through, or the one it found. */
  function Final<T>(found: T, states: seq<T>): T {
    if states == [] then found else states[|states| - 1]
  }

  /** Every step before the renames onto the target goes well, and the archive has a bundle. The
      directory is listed only when the index is not at its top. */
  ghost predicate ReachesTarget(f: Faults) {
    && !f.stagingFails && !f.unpackFails && !f.prepareFails
    && (exists root :: Leads(Unpacked(f), root))
    && (HasIndex(Unpacked(f)) || !f.listingFails)
  }

  /** A directory can be renamed to a path only if nothing, or an empty directory, is there. */
  predicate Free(target: Option<Tree>) {
    target.None? || target == Some(Dir(map[]))
  }

  /** The old bundle is where it was, or set aside complete with nothing in its place. */
  predicate OldIsSafe(old_: Option<Tree>, d: Disk) {
    d.target == old_ || (d.target.None? && d.backup == old_)
  }

  class Installer {
    var disk: Disk
    ghost var history: seq<Disk>

    constructor (target: Option<Tree>)
      ensures Valid() && disk == Disk(target, None, None, None) && history == [disk]
    {
      disk := Disk(target, None, None, None);
      history := [disk];
    }

    /** The history ends in the present. */
    ghost predicate Valid()
      reads this
    {
      history != [] && history[|history| - 1] == disk
    }

    /** The disk moves to another state. */
    method Move(next: Disk)
      modifies this
      ensures Valid()
      ensures disk == next && history == old(history) + [next]
    {
      disk := next;
      history := history + [next];
    }

    /** An archive that is being unpacked touches the extraction directory only. */
    method Unpack(states: seq<Tree>)
      requires Valid()
      modifies this
      ensures Valid()
      ensures disk == old(disk).(extract := if states == [] then old(disk).extract else Some(states[|states| - 1]))
      ensures old(history) <= history
      ensures forall i :: |old(history)| <= i < |history| ==>
                history[i].target == old(disk).target && history[i].backup == old(disk).backup
    {
      for i := 0 to |states|
        invariant Valid()
        invariant old(history) <= history
        invariant disk == old(disk).(extract := if i == 0 then old(disk).extract else Some(states[i - 1]))
        invariant forall i :: |old(history)| <= i < |history| ==>
                    history[i].target == old(disk).target && history[i].backup == old(disk).backup
      {
        Move(disk.(extract := Some(states[i])));
      }
    }

    /** `remove_dir_all` of the backup, finished or not. */
    method RemoveBackup(states: seq<Option<Tree>>)
      requires Valid()
      modifies this
      ensures Valid()
      ensures old(history) <= history
      ensures disk == old(disk).(backup := Final(old(disk).backup, states))
      ensures forall i :: |old(history)| <= i < |history| ==> history[i].target == old(disk).target
    {
      for i := 0 to |states|
        invariant Valid()
        invariant old(history) <= history
        invariant disk == old(disk).(backup := Final(old(disk).backup, states[..i]))
        invariant forall i :: |old(history)| <= i < |history| ==> history[i].target == old(disk).target
      {
        Move(disk.(backup := states[i]));
      }
      assert states[..|states|] == states;
    }

    /** `remove_dir_all` of the staging directory, finished or not. */
    method RemoveStaging(states: seq<(Option<Tree>, Option<Tree>)>)
      requires Valid()
      modifies this
      ensures Valid()
      ensures old(history) <= history
      ensures var left := Final((old(disk).extract, old(disk).prepared), states);
              disk == old(disk).(extract := left.0, prepared := left.1)
      ensures forall i :: |old(history)| <= i < |history| ==>
                history[i].target == old(disk).target && history[i].backup == old(disk).backup
    {
      for i := 0 to |states|
        invariant Valid()
        invariant old(history) <= history
        invariant var left := Final((old(disk).extract, old(disk).prepared), states[..i]);
                  disk == old(disk).(extract := left.0, prepared := left.1)
        invariant forall i :: |old(history)| <= i < |history| ==>
                    history[i].target == old(disk).target && history[i].backup == old(disk).backup
      {
        Move(disk.(extract := states[i].0, prepared := states[i].1));
      }
      assert states[..|states|] == states;
    }

    /** Preparing moves the bundle out of the extraction directory. */
    method Prepare(extract: Tree, root: Root)
      requires disk.extract == Some(extract) && Leads(extract, root)
      modifies this
      ensures Valid() && disk.target == old(disk).target && disk.backup == old(disk).backup
      ensures disk.prepared == Some(At(extract, root))
      ensures history == old(history) + [disk]
    {
      var left := match root
        case Whole => None
        case Inside(name) => Some(Dir(extract.entries - {name}));
      Move(disk.(extract := left, prepared := Some(At(extract, root))));
    }

    /** The steps up to the prepared bundle, which touch the staging directory only. */
    method Stage(f: Faults) returns (ready: bool)
      requires disk.backup.None? && disk.extract.None? && disk.prepared.None? && history == [disk]
      modifies this
      ensures Valid() && disk.target == old(disk).target && disk.backup.None?
      ensures forall i :: 0 <= i < |history| ==> history[i].target == old(disk).target && history[i].backup.None?
      ensures ready <==> ReachesTarget(f)
      ensures !f.stagingFails && f.unpackFails ==> disk.extract == Some(Unpacked(f))
      ensures ready ==> disk.prepared.Some? && HasIndex(disk.prepared.value) && IsBundleOf(disk.prepared.value, Unpacked(f))
    {
      if f.stagingFails {
        return false;
      }
      Move(disk.(extract := Some(Dir(map[]))));
      Unpack(f.unpacking);
      if f.unpackFails {
        return false;
      }
      var extract := Unpacked(f);
      if !HasIndex(extract) && f.listingFails {
        return false;
      }
      var root := LocateBundleRoot(extract);
      if root.None? || f.prepareFails {
        return false;
      }
      Prepare(extract, root.value);
      return true;
    }

    /** `install_archive_atomically`. At every moment before `swap` the complete old bundle is at the
        target, or at the backup path with the target empty; from `swap` on the complete new bundle is
        at the target. Only a successful run swaps, and the new bundle has its index at the root. A run
        succeeds exactly when every step up to the last rename does. */
    method Install(f: Faults) returns (ok: bool, ghost swap: nat)
      requires disk.backup.None? && disk.extract.None? && disk.prepared.None? && history == [disk]
      requires f.targetSeen ==> disk.target.Some?
      modifies this
      ensures Valid() && swap <= |history|
      ensures forall i :: 0 <= i < swap ==> OldIsSafe(old(disk).target, history[i])
      ensures forall i :: swap <= i < |history| ==> history[i].target == disk.target
      ensures ok <==> ReachesTarget(f) && !(f.targetSeen && f.backupFails)
                      && !f.placeFails
                      && (f.targetSeen || old(disk).target == None || old(disk).target == Some(Dir(map[])))
      ensures ok ==> swap < |history| && disk.target.Some? && IsBundleOf(disk.target.value, Unpacked(f))
                     && disk.target.value.Dir? && "index.html" in disk.target.value.entries
                     && disk.target.value.entries["index.html"] == File
      ensures ok ==> disk.backup == if f.targetSeen then Final(old(disk).target, f.removingBackup) else None
      ensures !ok ==> swap == |history|
      ensures !ok ==> disk.target == old(disk).target
                      || (f.restoreFails && disk.target.None? && disk.backup == old(disk).target)
      ensures ReachesTarget(f) && !(f.targetSeen && f.backupFails) && f.removingStaging != [] ==>
                (disk.extract, disk.prepared) == f.removingStaging[|f.removingStaging| - 1]
    {
      var ready := Stage(f);
      if !ready {
        return false, |history|;
      }
      if f.targetSeen {
        if f.backupFails {
          return false, |history|;
        }
        Move(disk.(backup := disk.target, target := None));
      }

      if f.placeFails || !Free(disk.target) {
        if f.targetSeen && !f.restoreFails {
          Move(disk.(target := disk.backup, backup := None));
        }
        RemoveStaging(f.removingStaging);
        return false, |history|;
      }
      swap := |history|;
      Move(disk.(target := disk.prepared, prepared := None));
      if f.targetSeen {
        RemoveBackup(f.removingBackup);
      }
      RemoveStaging(f.removingStaging);
      return true, swap;
    }
  }
}
