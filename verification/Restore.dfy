/** Restoring a state tree from a backup as a sequence of file-system steps, any of which may
    fail or be the last before a crash. */
module Restore {
  import opened Basics

  /** A state tree as its files; the receipt chain is one of them. */
  type Tree = map<string, string>

  const CHAIN_FILE := "receipts/chain.jsonl"
  const VERSION_FILE := "SCHEMA_VERSION"

  /** Loading and verifying a receipt chain file (absent in a fresh tree): the number of
      receipts, or `None` if it does not load or does not verify. */
  type ChainCheck = Option<string> -> Option<nat>

  function ChainOf(t: Tree): Option<string> {
    if CHAIN_FILE in t then Some(t[CHAIN_FILE]) else None
  }

  predicate Verified(check: ChainCheck, t: Tree) {
    check(ChainOf(t)).Some?
  }

  /** What stands at the state root, at the staging path and at the displaced path. */
  datatype Disk = Disk(root: Option<Tree>, staging: Option<Tree>, displaced: Option<Tree>)

  /** Which steps fail, and what a failing multi-file step leaves behind. */
  datatype Plan = Plan(
    archive: Option<Tree>,          // the archive's tree; None if it cannot be read
    parentFails: bool,
    stagingFails: bool,
    unpackFails: Option<Tree>,      // a partial extraction
    cleanup: Option<Tree>,          // what an unfinished removal of staging leaves
    displaceFails: bool,
    swapFails: bool,
    rollbackFails: bool,
    migrateFails: bool,
    version: string,
    deleteFails: Option<Tree>)      // what an unfinished removal of the old tree leaves

  datatype Report = Report(preserved: bool, receipts: nat)
  datatype RestoreError = Failed

  /** The disk, with every state it went through: a crash leaves one of those. */
  class FileSystem {
    var disk: Disk
    ghost var trace: seq<Disk>

    constructor (root: Option<Tree>)
      ensures disk == Disk(root, None, None) && trace == [disk]
    {
      disk := Disk(root, None, None);
      trace := [Disk(root, None, None)];
    }

    method Become(next: Disk)
      modifies this
      ensures disk == next && trace == old(trace) + [next]
    {
      disk := next;
      trace := trace + [next];
    }
  }

  /** The state root holds the old tree, nothing, or a tree whose chain verified; and the old
      tree is whole at the root or aside until a verified tree is live. */
  ghost predicate Safe(check: ChainCheck, before: Option<Tree>, d: Disk) {
    && (d.root == before || d.root.None? || Verified(check, d.root.value))
    && (d.root != before ==> d.displaced == before || (d.root.Some? && Verified(check, d.root.value)))
  }

  ghost predicate AllSafe(check: ChainCheck, before: Option<Tree>, trace: seq<Disk>) {
    forall i :: 0 <= i < |trace| ==> Safe(check, before, trace[i])
  }

  predicate Stages(check: ChainCheck, plan: Plan) {
    && plan.archive.Some? && !plan.parentFails && !plan.stagingFails && plan.unpackFails.None?
    && Verified(check, plan.archive.value)
  }

  /** Everything before the swap: extraction and verification touch only the staging path. */
  method Stage(fs: FileSystem, check: ChainCheck, plan: Plan) returns (r: Result<nat, RestoreError>)
    requires fs.disk.staging.None?
    modifies fs
    ensures fs.disk.root == old(fs.disk.root) && fs.disk.displaced == old(fs.disk.displaced)
    ensures old(fs.trace) <= fs.trace
    ensures forall i :: |old(fs.trace)| <= i < |fs.trace| ==>
      fs.trace[i].root == old(fs.disk.root) && fs.trace[i].displaced == old(fs.disk.displaced)
    ensures r.Ok? ==>
      plan.archive.Some? && fs.disk.staging == plan.archive && check(ChainOf(plan.archive.value)) == Some(r.value)
    ensures r.Ok? <==> Stages(check, plan)
  {
    if plan.archive.None? || plan.parentFails || plan.stagingFails { return Err(Failed); }
    fs.Become(fs.disk.(staging := Some(map[])));
    if plan.unpackFails.Some? {
      fs.Become(fs.disk.(staging := plan.unpackFails));
      fs.Become(fs.disk.(staging := plan.cleanup));
      return Err(Failed);
    }
    fs.Become(fs.disk.(staging := plan.archive));
    var count := check(ChainOf(plan.archive.value));
    if count.None? {
      fs.Become(fs.disk.(staging := plan.cleanup));
      return Err(Failed);
    }
    return Ok(count.value);
  }

  /** RESTORE NEVER LOSES STATE: at every state the disk goes through, whatever fails, `Safe`
      holds, and without `force` the old tree is always whole at the root or aside. On success
      the stamped archive is live and the old tree is kept unless `force`; on failure the root is
      the old tree unless the swap had succeeded or could not be undone. */
  method RestoreBackup(fs: FileSystem, check: ChainCheck, force: bool, plan: Plan)
    returns (r: Result<Report, RestoreError>)
    requires fs.disk.staging.None? && fs.disk.displaced.None? && fs.trace == [fs.disk]
    modifies fs
    ensures AllSafe(check, old(fs.disk.root), fs.trace)
    ensures !force ==> forall i :: 0 <= i < |fs.trace| ==>
      fs.trace[i].root == old(fs.disk.root) || fs.trace[i].displaced == old(fs.disk.root)
    ensures r.Ok? ==>
      && plan.archive.Some? && fs.disk.root == Some(plan.archive.value["SCHEMA_VERSION" := plan.version])
      && r.value.preserved == (old(fs.disk.root).Some? && !force)
      && fs.disk.displaced == (if force then None else old(fs.disk.root))
      && check(ChainOf(fs.disk.root.value)) == Some(r.value.receipts)
    ensures r.Ok? <==>
      var present := old(fs.disk.root).Some?;
      && Stages(check, plan) && !plan.swapFails && !plan.migrateFails
      && (present ==> !plan.displaceFails) && (present && force ==> plan.deleteFails.None?)
    ensures r.Err? ==>
      || fs.disk.root == old(fs.disk.root)
      || (fs.disk.root.None? && fs.disk.displaced == old(fs.disk.root) && plan.swapFails && plan.rollbackFails)
      || (fs.disk.root.Some? && Verified(check, fs.disk.root.value) && !plan.swapFails)
    ensures r.Err? ==>
      var before := old(fs.disk.root);
      if !Stages(check, plan) || (before.Some? && plan.displaceFails) then
        fs.disk.root == before && fs.disk.displaced.None?
      else if plan.swapFails then
        fs.disk == (if before.Some? && plan.rollbackFails then Disk(None, plan.archive, before)
                    else Disk(before, plan.archive, None))
      else
        && fs.disk.root.Some? && Verified(check, fs.disk.root.value) && fs.disk.staging.None?
        && fs.disk.displaced == if plan.migrateFails then before else plan.deleteFails
  {
    var before := fs.disk.root;
    var staged := Stage(fs, check, plan);
    assert AllSafe(check, before, fs.trace);
    if staged.Err? { return Err(Failed); }
    var archive := plan.archive.value;

    var present := fs.disk.root.Some?;
    if present {
      if plan.displaceFails { return Err(Failed); }
      fs.Become(Disk(None, fs.disk.staging, before));
    }

    if plan.swapFails {
      if present && !plan.rollbackFails {
        fs.Become(Disk(before, fs.disk.staging, None));
      }
      return Err(Failed);
    }
    fs.Become(Disk(Some(archive), None, fs.disk.displaced));

    if plan.migrateFails { return Err(Failed); }
    var stamped := archive[VERSION_FILE := plan.version];
    StampKeepsChain(archive, plan.version);
    fs.Become(fs.disk.(root := Some(stamped)));

    if present && force {
      if plan.deleteFails.Some? {
        fs.Become(fs.disk.(displaced := plan.deleteFails));
        return Err(Failed);
      }
      fs.Become(fs.disk.(displaced := None));
      return Ok(Report(false, staged.value));
    }
    return Ok(Report(present, staged.value));
  }

  lemma StampKeepsChain(t: Tree, version: string)
    ensures ChainOf(t[VERSION_FILE := version]) == ChainOf(t)
  {
    assert CHAIN_FILE[0] != VERSION_FILE[0];
  }

  /** The chain that is verified is the content of the file `receipts/chain.jsonl`. */
  lemma ChainOfExact(t: Tree, text: string)
    ensures ChainOf(t) == Some(text) <==> "receipts/chain.jsonl" in t && t["receipts/chain.jsonl"] == text
  {
  }
}
