/** `reconcile_profile` of scripts/reconcile-hermes-profiles.py on a map from paths to bytes.
    Rendering, validation and hashing are parameters. */
module Reconciler {
  import opened Wrappers

  type Path = string
  type Bytes = seq<nat>
  type Files = map<Path, Bytes>

  const METADATA: Path := ".hermes-reconciler/"
  const MANIFEST: Path := METADATA + "managed-manifest.json"
  const ENV: Path := ".env"

  predicate StartsWith(p: Path, prefix: Path) {
    |p| >= |prefix| && p[..|prefix|] == prefix
  }

  predicate IsProtected(p: Path) {
    || p == ENV || p == "audit/events.jsonl"
    || StartsWith(p, "sessions/") || StartsWith(p, "logs/") || StartsWith(p, "gateway/") || StartsWith(p, "memories/")
  }

  predicate IsOperatorTool(p: Path) {
    || StartsWith(p, "lsp/") || StartsWith(p, "sandboxes/") || StartsWith(p, "home/")
    || StartsWith(p, ".cache/") || StartsWith(p, "cache/") || StartsWith(p, "bin/")
  }

  datatype Action = Created | Updated | Unchanged | Preserved

  datatype Owner = Managed | Protected

  datatype Asset = Asset(path: Path, owner: Owner, action: Action, sourceHash: string, destinationHash: string)

  datatype Error = Rejected(path: Path) | NotAFile(path: Path)

  /** A rendered staging file. */
  datatype Item = Item(path: Path, desired: Bytes)

  /** `operator` maps every listed operator file to the hash of its bytes. */
  datatype Report = Report(assets: seq<Asset>, operator: map<Path, string>)

  /** One invocation: its flags, the backup timestamp, and what the model leaves open.  `blocked`
      holds the destinations that exist without being files. */
  datatype Invocation = Invocation(
    dryRun: bool,
    replace: bool,
    stamp: string,
    acceptable: (Path, Bytes) -> bool,
    blocked: set<Path>,
    hash: Bytes -> string,
    manifest: map<Path, (string, string)> -> Bytes)

  function Existing(files: Files, p: Path): Option<Bytes> {
    if p in files then Some(files[p]) else None
  }

  function ActionFor(existing: Option<Bytes>, desired: Bytes): Action {
    match existing
    case None => Created
    case Some(bytes) => if bytes == desired then Unchanged else Updated
  }

  function BackupPath(stamp: string, p: Path): Path {
    METADATA + "backups/" + stamp + "/" + p
  }

  /** The decision for one file given what is at its destination. */
  function AssetFor(inv: Invocation, item: Item, existing: Option<Bytes>): Asset {
    var isProtected := IsProtected(item.path);
    var action := if isProtected && existing.Some? then Preserved else ActionFor(existing, item.desired);
    Asset(item.path, if isProtected then Protected else Managed, action, inv.hash(item.desired),
          inv.hash(if action == Preserved then existing.value else item.desired))
  }

  function Applied(inv: Invocation, files: Files, item: Item, action: Action): Files {
    if inv.dryRun || (action != Created && action != Updated) then files
    else
      var saved := if action == Updated && item.path in files
        then files[BackupPath(inv.stamp, item.path) := files[item.path]] else files;
      saved[item.path := item.desired]
  }

  // --- the run as a function ---

  datatype Progress = Progress(
      files: Files, assets: seq<Asset>, managed: map<Path, (string, string)>, failed: Option<Error>)

  function InstallOne(inv: Invocation, st: Progress, item: Item): Progress {
    if st.failed.Some? then st
    else if !inv.acceptable(item.path, item.desired) then st.(failed := Some(Rejected(item.path)))
    else if item.path in inv.blocked then st.(failed := Some(NotAFile(item.path)))
    else
      var asset := AssetFor(inv, item, Existing(st.files, item.path));
      Progress(
        Applied(inv, st.files, item, asset.action),
        st.assets + [asset],
        if asset.owner == Managed then st.managed[item.path := (asset.sourceHash, asset.destinationHash)]
        else st.managed,
        None)
  }

  function Installed(inv: Invocation, files: Files, plan: seq<Item>): Progress {
    if plan == [] then Progress(files, [], map[], None)
    else InstallOne(inv, Installed(inv, files, plan[..|plan| - 1]), plan[|plan| - 1])
  }

  /** `.env`: created from the example when absent, otherwise left alone.  An empty existing file
      counts as absent in the reported hash. */
  function InstallEnv(inv: Invocation, st: Progress, env: Bytes): Progress {
    if st.failed.Some? then st
    else if !inv.acceptable(ENV, env) then st.(failed := Some(Rejected(ENV)))
    else if ENV in inv.blocked then st.(failed := Some(NotAFile(ENV)))
    else
      var existing := Existing(st.files, ENV);
      var shown := if existing.Some? && existing.value != [] then existing.value else env;
      st.(files := if !inv.dryRun && existing.None? then st.files[ENV := env] else st.files,
          assets := st.assets
                    + [Asset(ENV, Protected, if existing.Some? then Preserved else Created,
                             inv.hash(env), inv.hash(shown))])
  }

  predicate ListedOperatorFile(plan: seq<Item>, p: Path) {
    && p != ENV && (forall i | 0 <= i < |plan| :: plan[i].path != p)
    && !StartsWith(p, METADATA) && !IsOperatorTool(p)
  }

  function OperatorFiles(inv: Invocation, files: Files, plan: seq<Item>): map<Path, string> {
    map p | p in files && ListedOperatorFile(plan, p) :: inv.hash(files[p])
  }

  function WithManifest(inv: Invocation, st: Progress): Files {
    if inv.dryRun then st.files
    else
      var saved := if MANIFEST in st.files then st.files[BackupPath(inv.stamp, MANIFEST) := st.files[MANIFEST]]
        else st.files;
      saved[MANIFEST := inv.manifest(st.managed)]
  }

  /** The tree the run works on: `--replace` empties it first. */
  function StartingFiles(inv: Invocation, files: Files): Files {
    if inv.replace && !inv.dryRun then map[] else files
  }

  function Staged(inv: Invocation, files: Files, plan: seq<Item>, env: Bytes): Progress {
    InstallEnv(inv, Installed(inv, StartingFiles(inv, files), plan), env)
  }

  function Reconciled(inv: Invocation, files: Files, plan: seq<Item>, env: Bytes): (Files, Result<Report, Error>) {
    var st := Staged(inv, files, plan, env);
    if st.failed.Some? then (st.files, Err(st.failed.value))
    else (WithManifest(inv, st), Ok(Report(st.assets, OperatorFiles(inv, st.files, plan))))
  }

  // --- the run as it happens ---

  class ProfileHome {
    var files: Files

    constructor (files: Files)
      ensures this.files == files
    {
      this.files := files;
    }

    method Backup(inv: Invocation, p: Path)
      modifies this
      ensures files == if p in old(files) then old(files)[BackupPath(inv.stamp, p) := old(files)[p]] else old(files)
    {
      if p in files {
        files := files[BackupPath(inv.stamp, p) := files[p]];
      }
    }

    method Reconcile(inv: Invocation, plan: seq<Item>, env: Bytes) returns (result: Result<Report, Error>)
      modifies this
      ensures (files, result) == Reconciled(inv, old(files), plan, env)
    {
      if inv.replace && !inv.dryRun {
        files := map[];
      }
      ghost var start := files;
      var assets: seq<Asset> := [];
      var managed: map<Path, (string, string)> := map[];
      for i := 0 to |plan|
        invariant Progress(files, assets, managed, None) == Installed(inv, start, plan[..i])
      {
        assert plan[..i + 1][..i] == plan[..i];
        var item := plan[i];
        ghost var next := Installed(inv, start, plan[..i + 1]);
        if !inv.acceptable(item.path, item.desired) || item.path in inv.blocked {
          result := Err(if !inv.acceptable(item.path, item.desired) then Rejected(item.path) else NotAFile(item.path));
          FailureSticks(inv, start, plan, i + 1);
          return;
        }
        var asset := AssetFor(inv, item, Existing(files, item.path));
        if !inv.dryRun && (asset.action == Created || asset.action == Updated) {
          if asset.action == Updated {
            Backup(inv, item.path);
          }
          files := files[item.path := item.desired];
        }
        assets := assets + [asset];
        if asset.owner == Managed {
          managed := managed[item.path := (asset.sourceHash, asset.destinationHash)];
        }
      }
      assert plan[..|plan|] == plan;
      if !inv.acceptable(ENV, env) {
        return Err(Rejected(ENV));
      }
      if ENV in inv.blocked {
        return Err(NotAFile(ENV));
      }
      var existing := Existing(files, ENV);
      if !inv.dryRun && existing.None? {
        files := files[ENV := env];
      }
      assets := assets + [Asset(ENV, Protected, if existing.Some? then Preserved else Created, inv.hash(env),
                                inv.hash(if existing.Some? && existing.value != [] then existing.value else env))];
      var operator := OperatorFiles(inv, files, plan);
      if !inv.dryRun {
        Backup(inv, MANIFEST);
        files := files[MANIFEST := inv.manifest(managed)];
      }
      result := Ok(Report(assets, operator));
    }
  }

  lemma {:induction false} FailureSticks(inv: Invocation, files: Files, plan: seq<Item>, n: nat)
    requires n <= |plan| && Installed(inv, files, plan[..n]).failed.Some?
    ensures Installed(inv, files, plan) == Installed(inv, files, plan[..n])
    decreases |plan|
  {
    if n < |plan| {
      assert plan[..|plan| - 1][..n] == plan[..n];
      FailureSticks(inv, files, plan[..|plan| - 1], n);
    } else {
      assert plan[..n] == plan;
    }
  }

  // --- which paths are whose ---

  ghost predicate In(directory: Path, p: Path) {
    exists rest: Path :: p == directory + "/" + rest
  }

  lemma PrefixIsDirectory(p: Path, directory: Path)
    ensures StartsWith(p, directory + "/") <==> In(directory, p)
  {
    var prefix := directory + "/";
    if StartsWith(p, prefix) {
      assert p == prefix + p[|prefix|..];
    }
    if rest: Path :| p == directory + "/" + rest {
      assert (prefix + rest)[..|prefix|] == prefix;
    }
  }

  /** Protected are `.env`, the audit log, and all sessions, logs, gateway state and memories. */
  lemma ProtectedExactly(p: Path)
    ensures IsProtected(p)
       <==> p == ".env" || p == "audit/events.jsonl" || In("sessions", p) || In("logs", p) || In("gateway", p)
            || In("memories", p)
  {
    PrefixIsDirectory(p, "sessions");
    PrefixIsDirectory(p, "logs");
    PrefixIsDirectory(p, "gateway");
    PrefixIsDirectory(p, "memories");
    assert "sessions" + "/" == "sessions/" && "logs" + "/" == "logs/" && "gateway" + "/" == "gateway/"
        && "memories" + "/" == "memories/";
    hide StartsWith, In;
  }

  /** Operator tools and caches stay out of the report. */
  lemma OperatorToolExactly(p: Path)
    ensures IsOperatorTool(p)
       <==> In("lsp", p) || In("sandboxes", p) || In("home", p) || In(".cache", p) || In("cache", p) || In("bin", p)
  {
    PrefixIsDirectory(p, "lsp");
    PrefixIsDirectory(p, "sandboxes");
    PrefixIsDirectory(p, "home");
    PrefixIsDirectory(p, ".cache");
    PrefixIsDirectory(p, "cache");
    PrefixIsDirectory(p, "bin");
    assert "lsp" + "/" == "lsp/" && "sandboxes" + "/" == "sandboxes/" && "home" + "/" == "home/"
        && ".cache" + "/" == ".cache/" && "cache" + "/" == "cache/" && "bin" + "/" == "bin/";
    hide StartsWith, In;
  }

  // --- what a run leaves behind ---

  /** Staging paths are distinct, none is `.env`, none lies in the metadata directory. */
  ghost predicate CleanStaging(plan: seq<Item>) {
    && (forall i, j | 0 <= i < j < |plan| :: plan[i].path != plan[j].path)
    && (forall i | 0 <= i < |plan| :: plan[i].path != ENV && !StartsWith(plan[i].path, METADATA))
  }

  predicate Overwritten(files: Files, item: Item) {
    !IsProtected(item.path) && item.path in files && files[item.path] != item.desired
  }

  ghost predicate IsBackup(inv: Invocation, files: Files, plan: seq<Item>, p: Path) {
    exists i | 0 <= i < |plan| :: p == BackupPath(inv.stamp, plan[i].path) && Overwritten(files, plan[i])
  }

  ghost predicate InPlan(plan: seq<Item>, p: Path) {
    exists i | 0 <= i < |plan| :: plan[i].path == p
  }

  /** Managed files get the rendered bytes, protected ones keep theirs if they had any. */
  function Goal(files: Files, item: Item): Bytes {
    if IsProtected(item.path) && item.path in files then files[item.path] else item.desired
  }

  ghost predicate SameAt(a: Files, b: Files, p: Path) {
    (p in a <==> p in b) && (p in a ==> a[p] == b[p])
  }

  /** The state after the staging files, stated path by path against the state before. */
  ghost predicate PlanInstalled(inv: Invocation, files: Files, plan: seq<Item>, after: Files) {
    && (forall i | 0 <= i < |plan| :: plan[i].path in after && after[plan[i].path] == Goal(files, plan[i]))
    && (forall i | 0 <= i < |plan| && Overwritten(files, plan[i]) ::
          BackupPath(inv.stamp, plan[i].path) in after
            && after[BackupPath(inv.stamp, plan[i].path)] == files[plan[i].path])
    && (forall p | !InPlan(plan, p) && !IsBackup(inv, files, plan, p) :: SameAt(files, after, p))
  }

  ghost predicate Decided(inv: Invocation, files: Files, plan: seq<Item>, assets: seq<Asset>) {
    |assets| == |plan| && forall i | 0 <= i < |plan| ::
      assets[i] == AssetFor(inv, plan[i], Existing(files, plan[i].path))
  }

  lemma BackupPathFacts(stamp: string, p: Path, q: Path)
    ensures StartsWith(BackupPath(stamp, p), METADATA) && BackupPath(stamp, p) != MANIFEST
    ensures BackupPath(stamp, p) == BackupPath(stamp, q) ==> p == q
  {
    var root := METADATA + "backups/" + stamp + "/";
    assert BackupPath(stamp, p) == root + p && BackupPath(stamp, q) == root + q;
    assert BackupPath(stamp, p)[|METADATA|] == 'b' && MANIFEST[|METADATA|] == 'm';
    assert (root + p)[|root|..] == p && (root + q)[|root|..] == q;
    assert root[..|METADATA|] == METADATA;
  }

  lemma EnvOutsideMetadata()
    ensures !StartsWith(ENV, METADATA) && StartsWith(MANIFEST, METADATA) && IsProtected(ENV)
  {
  }

  lemma InstallOneKeeps(inv: Invocation, files: Files, plan: seq<Item>, item: Item, before: Files)
    requires !inv.dryRun && CleanStaging(plan + [item]) && PlanInstalled(inv, files, plan, before)
    ensures Existing(before, item.path) == Existing(files, item.path)
    ensures PlanInstalled(inv, files, plan + [item],
              Applied(inv, before, item, AssetFor(inv, item, Existing(before, item.path)).action))
  {
    var all := plan + [item];
    assert all[|plan|] == item && forall i | 0 <= i < |plan| :: all[i] == plan[i];
    BackupPathFacts(inv.stamp, item.path, item.path);
    forall i | 0 <= i < |plan|
      ensures plan[i].path != item.path && BackupPath(inv.stamp, plan[i].path) != BackupPath(inv.stamp, item.path)
      ensures BackupPath(inv.stamp, plan[i].path) != item.path && BackupPath(inv.stamp, item.path) != plan[i].path
    {
      assert all[i].path != all[|plan|].path;
      BackupPathFacts(inv.stamp, plan[i].path, item.path);
    }
    assert !InPlan(plan, item.path) && !IsBackup(inv, files, plan, item.path);
    assert SameAt(files, before, item.path);
    var after := Applied(inv, before, item, AssetFor(inv, item, Existing(before, item.path)).action);
    forall p | !InPlan(all, p) && !IsBackup(inv, files, all, p) ensures SameAt(files, after, p) {
      assert p != all[|plan|].path;
      assert !InPlan(plan, p) && !IsBackup(inv, files, plan, p);
      assert SameAt(files, before, p);
    }
  }

  /** What the loop has decided and written after the first files. */
  ghost predicate Settled(inv: Invocation, files: Files, plan: seq<Item>, st: Progress) {
    && Decided(inv, files, plan, st.assets)
    && if inv.dryRun then st.files == files else PlanInstalled(inv, files, plan, st.files)
  }

  lemma DecidedSnoc(inv: Invocation, files: Files, plan: seq<Item>, assets: seq<Asset>, item: Item)
    requires Decided(inv, files, plan, assets)
    ensures Decided(inv, files, plan + [item], assets + [AssetFor(inv, item, Existing(files, item.path))])
  {
    hide AssetFor;
    assert forall i | 0 <= i < |plan| :: (plan + [item])[i] == plan[i];
  }

  lemma InstallSettles(inv: Invocation, files: Files, plan: seq<Item>, st: Progress, item: Item)
    requires CleanStaging(plan + [item]) && Settled(inv, files, plan, st) && InstallOne(inv, st, item).failed.None?
    ensures Settled(inv, files, plan + [item], InstallOne(inv, st, item))
  {
    hide PlanInstalled, Decided, AssetFor;
    if inv.dryRun {
      DecidedSnoc(inv, files, plan, st.assets, item);
    } else {
      InstallOneKeeps(inv, files, plan, item, st.files);
      DecidedSnoc(inv, files, plan, st.assets, item);
    }
  }

  lemma CleanFront(front: seq<Item>, item: Item)
    requires CleanStaging(front + [item])
    ensures CleanStaging(front)
  {
    var all := front + [item];
    assert forall i | 0 <= i < |front| :: all[i] == front[i];
    hide StartsWith;
  }

  lemma {:induction false} InstalledFacts(inv: Invocation, files: Files, plan: seq<Item>)
    requires CleanStaging(plan) && Installed(inv, files, plan).failed.None?
    ensures Decided(inv, files, plan, Installed(inv, files, plan).assets)
    ensures if inv.dryRun then Installed(inv, files, plan).files == files
            else PlanInstalled(inv, files, plan, Installed(inv, files, plan).files)
  {
    if plan != [] {
      var front, item := plan[..|plan| - 1], plan[|plan| - 1];
      assert plan == front + [item];
      CleanFront(front, item);
      InstalledFacts(inv, files, front);
      hide PlanInstalled, Decided, CleanStaging;
      InstallSettles(inv, files, front, Installed(inv, files, front), item);
    }
  }

  /** Managed paths hold the rendered source, protected paths their old bytes if any, `.env`
      likewise, the backup holds the former bytes of every overwritten managed file and of the
      manifest, and every other path is untouched. */
  ghost predicate Delivered(inv: Invocation, files: Files, plan: seq<Item>, env: Bytes, after: Files) {
    && (forall i | 0 <= i < |plan| :: plan[i].path in after && after[plan[i].path] == Goal(files, plan[i]))
    && ENV in after && after[ENV] == (if ENV in files then files[ENV] else env)
    && (forall i | 0 <= i < |plan| && Overwritten(files, plan[i]) ::
          BackupPath(inv.stamp, plan[i].path) in after
            && after[BackupPath(inv.stamp, plan[i].path)] == files[plan[i].path])
    && (MANIFEST in files ==>
          BackupPath(inv.stamp, MANIFEST) in after && after[BackupPath(inv.stamp, MANIFEST)] == files[MANIFEST])
    && (forall p | !InPlan(plan, p) && p != ENV && p != MANIFEST && p != BackupPath(inv.stamp, MANIFEST)
                   && !IsBackup(inv, files, plan, p) :: SameAt(files, after, p))
  }

  lemma OutsidePlan(inv: Invocation, files: Files, plan: seq<Item>)
    requires CleanStaging(plan)
    ensures !InPlan(plan, ENV) && !IsBackup(inv, files, plan, ENV)
    ensures !InPlan(plan, MANIFEST) && !IsBackup(inv, files, plan, MANIFEST)
    ensures forall i | 0 <= i < |plan| ::
      && BackupPath(inv.stamp, plan[i].path) != ENV
      && BackupPath(inv.stamp, plan[i].path) != MANIFEST
      && BackupPath(inv.stamp, plan[i].path) != BackupPath(inv.stamp, MANIFEST)
      && plan[i].path != BackupPath(inv.stamp, MANIFEST)
  {
    EnvOutsideMetadata();
    BackupPathFacts(inv.stamp, MANIFEST, MANIFEST);
    forall i | 0 <= i < |plan|
      ensures StartsWith(BackupPath(inv.stamp, plan[i].path), METADATA)
      ensures BackupPath(inv.stamp, plan[i].path) != BackupPath(inv.stamp, MANIFEST)
      ensures BackupPath(inv.stamp, plan[i].path) != MANIFEST
    {
      BackupPathFacts(inv.stamp, plan[i].path, MANIFEST);
    }
  }

  lemma FinishDelivers(
      inv: Invocation, files: Files, plan: seq<Item>, env: Bytes, mid: Files, after: Files, manifest: Bytes)
    requires CleanStaging(plan) && PlanInstalled(inv, files, plan, mid)
    requires var withEnv := if ENV in mid then mid else mid[ENV := env];
      var saved := if MANIFEST in withEnv then withEnv[BackupPath(inv.stamp, MANIFEST) := withEnv[MANIFEST]]
        else withEnv;
      after == saved[MANIFEST := manifest]
    ensures Delivered(inv, files, plan, env, after)
  {
    OutsidePlan(inv, files, plan);
    EnvOutsideMetadata();
    BackupPathFacts(inv.stamp, MANIFEST, MANIFEST);
    assert SameAt(files, mid, ENV) && SameAt(files, mid, MANIFEST);
    assert forall i | 0 <= i < |plan| :: plan[i].path != ENV && plan[i].path != MANIFEST;
    forall p | !InPlan(plan, p) && p != ENV && p != MANIFEST && p != BackupPath(inv.stamp, MANIFEST)
               && !IsBackup(inv, files, plan, p)
      ensures SameAt(files, after, p)
    {
      assert SameAt(files, mid, p);
    }
  }

  /** What a successful run without `--replace` leaves behind. */
  lemma ReconcileInstalls(inv: Invocation, files: Files, plan: seq<Item>, env: Bytes)
    requires !inv.dryRun && !inv.replace && CleanStaging(plan) && Reconciled(inv, files, plan, env).1.Ok?
    ensures Delivered(inv, files, plan, env, Reconciled(inv, files, plan, env).0)
  {
    InstalledFacts(inv, files, plan);
    FinishDelivers(inv, files, plan, env, Installed(inv, files, plan).files, Reconciled(inv, files, plan, env).0,
                   inv.manifest(Staged(inv, files, plan, env).managed));
  }

  // --- what a run reports ---

  /** What a report line says of a file: who owns it, what becomes of it, and the hashes of the
      rendered bytes and of the bytes left there. */
  ghost predicate ReportsFile(inv: Invocation, files: Files, after: Files, item: Item, a: Asset) {
    && a.path == item.path && (a.owner == Protected <==> IsProtected(item.path))
    && (a.action == Created <==> item.path !in files)
    && (a.action == Preserved <==> item.path in files && IsProtected(item.path))
    && (a.action == Unchanged <==> item.path in files && !IsProtected(item.path) && files[item.path] == item.desired)
    && a.sourceHash == inv.hash(item.desired) && item.path in after && a.destinationHash == inv.hash(after[item.path])
  }

  /** The entries of the manifest: every managed staging file with the same two hashes. */
  ghost predicate ListsManaged(
      inv: Invocation, plan: seq<Item>, after: Files, managed: map<Path, (string, string)>)
  {
    && (forall i | 0 <= i < |plan| && !IsProtected(plan[i].path) ::
          && plan[i].path in managed && plan[i].path in after
          && managed[plan[i].path] == (inv.hash(plan[i].desired), inv.hash(after[plan[i].path])))
    && forall p | p in managed :: exists i | 0 <= i < |plan| :: plan[i].path == p && !IsProtected(p)
  }

  lemma ManagedSnoc(
      inv: Invocation, plan: seq<Item>, item: Item, after: Files, managed: map<Path, (string, string)>,
      next: map<Path, (string, string)>)
    requires ListsManaged(inv, plan, after, managed) && item.path in after
    requires forall i | 0 <= i < |plan| :: plan[i].path != item.path
    requires next == if IsProtected(item.path) then managed
               else managed[item.path := (inv.hash(item.desired), inv.hash(after[item.path]))]
    ensures ListsManaged(inv, plan + [item], after, next)
  {
    hide IsProtected;
    var all := plan + [item];
    assert all[|plan|] == item && forall i | 0 <= i < |plan| :: all[i] == plan[i];
    forall p | p in next ensures exists i | 0 <= i < |all| :: all[i].path == p && !IsProtected(p) {
      if p in managed {
        var i :| 0 <= i < |plan| && plan[i].path == p && !IsProtected(p);
        assert all[i].path == p;
      } else {
        assert all[|plan|].path == p;
      }
    }
  }

  /** Every managed file is left with its rendered bytes. */
  ghost predicate Rendered(plan: seq<Item>, after: Files) {
    forall i | 0 <= i < |plan| :: plan[i].path in after && (!IsProtected(plan[i].path) ==>
      after[plan[i].path] == plan[i].desired)
  }

  lemma ManagedNext(inv: Invocation, st: Progress, item: Item)
    requires InstallOne(inv, st, item).failed.None?
    ensures st.failed.None?
    ensures InstallOne(inv, st, item).managed
         == if IsProtected(item.path) then st.managed
            else st.managed[item.path := (inv.hash(item.desired), inv.hash(item.desired))]
  {
    hide IsProtected, Applied;
  }

  lemma {:induction false} ManagedListed(inv: Invocation, files: Files, plan: seq<Item>, after: Files)
    requires CleanStaging(plan) && Installed(inv, files, plan).failed.None? && Rendered(plan, after)
    ensures ListsManaged(inv, plan, after, Installed(inv, files, plan).managed)
  {
    hide IsProtected, CleanStaging, ListsManaged, InstallOne;
    if plan == [] {
      assert ListsManaged(inv, plan, after, map[]) by { NothingListed(inv, after); }
    } else {
      var front, item := plan[..|plan| - 1], plan[|plan| - 1];
      assert plan == front + [item];
      CleanFront(front, item);
      LastIsNew(front, item);
      assert forall i | 0 <= i < |front| :: front[i] == plan[i];
      ManagedNext(inv, Installed(inv, files, front), item);
      ManagedListed(inv, files, front, after);
      ManagedSnoc(inv, front, item, after, Installed(inv, files, front).managed, Installed(inv, files, plan).managed);
    }
  }

  lemma NothingListed(inv: Invocation, after: Files)
    ensures ListsManaged(inv, [], after, map[])
  {
  }

  lemma LastIsNew(front: seq<Item>, item: Item)
    requires CleanStaging(front + [item])
    ensures forall i | 0 <= i < |front| :: front[i].path != item.path
  {
    var all := front + [item];
    assert forall i | 0 <= i < |front| :: all[i].path != all[|front|].path && all[i] == front[i];
    hide StartsWith;
  }

  /** One line for each staging file, in order, with the hash of the bytes that it is left with, then
      one for `.env`. */
  ghost predicate TellsStaged(
      inv: Invocation, before: Files, plan: seq<Item>, env: Bytes, after: Files, assets: seq<Asset>)
  {
    && |assets| == |plan| + 1 && (forall i | 0 <= i < |plan| :: ReportsFile(inv, before, after, plan[i], assets[i]))
    && assets[|plan|].path == ENV && assets[|plan|].owner == Protected && assets[|plan|].sourceHash == inv.hash(env)
    && assets[|plan|].action == (if ENV in before then Preserved else Created)
    && assets[|plan|].destinationHash == inv.hash(if ENV in before && before[ENV] != [] then before[ENV] else env)
  }

  /** Every other listed file with the hash of its bytes. */
  ghost predicate TellsOperator(inv: Invocation, plan: seq<Item>, after: Files, operator: map<Path, string>) {
    && (forall p :: p in operator <==> p in after && ListedOperatorFile(plan, p))
    && (forall p | p in operator :: operator[p] == inv.hash(after[p]))
  }

  /** The manifest repeats the hashes of the managed files. */
  ghost predicate TellsManaged(inv: Invocation, plan: seq<Item>, after: Files) {
    && MANIFEST in after
    && exists managed :: after[MANIFEST] == inv.manifest(managed) && ListsManaged(inv, plan, after, managed)
  }

  lemma SameAsPlain(inv: Invocation, files: Files, plan: seq<Item>, env: Bytes)
    requires !inv.dryRun
    ensures Reconciled(inv, files, plan, env)
         == Reconciled(inv.(replace := false), if inv.replace then map[] else files, plan, env)
  {
    if inv.replace {
      ReplaceIsFreshRun(inv, inv.(replace := false), plan);
    }
    hide Installed;
  }

  /** What a run, with or without `--replace`, reports and records is what it leaves behind. */
  lemma ReportTellsFiles(inv: Invocation, files: Files, plan: seq<Item>, env: Bytes)
    requires !inv.dryRun && CleanStaging(plan) && Reconciled(inv, files, plan, env).1.Ok?
    ensures var (after, result) := Reconciled(inv, files, plan, env);
      && TellsStaged(inv, if inv.replace then map[] else files, plan, env, after, result.value.assets)
      && TellsOperator(inv, plan, after, result.value.operator) && TellsManaged(inv, plan, after)
  {
    hide Reconciled, CleanStaging, TellsStaged, TellsOperator, TellsManaged;
    var before := if inv.replace then map[] else files;
    var plain := inv.(replace := false);
    SameAsPlain(inv, files, plan, env);
    var (after, result) := Reconciled(inv, files, plan, env);
    StagedIsTold(plain, before, plan, env);
    ManagedIsTold(plain, before, plan, env);
    OperatorIsTold(plain, before, plan, env);
    PlainReport(inv, plain, before, plan, env, after, result.value);
  }

  /** The flag changes nothing in what the report says. */
  lemma PlainReport(
      inv: Invocation, plain: Invocation, before: Files, plan: seq<Item>, env: Bytes, after: Files, report: Report)
    requires plain == inv.(replace := false)
    requires TellsStaged(plain, before, plan, env, after, report.assets)
    requires TellsOperator(plain, plan, after, report.operator) && TellsManaged(plain, plan, after)
    ensures TellsStaged(inv, before, plan, env, after, report.assets)
    ensures TellsOperator(inv, plan, after, report.operator) && TellsManaged(inv, plan, after)
  {
    hide IsProtected, ListedOperatorFile;
    assert forall item, a :: ReportsFile(plain, before, after, item, a) ==> ReportsFile(inv, before, after, item, a);
    assert forall managed :: ListsManaged(plain, plan, after, managed) ==> ListsManaged(inv, plan, after, managed);
  }

  lemma StagedIsTold(inv: Invocation, files: Files, plan: seq<Item>, env: Bytes)
    requires !inv.dryRun && !inv.replace && CleanStaging(plan) && Reconciled(inv, files, plan, env).1.Ok?
    ensures var (after, result) := Reconciled(inv, files, plan, env);
      TellsStaged(inv, files, plan, env, after, result.value.assets)
  {
    var (after, result) := Reconciled(inv, files, plan, env);
    InstalledFacts(inv, files, plan);
    EnvUntouchedByPlan(inv, files, plan);
    ReconcileInstalls(inv, files, plan, env);
    hide Installed, CleanStaging, PlanInstalled, OperatorFiles, WithManifest, IsProtected, IsBackup, InPlan;
    forall i | 0 <= i < |plan| ensures ReportsFile(inv, files, after, plan[i], result.value.assets[i]) {
      assert Installed(inv, files, plan).assets[i] == AssetFor(inv, plan[i], Existing(files, plan[i].path));
    }
  }

  lemma ManagedIsTold(inv: Invocation, files: Files, plan: seq<Item>, env: Bytes)
    requires !inv.dryRun && !inv.replace && CleanStaging(plan) && Reconciled(inv, files, plan, env).1.Ok?
    ensures TellsManaged(inv, plan, Reconciled(inv, files, plan, env).0)
  {
    var after := Reconciled(inv, files, plan, env).0;
    ReconcileInstalls(inv, files, plan, env);
    hide Installed, CleanStaging, IsProtected, IsBackup, InPlan, OperatorFiles, BackupPath;
    assert MANIFEST in after && after[MANIFEST] == inv.manifest(Installed(inv, files, plan).managed);
    hide WithManifest, Staged;
    assert Rendered(plan, after);
    hide Rendered, Delivered, ListsManaged;
    ManagedListed(inv, files, plan, after);
  }

  lemma OperatorIsTold(inv: Invocation, files: Files, plan: seq<Item>, env: Bytes)
    requires !inv.dryRun && Reconciled(inv, files, plan, env).1.Ok?
    ensures TellsOperator(inv, plan, Reconciled(inv, files, plan, env).0,
                          Reconciled(inv, files, plan, env).1.value.operator)
  {
    var after, st := Reconciled(inv, files, plan, env).0, Staged(inv, files, plan, env);
    hide Staged, IsOperatorTool;
    BackupPathFacts(inv.stamp, MANIFEST, MANIFEST);
    EnvOutsideMetadata();
    hide BackupPath, StartsWith;
    assert forall p | ListedOperatorFile(plan, p) :: SameAt(st.files, after, p);
    hide ListedOperatorFile;
  }

  // --- when a run fails ---

  predicate Installable(inv: Invocation, p: Path, bytes: Bytes) {
    inv.acceptable(p, bytes) && p !in inv.blocked
  }

  /** The first file that cannot be installed is at `i`. */
  ghost predicate FirstBad(inv: Invocation, plan: seq<Item>, i: nat) {
    && i < |plan| && !Installable(inv, plan[i].path, plan[i].desired)
    && forall j | 0 <= j < i :: Installable(inv, plan[j].path, plan[j].desired)
  }

  ghost predicate AllInstallable(inv: Invocation, plan: seq<Item>) {
    forall j | 0 <= j < |plan| :: Installable(inv, plan[j].path, plan[j].desired)
  }

  /** Content is validated before the destination is looked at. */
  function Refusal(inv: Invocation, p: Path, bytes: Bytes): Error {
    if inv.acceptable(p, bytes) then NotAFile(p) else Rejected(p)
  }

  lemma {:induction false} InstalledFailsExactly(inv: Invocation, files: Files, plan: seq<Item>)
    ensures Installed(inv, files, plan).failed.None? <==> AllInstallable(inv, plan)
    ensures forall i: nat | FirstBad(inv, plan, i) ::
              Installed(inv, files, plan).failed == Some(Refusal(inv, plan[i].path, plan[i].desired))
  {
    if plan != [] {
      var front, item := plan[..|plan| - 1], plan[|plan| - 1];
      InstalledFailsExactly(inv, files, front);
      hide AssetFor, Applied;
      assert forall j | 0 <= j < |front| :: front[j] == plan[j];
      forall i: nat | FirstBad(inv, plan, i)
        ensures Installed(inv, files, plan).failed == Some(Refusal(inv, plan[i].path, plan[i].desired))
      {
        if i < |front| { assert FirstBad(inv, front, i); }
      }
    }
  }

  /** A run succeeds exactly when every staging file and `.env` has acceptable content and a
      destination that is free or a file; otherwise it names the first that does not, and has
      installed what came before. */
  lemma ReconcileFailsExactly(inv: Invocation, files: Files, plan: seq<Item>, env: Bytes)
    ensures Reconciled(inv, files, plan, env).1.Ok? <==> AllInstallable(inv, plan) && Installable(inv, ENV, env)
    ensures forall i: nat | FirstBad(inv, plan, i) ::
              Reconciled(inv, files, plan, env)
                == (Installed(inv, StartingFiles(inv, files), plan[..i]).files,
                    Err(Refusal(inv, plan[i].path, plan[i].desired)))
    ensures AllInstallable(inv, plan) && !Installable(inv, ENV, env) ==>
              Reconciled(inv, files, plan, env)
                == (Installed(inv, StartingFiles(inv, files), plan).files, Err(Refusal(inv, ENV, env)))
  {
    var start := StartingFiles(inv, files);
    InstalledFailsExactly(inv, start, plan);
    forall i: nat | FirstBad(inv, plan, i)
      ensures Installed(inv, start, plan).files == Installed(inv, start, plan[..i]).files
    {
      var upTo := plan[..i + 1];
      InstalledFailsExactly(inv, start, plan[..i]);
      assert upTo[..i] == plan[..i] && upTo[i] == plan[i];
      assert AllInstallable(inv, plan[..i]);
      assert Installed(inv, start, upTo) == InstallOne(inv, Installed(inv, start, plan[..i]), plan[i]);
      FailureSticks(inv, start, plan, i + 1);
    }
    hide Installed, AssetFor, Applied, AllInstallable, FirstBad;
  }

  // --- repeating a run, and predicting one ---

  lemma {:induction false} FailureIgnoresFiles(
      inv: Invocation, inv': Invocation, files: Files, files': Files, plan: seq<Item>)
    requires inv'.acceptable == inv.acceptable && inv'.blocked == inv.blocked
    ensures Installed(inv, files, plan).failed == Installed(inv', files', plan).failed
  {
    if plan != [] {
      FailureIgnoresFiles(inv, inv', files, files', plan[..|plan| - 1]);
    }
  }

  lemma EnvUntouchedByPlan(inv: Invocation, files: Files, plan: seq<Item>)
    requires CleanStaging(plan) && Installed(inv, files, plan).failed.None?
    ensures SameAt(files, Installed(inv, files, plan).files, ENV)
  {
    InstalledFacts(inv, files, plan);
    EnvOutsideMetadata();
    forall i | 0 <= i < |plan| ensures BackupPath(inv.stamp, plan[i].path) != ENV {
      BackupPathFacts(inv.stamp, plan[i].path, ENV);
    }
    assert !InPlan(plan, ENV) && !IsBackup(inv, files, plan, ENV);
  }

  predicate AtRest(a: Asset) {
    a.action == Unchanged || a.action == Preserved
  }

  /** Nothing in the plan would change this tree. */
  ghost predicate UpToDate(files: Files, plan: seq<Item>) {
    && (forall i | 0 <= i < |plan| :: plan[i].path in files && !Overwritten(files, plan[i]))
    && ENV in files
  }

  lemma DeliveredIsUpToDate(inv: Invocation, files: Files, plan: seq<Item>, env: Bytes, after: Files)
    requires Delivered(inv, files, plan, env, after)
    ensures UpToDate(after, plan)
  {
    forall i | 0 <= i < |plan| ensures !Overwritten(after, plan[i]) {
      assert after[plan[i].path] == Goal(files, plan[i]);
    }
  }

  lemma UpToDateIsQuiet(inv: Invocation, files: Files, plan: seq<Item>, env: Bytes)
    requires !inv.dryRun && !inv.replace && CleanStaging(plan) && UpToDate(files, plan)
    requires Reconciled(inv, files, plan, env).1.Ok?
    ensures forall a | a in Reconciled(inv, files, plan, env).1.value.assets :: AtRest(a)
    ensures forall p | p != MANIFEST && p != BackupPath(inv.stamp, MANIFEST) ::
      SameAt(files, Reconciled(inv, files, plan, env).0, p)
  {
    InstalledFacts(inv, files, plan);
    EnvUntouchedByPlan(inv, files, plan);
    var mid := Installed(inv, files, plan);
    forall i | 0 <= i < |plan| ensures AtRest(mid.assets[i]) {
      assert mid.assets[i] == AssetFor(inv, plan[i], Existing(files, plan[i].path));
    }
    forall p ensures SameAt(files, mid.files, p) {
      assert !IsBackup(inv, files, plan, p);
      if InPlan(plan, p) {
        var i :| 0 <= i < |plan| && plan[i].path == p;
        assert mid.files[p] == Goal(files, plan[i]);
      }
    }
    assert Staged(inv, files, plan, env).files == mid.files;
    var after := Reconciled(inv, files, plan, env).0;
    forall p | p != MANIFEST && p != BackupPath(inv.stamp, MANIFEST) ensures SameAt(files, after, p) {
      assert SameAt(files, mid.files, p);
    }
  }

  /** A second run succeeds, reports everything unchanged or preserved, and writes nothing but
      the manifest and its backup. */
  lemma SecondRunIsQuiet(inv: Invocation, again: Invocation, files: Files, plan: seq<Item>, env: Bytes)
    requires !inv.dryRun && !inv.replace && !again.dryRun && !again.replace
    requires again.acceptable == inv.acceptable && again.blocked == inv.blocked
    requires CleanStaging(plan) && Reconciled(inv, files, plan, env).1.Ok?
    ensures var first := Reconciled(inv, files, plan, env).0;
      var (second, result) := Reconciled(again, first, plan, env);
      && result.Ok? && (forall a | a in result.value.assets :: AtRest(a))
      && forall p | p != MANIFEST && p != BackupPath(again.stamp, MANIFEST) :: SameAt(first, second, p)
  {
    var first := Reconciled(inv, files, plan, env).0;
    ReconcileInstalls(inv, files, plan, env);
    DeliveredIsUpToDate(inv, files, plan, env, first);
    FailureIgnoresFiles(inv, again, files, first, plan);
    UpToDateIsQuiet(again, first, plan, env);
  }

  lemma OperatorFilesUntouched(inv: Invocation, files: Files, plan: seq<Item>, env: Bytes)
    requires !inv.replace && CleanStaging(plan) && Staged(inv, files, plan, env).failed.None?
    ensures OperatorFiles(inv, Staged(inv, files, plan, env).files, plan) == OperatorFiles(inv, files, plan)
  {
    InstalledFacts(inv, files, plan);
    var after := Staged(inv, files, plan, env).files;
    forall p | ListedOperatorFile(plan, p) ensures SameAt(files, after, p) {
      assert !InPlan(plan, p);
      forall i | 0 <= i < |plan| ensures BackupPath(inv.stamp, plan[i].path) != p {
        BackupPathFacts(inv.stamp, plan[i].path, p);
      }
      assert !IsBackup(inv, files, plan, p);
    }
  }

  lemma SameDecisions(inv: Invocation, actual: Invocation, files: Files, plan: seq<Item>, a: seq<Asset>, b: seq<Asset>)
    requires inv.hash == actual.hash && Decided(inv, files, plan, a) && Decided(actual, files, plan, b)
    ensures a == b
  {
    forall i | 0 <= i < |plan| ensures a[i] == b[i] {
      assert a[i] == AssetFor(inv, plan[i], Existing(files, plan[i].path));
      assert b[i] == AssetFor(actual, plan[i], Existing(files, plan[i].path));
    }
  }

  /** A dry run writes nothing and returns exactly the report, or the error, that the actual run
      from the same state returns. */
  lemma DryRunPredicts(inv: Invocation, files: Files, plan: seq<Item>, env: Bytes)
    requires inv.dryRun && !inv.replace && CleanStaging(plan)
    ensures Reconciled(inv, files, plan, env).0 == files
    ensures Reconciled(inv, files, plan, env).1 == Reconciled(inv.(dryRun := false), files, plan, env).1
  {
    hide CleanStaging, IsProtected, BackupPath, ListedOperatorFile;
    var actual := inv.(dryRun := false);
    FailureIgnoresFiles(inv, actual, files, files, plan);
    DryRunWritesNothing(inv, files, plan);
    if Staged(inv, files, plan, env).failed.Some? { return; }
    InstalledFacts(inv, files, plan);
    InstalledFacts(actual, files, plan);
    SameDecisions(inv, actual, files, plan, Installed(inv, files, plan).assets, Installed(actual, files, plan).assets);
    EnvUntouchedByPlan(inv, files, plan);
    EnvUntouchedByPlan(actual, files, plan);
    OperatorFilesUntouched(inv, files, plan, env);
    OperatorFilesUntouched(actual, files, plan, env);
    hide Installed, Decided, PlanInstalled;
  }

  lemma {:induction false} DryRunWritesNothing(inv: Invocation, files: Files, plan: seq<Item>)
    requires inv.dryRun
    ensures Installed(inv, files, plan).files == files
  {
    if plan != [] {
      DryRunWritesNothing(inv, files, plan[..|plan| - 1]);
    }
  }

  /** The reported destination hash of `.env` is the hash of the bytes left there, unless an
      empty `.env` was preserved beside a non-empty example. */
  lemma EnvHashReported(inv: Invocation, files: Files, plan: seq<Item>, env: Bytes)
    requires !inv.dryRun && !inv.replace && CleanStaging(plan) && Reconciled(inv, files, plan, env).1.Ok?
    requires forall a, b :: inv.hash(a) == inv.hash(b) ==> a == b
    ensures var (after, result) := Reconciled(inv, files, plan, env);
      && result.value.assets != [] && ENV in after
      && (result.value.assets[|result.value.assets| - 1].destinationHash == inv.hash(after[ENV])
          <==> !(ENV in files && files[ENV] == [] && env != []))
  {
    ReconcileInstalls(inv, files, plan, env);
    EnvUntouchedByPlan(inv, files, plan);
  }

  /** `--replace` protects nothing: every staging path, protected or not, ends with the rendered
      bytes, and no operator file survives. */
  lemma ReplaceKeepsNothing(inv: Invocation, files: Files, plan: seq<Item>, env: Bytes)
    requires inv.replace && !inv.dryRun && CleanStaging(plan) && Reconciled(inv, files, plan, env).1.Ok?
    ensures var (after, result) := Reconciled(inv, files, plan, env);
      && (forall i | 0 <= i < |plan| :: plan[i].path in after && after[plan[i].path] == plan[i].desired)
      && ENV in after && after[ENV] == env
      && result.value.operator == map[]
  {
    var plain := inv.(replace := false);
    ReplaceIsFreshRun(inv, plain, plan);
    assert Reconciled(inv, files, plan, env) == Reconciled(plain, map[], plan, env);
    ReconcileInstalls(plain, map[], plan, env);
    FreshFilesAreRendered(plain, plan, env, Reconciled(plain, map[], plan, env).0);
    OperatorFilesUntouched(plain, map[], plan, env);
    hide Installed, Delivered, ListedOperatorFile;
  }

  /** Nothing is protected in an empty tree. */
  lemma FreshFilesAreRendered(inv: Invocation, plan: seq<Item>, env: Bytes, after: Files)
    requires Delivered(inv, map[], plan, env, after)
    ensures forall i | 0 <= i < |plan| :: plan[i].path in after && after[plan[i].path] == plan[i].desired
    ensures ENV in after && after[ENV] == env
  {
    hide IsProtected;
  }

  lemma {:induction false} ReplaceIsFreshRun(inv: Invocation, plain: Invocation, plan: seq<Item>)
    requires plain == inv.(replace := false)
    ensures Installed(inv, map[], plan) == Installed(plain, map[], plan)
  {
    if plan != [] {
      ReplaceIsFreshRun(inv, plain, plan[..|plan| - 1]);
    }
  }
}
