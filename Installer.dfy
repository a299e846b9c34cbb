/** `backupExistingConfig` and `installConfig`: back up the `agents` and
    `commands` directories of the target's `.claude` directory when either
    exists, copy the bundled ones over them, and count what the target's
    directories then list. The working directory and the installer's own
    directory are the inputs `targetDir` and `bundleDir`; the clock is the
    input `isoNow`, the ISO-8601 text of the current time. */
module Installer {
  import opened Wrappers
  import opened FileSystem
  import opened Copying
  import opened BackupNaming

  const ConfigName: Name := ".claude"
  const AgentsName: Name := "agents"
  const CommandsName: Name := "commands"

  /** The two categories the installer handles; there are no others. */
  predicate IsCategory(c: Name) { c == AgentsName || c == CommandsName }

  /** `path.join(root, '.claude')`. */
  function ConfigDir(root: Path): Path { root + [ConfigName] }

  /** `path.join(root, '.claude', category)`. */
  function CategoryDir(root: Path, category: Name): Path { root + [ConfigName] + [category] }

  /** `path.join(targetDir, '.claude.backup.' + timestamp)`. */
  function BackupDir(targetDir: Path, isoNow: string): Path { targetDir + [BackupDirName(isoNow)] }

  /** Either category exists in the target: a backup is needed. */
  predicate HasConfig(fs: Tree, targetDir: Path)
  {
    CategoryDir(targetDir, AgentsName) in fs || CategoryDir(targetDir, CommandsName) in fs
  }

  // ---------------------------------------------------------------------------
  // The backup

  /** The tree once the backup directory is made and `agents`, if present, is copied into it. */
  ghost function BackupAgentsStep(fs: Tree, targetDir: Path, isoNow: string): Tree
  {
    var b := BackupDir(targetDir, isoNow);
    var made := WithDirectory(fs, b);
    if CategoryDir(targetDir, AgentsName) in fs then CopyTree(made, CategoryDir(targetDir, AgentsName), b + [AgentsName])
    else made
  }

  /** The tree after `backupExistingConfig(targetDir)`: unchanged when neither
      category exists; otherwise the backup directory holds a copy of each
      category that exists, under the category's own name. */
  ghost function BackupTree(fs: Tree, targetDir: Path, isoNow: string): Tree
  {
    var b := BackupDir(targetDir, isoNow);
    if !HasConfig(fs, targetDir) then fs
    else
      var t := BackupAgentsStep(fs, targetDir, isoNow);
      if CategoryDir(targetDir, CommandsName) in fs then CopyTree(t, CategoryDir(targetDir, CommandsName), b + [CommandsName])
      else t
  }

  /** What the backup needs to run without an error from the file system: no
      file on the way to the backup directory, each present category is a
      directory, and each copy is allowed where it happens. */
  ghost predicate BackupAllowed(fs: Tree, targetDir: Path, isoNow: string)
  {
    var b := BackupDir(targetDir, isoNow);
    var agents, commands := CategoryDir(targetDir, AgentsName), CategoryDir(targetDir, CommandsName);
    HasConfig(fs, targetDir) ==>
      && NoFileOnPath(fs, b)
      && (agents in fs ==> fs[agents] == Dir && CopyAllowed(WithDirectory(fs, b), agents, b + [AgentsName]))
      && (commands in fs ==> fs[commands] == Dir && CopyAllowed(BackupAgentsStep(fs, targetDir, isoNow), commands, b + [CommandsName]))
  }

  /** The backup directory is a sibling of the configuration directory, never the same. */
  lemma BackupDirBesideConfig(targetDir: Path, isoNow: string, p: Path, q: Path)
    ensures Separate(targetDir + [BackupDirName(isoNow)] + p, targetDir + [ConfigName] + q)
  {
    BackupDirNameIsNotConfigDir(isoNow);
    Diverge(targetDir, BackupDirName(isoNow), ConfigName, p, q);
  }

  /** A path below a category of the target, as a path below the configuration directory. */
  lemma CategoryPath(root: Path, c: Name, r: Path)
    ensures CategoryDir(root, c) + r == root + [ConfigName] + ([c] + r)
  {
  }

  /** A path below the backup of a category, as a path below the backup directory. */
  lemma BackupPath(targetDir: Path, isoNow: string, c: Name, r: Path)
    ensures BackupDir(targetDir, isoNow) + [c] + r == targetDir + [BackupDirName(isoNow)] + ([c] + r)
  {
  }

  /** `commands` is still in place when the backup reaches it. */
  lemma CommandsSurviveAgentsBackup(fs: Tree, targetDir: Path, isoNow: string, r: Path)
    ensures SameAt(fs, BackupAgentsStep(fs, targetDir, isoNow), CategoryDir(targetDir, CommandsName) + r)
  {
    var b := BackupDir(targetDir, isoNow);
    var x := CategoryDir(targetDir, CommandsName) + r;
    CategoryPath(targetDir, CommandsName, r);
    BackupDirBesideConfig(targetDir, isoNow, [], [CommandsName] + r);
    BackupDirBesideConfig(targetDir, isoNow, [AgentsName], [CommandsName] + r);
    WithDirectoryFrame(fs, b, x);
    if CategoryDir(targetDir, AgentsName) in fs {
      CopyTreeFrame(WithDirectory(fs, b), CategoryDir(targetDir, AgentsName), b + [AgentsName], x);
    }
  }

  /** `backupExistingConfig(targetDir)`: nothing when neither category exists;
      otherwise the backup directory, made and filled with a copy of each
      category that exists. */
  method BackupExistingConfig(disk: Disk, targetDir: Path, isoNow: string) returns (backupPath: Option<Path>)
    requires disk.Valid() && BackupAllowed(disk.entries, targetDir, isoNow)
    modifies disk
    ensures disk.Valid()
    ensures backupPath.None? <==> !HasConfig(old(disk.entries), targetDir)
    ensures backupPath.Some? ==> backupPath.value == BackupDir(targetDir, isoNow)
    ensures disk.entries == BackupTree(old(disk.entries), targetDir, isoNow)
  {
    ghost var fs := disk.entries;
    var agentsDir := CategoryDir(targetDir, AgentsName);
    var commandsDir := CategoryDir(targetDir, CommandsName);
    var hasAgents := disk.Exists(agentsDir);
    var hasCommands := disk.Exists(commandsDir);
    if !hasAgents && !hasCommands {
      return None;
    }
    var backupDir := targetDir + [BackupDirName(isoNow)];
    disk.MakeDirectory(backupDir);
    if hasAgents {
      WithDirectoryFrame(fs, backupDir, agentsDir);
      CopyDirectory(disk, agentsDir, backupDir + [AgentsName]);
    }
    if hasCommands {
      CommandsSurviveAgentsBackup(fs, targetDir, isoNow, []);
      assert commandsDir + [] == commandsDir;
      CopyDirectory(disk, commandsDir, backupDir + [CommandsName]);
    }
    return Some(backupDir);
  }

  /** The backup keeps the tree well formed. */
  lemma BackupWellFormed(fs: Tree, targetDir: Path, isoNow: string)
    requires WellFormed(fs) && BackupAllowed(fs, targetDir, isoNow)
    ensures HasConfig(fs, targetDir) ==> WellFormed(BackupAgentsStep(fs, targetDir, isoNow))
    ensures WellFormed(BackupTree(fs, targetDir, isoNow))
  {
    var b := BackupDir(targetDir, isoNow);
    if HasConfig(fs, targetDir) {
      WithDirectoryFacts(fs, b);
      if CategoryDir(targetDir, AgentsName) in fs {
        CopyTreeWellFormed(WithDirectory(fs, b), CategoryDir(targetDir, AgentsName), b + [AgentsName]);
      }
      if CategoryDir(targetDir, CommandsName) in fs {
        CopyTreeWellFormed(BackupAgentsStep(fs, targetDir, isoNow), CategoryDir(targetDir, CommandsName), b + [CommandsName]);
      }
    }
  }

  /** Nothing outside the backup directory and its ancestors changes: in
      particular the configuration being backed up is left as it was. */
  lemma BackupFrame(fs: Tree, targetDir: Path, isoNow: string, x: Path)
    requires Separate(x, BackupDir(targetDir, isoNow))
    ensures SameAt(fs, BackupTree(fs, targetDir, isoNow), x)
  {
    var b := BackupDir(targetDir, isoNow);
    if HasConfig(fs, targetDir) {
      WithDirectoryFrame(fs, b, x);
      var t := BackupAgentsStep(fs, targetDir, isoNow);
      OutsideChild(x, b, AgentsName);
      OutsideChild(x, b, CommandsName);
      if CategoryDir(targetDir, AgentsName) in fs {
        CopyTreeFrame(WithDirectory(fs, b), CategoryDir(targetDir, AgentsName), b + [AgentsName], x);
      }
      if CategoryDir(targetDir, CommandsName) in fs {
        CopyTreeFrame(t, CategoryDir(targetDir, CommandsName), b + [CommandsName], x);
      }
    }
  }

  /** A path outside `p` is neither an ancestor of `p + [m]` nor below it. */
  lemma OutsideChild(x: Path, p: Path, m: Name)
    requires Separate(x, p)
    ensures !IsPrefix(x, p + [m]) && !IsStrictPrefix(p + [m], x)
  {
    if |x| <= |p| {
      assert (p + [m])[..|x|] == p[..|x|];
    }
    if |p| < |x| {
      assert x[..|p|] != p;
      if |p| + 1 < |x| {
        assert x[..|p| + 1][..|p|] == x[..|p|];
      }
    }
  }

  /** Every entry of a category that exists is in the backup at the same
      relative place, with identical contents. */
  lemma BackupCopiesCategory(fs: Tree, targetDir: Path, isoNow: string, c: Name, r: Path)
    requires WellFormed(fs) && BackupAllowed(fs, targetDir, isoNow)
    requires IsCategory(c) && r != [] && CategoryDir(targetDir, c) + r in fs
    ensures BackupDir(targetDir, isoNow) + [c] + r in BackupTree(fs, targetDir, isoNow)
    ensures BackupTree(fs, targetDir, isoNow)[BackupDir(targetDir, isoNow) + [c] + r] == fs[CategoryDir(targetDir, c) + r]
  {
    if c == AgentsName {
      BackupCopiesAgents(fs, targetDir, isoNow, r);
    } else {
      BackupCopiesCommands(fs, targetDir, isoNow, r);
    }
  }

  lemma BackupCopiesAgents(fs: Tree, targetDir: Path, isoNow: string, r: Path)
    requires WellFormed(fs) && BackupAllowed(fs, targetDir, isoNow)
    requires r != [] && CategoryDir(targetDir, AgentsName) + r in fs
    ensures BackupDir(targetDir, isoNow) + [AgentsName] + r in BackupTree(fs, targetDir, isoNow)
    ensures BackupTree(fs, targetDir, isoNow)[BackupDir(targetDir, isoNow) + [AgentsName] + r] == fs[CategoryDir(targetDir, AgentsName) + r]
  {
    var b := BackupDir(targetDir, isoNow);
    var src := CategoryDir(targetDir, AgentsName);
    PresentAncestor(fs, src + r, |src|);
    assert (src + r)[..|src|] == src;
    WithDirectoryFacts(fs, b);
    CategoryPath(targetDir, AgentsName, r);
    BackupDirBesideConfig(targetDir, isoNow, [], [AgentsName] + r);
    WithDirectoryFrame(fs, b, src + r);
    CopyTreeCopiesSource(WithDirectory(fs, b), src, b + [AgentsName], r);
    if CategoryDir(targetDir, CommandsName) in fs {
      CommandsBackupKeepsAgents(fs, targetDir, isoNow, r);
    }
  }

  /** Copying `commands` into the backup leaves the copy of `agents` alone. */
  lemma CommandsBackupKeepsAgents(fs: Tree, targetDir: Path, isoNow: string, r: Path)
    requires CategoryDir(targetDir, CommandsName) in fs
    ensures SameAt(BackupAgentsStep(fs, targetDir, isoNow), BackupTree(fs, targetDir, isoNow), BackupDir(targetDir, isoNow) + [AgentsName] + r)
  {
    var b := BackupDir(targetDir, isoNow);
    Diverge(b, AgentsName, CommandsName, r, []);
    assert b + [CommandsName] + [] == b + [CommandsName];
    CopyTreeFrame(BackupAgentsStep(fs, targetDir, isoNow), CategoryDir(targetDir, CommandsName), b + [CommandsName], b + [AgentsName] + r);
  }

  lemma BackupCopiesCommands(fs: Tree, targetDir: Path, isoNow: string, r: Path)
    requires WellFormed(fs) && BackupAllowed(fs, targetDir, isoNow)
    requires r != [] && CategoryDir(targetDir, CommandsName) + r in fs
    ensures BackupDir(targetDir, isoNow) + [CommandsName] + r in BackupTree(fs, targetDir, isoNow)
    ensures BackupTree(fs, targetDir, isoNow)[BackupDir(targetDir, isoNow) + [CommandsName] + r] == fs[CategoryDir(targetDir, CommandsName) + r]
  {
    var b := BackupDir(targetDir, isoNow);
    var src := CategoryDir(targetDir, CommandsName);
    PresentAncestor(fs, src + r, |src|);
    assert (src + r)[..|src|] == src;
    BackupWellFormed(fs, targetDir, isoNow);
    var t := BackupAgentsStep(fs, targetDir, isoNow);
    CommandsSurviveAgentsBackup(fs, targetDir, isoNow, r);
    CopyTreeCopiesSource(t, src, b + [CommandsName], r);
  }

  /** A fresh backup directory lists exactly the categories that existed. */
  lemma BackupHoldsOnlyExisting(fs: Tree, targetDir: Path, isoNow: string)
    requires WellFormed(fs) && HasConfig(fs, targetDir)
    requires BackupDir(targetDir, isoNow) !in fs
    ensures Children(BackupTree(fs, targetDir, isoNow), BackupDir(targetDir, isoNow)) ==
      (if CategoryDir(targetDir, AgentsName) in fs then {AgentsName} else {}) +
      (if CategoryDir(targetDir, CommandsName) in fs then {CommandsName} else {})
  {
    var b := BackupDir(targetDir, isoNow);
    AgentsBackupLists(fs, targetDir, isoNow);
    if CategoryDir(targetDir, CommandsName) in fs {
      CopyTreeParentChildren(BackupAgentsStep(fs, targetDir, isoNow), CategoryDir(targetDir, CommandsName), b, CommandsName);
    }
  }

  /** Once `agents` is copied, the fresh backup directory lists it if it existed. */
  lemma AgentsBackupLists(fs: Tree, targetDir: Path, isoNow: string)
    requires WellFormed(fs) && BackupDir(targetDir, isoNow) !in fs
    ensures Children(BackupAgentsStep(fs, targetDir, isoNow), BackupDir(targetDir, isoNow)) ==
      if CategoryDir(targetDir, AgentsName) in fs then {AgentsName} else {}
  {
    var b := BackupDir(targetDir, isoNow);
    FreshDirectoryEmpty(fs, b);
    if CategoryDir(targetDir, AgentsName) in fs {
      CopyTreeParentChildren(WithDirectory(fs, b), CategoryDir(targetDir, AgentsName), b, AgentsName);
    }
  }

  /** A directory just made where nothing was lists nothing. */
  lemma FreshDirectoryEmpty(fs: Tree, b: Path)
    requires WellFormed(fs) && b != [] && b !in fs
    ensures Children(WithDirectory(fs, b), b) == {}
  {
    var made := WithDirectory(fs, b);
    forall n ensures n !in Children(made, b) {
      ChildrenMember(made, b, n);
      WithDirectoryFrame(fs, b, b + [n]);
    }
  }

  // ---------------------------------------------------------------------------
  // The installation

  /** What `installConfig` returns. */
  datatype Summary = Summary(
    targetDir: Path,
    backupPath: Option<Path>,
    agentFiles: nat,
    commandFiles: nat,
    totalFiles: nat)

  /** After `mkdirSync(targetClaudeDir)` and the backup. */
  ghost function AfterBackup(fs: Tree, targetDir: Path, isoNow: string): Tree
  {
    BackupTree(WithDirectory(fs, ConfigDir(targetDir)), targetDir, isoNow)
  }

  /** After the bundled `agents` directory is copied. */
  ghost function AfterAgents(fs: Tree, targetDir: Path, bundleDir: Path, isoNow: string): Tree
  {
    CopyTree(AfterBackup(fs, targetDir, isoNow), CategoryDir(bundleDir, AgentsName), CategoryDir(targetDir, AgentsName))
  }

  /** The tree after `installConfig`. */
  ghost function InstallTree(fs: Tree, targetDir: Path, bundleDir: Path, isoNow: string): Tree
  {
    CopyTree(AfterAgents(fs, targetDir, bundleDir, isoNow), CategoryDir(bundleDir, CommandsName), CategoryDir(targetDir, CommandsName))
  }

  /** What the installation needs to run without an error from the file
      system: each step is allowed on the tree the steps before it leave. */
  ghost predicate InstallAllowed(fs: Tree, targetDir: Path, bundleDir: Path, isoNow: string)
  {
    var t1 := WithDirectory(fs, ConfigDir(targetDir));
    var t2 := AfterBackup(fs, targetDir, isoNow);
    var t3 := AfterAgents(fs, targetDir, bundleDir, isoNow);
    var sourceAgents, sourceCommands := CategoryDir(bundleDir, AgentsName), CategoryDir(bundleDir, CommandsName);
    && NoFileOnPath(fs, ConfigDir(targetDir))
    && BackupAllowed(t1, targetDir, isoNow)
    && sourceAgents in t2 && t2[sourceAgents] == Dir
    && CopyAllowed(t2, sourceAgents, CategoryDir(targetDir, AgentsName))
    && sourceCommands in t3 && t3[sourceCommands] == Dir
    && CopyAllowed(t3, sourceCommands, CategoryDir(targetDir, CommandsName))
  }

  /** Making the configuration directory does not create either category. */
  lemma ConfigDirMakesNoCategory(fs: Tree, targetDir: Path, c: Name, r: Path)
    ensures SameAt(fs, WithDirectory(fs, ConfigDir(targetDir)), CategoryDir(targetDir, c) + r)
  {
    var x := CategoryDir(targetDir, c) + r;
    assert |x| > |ConfigDir(targetDir)|;
    WithDirectoryFrame(fs, ConfigDir(targetDir), x);
  }

  /** `installConfig()`: make the target's `.claude`, back up what is there,
      copy the bundled categories over it, and count each category's entries. */
  method InstallConfig(disk: Disk, targetDir: Path, bundleDir: Path, isoNow: string) returns (summary: Summary)
    requires disk.Valid() && InstallAllowed(disk.entries, targetDir, bundleDir, isoNow)
    modifies disk
    ensures disk.Valid()
    ensures disk.entries == InstallTree(old(disk.entries), targetDir, bundleDir, isoNow)
    ensures summary.targetDir == targetDir
    ensures summary.backupPath == if HasConfig(old(disk.entries), targetDir) then Some(BackupDir(targetDir, isoNow)) else None
    ensures summary.agentFiles == |Children(disk.entries, CategoryDir(targetDir, AgentsName))|
    ensures summary.commandFiles == |Children(disk.entries, CategoryDir(targetDir, CommandsName))|
    ensures summary.totalFiles == summary.agentFiles + summary.commandFiles
  {
    ghost var fs := disk.entries;
    var sourceDir := bundleDir + [ConfigName];
    var targetClaudeDir := targetDir + [ConfigName];
    disk.MakeDirectory(targetClaudeDir);
    ConfigDirMakesNoCategory(fs, targetDir, AgentsName, []);
    ConfigDirMakesNoCategory(fs, targetDir, CommandsName, []);
    assert CategoryDir(targetDir, AgentsName) + [] == CategoryDir(targetDir, AgentsName);
    assert CategoryDir(targetDir, CommandsName) + [] == CategoryDir(targetDir, CommandsName);
    var backupPath := BackupExistingConfig(disk, targetDir, isoNow);
    var sourceAgents := sourceDir + [AgentsName];
    var sourceCommands := sourceDir + [CommandsName];
    var targetAgents := targetClaudeDir + [AgentsName];
    var targetCommands := targetClaudeDir + [CommandsName];
    CopyDirectory(disk, sourceAgents, targetAgents);
    CopyDirectory(disk, sourceCommands, targetCommands);
    CopyTreeMakesDest(AfterAgents(fs, targetDir, bundleDir, isoNow), sourceCommands, targetCommands, targetCommands);
    Diverge(targetClaudeDir, AgentsName, CommandsName, [], []);
    assert targetAgents + [] == targetAgents && targetCommands + [] == targetCommands;
    CopyTreeMakesDest(AfterBackup(fs, targetDir, isoNow), sourceAgents, targetAgents, targetAgents);
    CopyTreeFrame(AfterAgents(fs, targetDir, bundleDir, isoNow), sourceCommands, targetCommands, targetAgents);
    var agentNames := disk.ReadDirectory(targetAgents);
    var commandNames := disk.ReadDirectory(targetCommands);
    var agentFiles := |agentNames|;
    var commandFiles := |commandNames|;
    var totalFiles := agentFiles + commandFiles;
    return Summary(targetDir, backupPath, agentFiles, commandFiles, totalFiles);
  }

  // ---------------------------------------------------------------------------
  // What the installation does

  /** The installer's bundled configuration lies outside the target's
      configuration and outside the backup directory. */
  ghost predicate BundleApart(targetDir: Path, bundleDir: Path, isoNow: string)
  {
    Separate(ConfigDir(bundleDir), ConfigDir(targetDir)) && Separate(ConfigDir(bundleDir), BackupDir(targetDir, isoNow))
  }

  /** Every intermediate tree of the installation is well formed. */
  lemma InstallWellFormed(fs: Tree, targetDir: Path, bundleDir: Path, isoNow: string)
    requires WellFormed(fs) && InstallAllowed(fs, targetDir, bundleDir, isoNow)
    ensures WellFormed(WithDirectory(fs, ConfigDir(targetDir)))
    ensures WellFormed(AfterBackup(fs, targetDir, isoNow))
    ensures WellFormed(AfterAgents(fs, targetDir, bundleDir, isoNow))
    ensures WellFormed(InstallTree(fs, targetDir, bundleDir, isoNow))
  {
    WithDirectoryFacts(fs, ConfigDir(targetDir));
    BackupWellFormed(WithDirectory(fs, ConfigDir(targetDir)), targetDir, isoNow);
    CopyTreeWellFormed(AfterBackup(fs, targetDir, isoNow), CategoryDir(bundleDir, AgentsName), CategoryDir(targetDir, AgentsName));
    CopyTreeWellFormed(AfterAgents(fs, targetDir, bundleDir, isoNow), CategoryDir(bundleDir, CommandsName), CategoryDir(targetDir, CommandsName));
  }

  /** The bundle is not touched by making the target's directory or by the backup. */
  lemma BundleBeforeCopies(fs: Tree, targetDir: Path, bundleDir: Path, isoNow: string, r: Path)
    requires BundleApart(targetDir, bundleDir, isoNow)
    ensures SameAt(fs, AfterBackup(fs, targetDir, isoNow), ConfigDir(bundleDir) + r)
  {
    var x := ConfigDir(bundleDir) + r;
    SeparateExtend(ConfigDir(bundleDir), ConfigDir(targetDir), r);
    SeparateExtend(ConfigDir(bundleDir), BackupDir(targetDir, isoNow), r);
    WithDirectoryFrame(fs, ConfigDir(targetDir), x);
    BackupFrame(WithDirectory(fs, ConfigDir(targetDir)), targetDir, isoNow, x);
  }

  /** Nor by copying into the target's configuration. */
  lemma BundleApartFromTarget(targetDir: Path, bundleDir: Path, r: Path, r': Path)
    requires Separate(ConfigDir(bundleDir), ConfigDir(targetDir))
    ensures Separate(ConfigDir(bundleDir) + r, ConfigDir(targetDir) + r')
  {
    SeparateExtend(ConfigDir(bundleDir), ConfigDir(targetDir), r);
    SeparateExtend(ConfigDir(targetDir), ConfigDir(bundleDir) + r, r');
  }

  /** The target's categories are not touched by making its directory or by the backup. */
  lemma TargetBeforeCopies(fs: Tree, targetDir: Path, isoNow: string, c: Name, r: Path)
    ensures SameAt(fs, AfterBackup(fs, targetDir, isoNow), CategoryDir(targetDir, c) + r)
  {
    var x := CategoryDir(targetDir, c) + r;
    ConfigDirMakesNoCategory(fs, targetDir, c, r);
    CategoryPath(targetDir, c, r);
    BackupDirBesideConfig(targetDir, isoNow, [], [c] + r);
    assert BackupDir(targetDir, isoNow) + [] == BackupDir(targetDir, isoNow);
    BackupFrame(WithDirectory(fs, ConfigDir(targetDir)), targetDir, isoNow, x);
  }

  /** Copying the bundled commands does not touch the installed agents. */
  lemma CommandsCopyLeavesAgents(fs: Tree, targetDir: Path, bundleDir: Path, isoNow: string, r: Path)
    ensures SameAt(AfterAgents(fs, targetDir, bundleDir, isoNow), InstallTree(fs, targetDir, bundleDir, isoNow), CategoryDir(targetDir, AgentsName) + r)
  {
    Diverge(ConfigDir(targetDir), AgentsName, CommandsName, r, []);
    assert CategoryDir(targetDir, CommandsName) + [] == CategoryDir(targetDir, CommandsName);
    CopyTreeFrame(AfterAgents(fs, targetDir, bundleDir, isoNow), CategoryDir(bundleDir, CommandsName), CategoryDir(targetDir, CommandsName),
      CategoryDir(targetDir, AgentsName) + r);
  }

  /** Listing the installed `agents` gives the entries it had before together
      with the bundled ones (install.js counts this listing). */
  lemma InstalledAgents(fs: Tree, targetDir: Path, bundleDir: Path, isoNow: string)
    requires WellFormed(fs) && InstallAllowed(fs, targetDir, bundleDir, isoNow)
    requires BundleApart(targetDir, bundleDir, isoNow)
    ensures Children(InstallTree(fs, targetDir, bundleDir, isoNow), CategoryDir(targetDir, AgentsName)) ==
      Children(fs, CategoryDir(targetDir, AgentsName)) + Children(fs, CategoryDir(bundleDir, AgentsName))
  {
    var t2 := AfterBackup(fs, targetDir, isoNow);
    var t3 := AfterAgents(fs, targetDir, bundleDir, isoNow);
    var t4 := InstallTree(fs, targetDir, bundleDir, isoNow);
    var target, source := CategoryDir(targetDir, AgentsName), CategoryDir(bundleDir, AgentsName);
    InstallWellFormed(fs, targetDir, bundleDir, isoNow);
    forall n ensures SameAt(fs, t2, target + [n]) && SameAt(fs, t2, source + [n]) && SameAt(t3, t4, target + [n]) {
      TargetBeforeCopies(fs, targetDir, isoNow, AgentsName, [n]);
      CategoryPath(bundleDir, AgentsName, [n]);
      BundleBeforeCopies(fs, targetDir, bundleDir, isoNow, [AgentsName] + [n]);
      CommandsCopyLeavesAgents(fs, targetDir, bundleDir, isoNow, [n]);
    }
    ChildrenFrame(fs, t2, target);
    ChildrenFrame(fs, t2, source);
    ChildrenFrame(t3, t4, target);
    CopyTreeChildren(t2, source, target);
  }

  /** Listing the installed `commands` gives the entries it had before
      together with the bundled ones. */
  lemma InstalledCommands(fs: Tree, targetDir: Path, bundleDir: Path, isoNow: string)
    requires WellFormed(fs) && InstallAllowed(fs, targetDir, bundleDir, isoNow)
    requires BundleApart(targetDir, bundleDir, isoNow)
    ensures Children(InstallTree(fs, targetDir, bundleDir, isoNow), CategoryDir(targetDir, CommandsName)) ==
      Children(fs, CategoryDir(targetDir, CommandsName)) + Children(fs, CategoryDir(bundleDir, CommandsName))
  {
    var t2 := AfterBackup(fs, targetDir, isoNow);
    var t3 := AfterAgents(fs, targetDir, bundleDir, isoNow);
    var target, source := CategoryDir(targetDir, CommandsName), CategoryDir(bundleDir, CommandsName);
    var agentsSource, agentsTarget := CategoryDir(bundleDir, AgentsName), CategoryDir(targetDir, AgentsName);
    InstallWellFormed(fs, targetDir, bundleDir, isoNow);
    forall n ensures SameAt(fs, t3, target + [n]) && SameAt(fs, t3, source + [n]) {
      TargetBeforeCopies(fs, targetDir, isoNow, CommandsName, [n]);
      CategoryPath(bundleDir, CommandsName, [n]);
      BundleBeforeCopies(fs, targetDir, bundleDir, isoNow, [CommandsName] + [n]);
      CategoryPath(targetDir, CommandsName, [n]);
      Diverge(ConfigDir(targetDir), CommandsName, AgentsName, [n], []);
      assert agentsTarget + [] == agentsTarget;
      CopyTreeFrame(t2, agentsSource, agentsTarget, target + [n]);
      CategoryPath(targetDir, AgentsName, []);
      BundleApartFromTarget(targetDir, bundleDir, [CommandsName] + [n], [AgentsName]);
      CopyTreeFrame(t2, agentsSource, agentsTarget, source + [n]);
    }
    ChildrenFrame(fs, t3, target);
    ChildrenFrame(fs, t3, source);
    CopyTreeChildren(t3, source, target);
  }

  /** Installing into a target without either category: each count is the
      number of bundled entries of that category. */
  lemma FreshInstallCounts(fs: Tree, targetDir: Path, bundleDir: Path, isoNow: string)
    requires WellFormed(fs) && InstallAllowed(fs, targetDir, bundleDir, isoNow)
    requires BundleApart(targetDir, bundleDir, isoNow)
    requires !HasConfig(fs, targetDir)
    ensures |Children(InstallTree(fs, targetDir, bundleDir, isoNow), CategoryDir(targetDir, AgentsName))| ==
      |Children(fs, CategoryDir(bundleDir, AgentsName))|
    ensures |Children(InstallTree(fs, targetDir, bundleDir, isoNow), CategoryDir(targetDir, CommandsName))| ==
      |Children(fs, CategoryDir(bundleDir, CommandsName))|
  {
    InstalledAgents(fs, targetDir, bundleDir, isoNow);
    InstalledCommands(fs, targetDir, bundleDir, isoNow);
    NothingBelowAbsent(fs, CategoryDir(targetDir, AgentsName));
    NothingBelowAbsent(fs, CategoryDir(targetDir, CommandsName));
  }

  /** An absent directory lists nothing. */
  lemma NothingBelowAbsent(fs: Tree, p: Path)
    requires WellFormed(fs) && p !in fs
    ensures Children(fs, p) == {}
  {
    forall n ensures n !in Children(fs, p) {
      ChildrenMember(fs, p, n);
    }
  }

  /** Every bundled entry is installed at the same relative place, with
      identical contents. */
  lemma InstallCopiesBundle(fs: Tree, targetDir: Path, bundleDir: Path, isoNow: string, c: Name, r: Path)
    requires WellFormed(fs) && InstallAllowed(fs, targetDir, bundleDir, isoNow)
    requires BundleApart(targetDir, bundleDir, isoNow)
    requires IsCategory(c) && r != [] && CategoryDir(bundleDir, c) + r in fs
    ensures CategoryDir(targetDir, c) + r in InstallTree(fs, targetDir, bundleDir, isoNow)
    ensures InstallTree(fs, targetDir, bundleDir, isoNow)[CategoryDir(targetDir, c) + r] == fs[CategoryDir(bundleDir, c) + r]
  {
    var t2 := AfterBackup(fs, targetDir, isoNow);
    var t3 := AfterAgents(fs, targetDir, bundleDir, isoNow);
    InstallWellFormed(fs, targetDir, bundleDir, isoNow);
    CategoryPath(bundleDir, c, r);
    BundleBeforeCopies(fs, targetDir, bundleDir, isoNow, [c] + r);
    if c == AgentsName {
      CopyTreeCopiesSource(t2, CategoryDir(bundleDir, AgentsName), CategoryDir(targetDir, AgentsName), r);
      CommandsCopyLeavesAgents(fs, targetDir, bundleDir, isoNow, r);
    } else {
      CategoryPath(targetDir, AgentsName, []);
      BundleApartFromTarget(targetDir, bundleDir, [c] + r, [AgentsName]);
      CopyTreeFrame(t2, CategoryDir(bundleDir, AgentsName), CategoryDir(targetDir, AgentsName), CategoryDir(bundleDir, c) + r);
      CopyTreeCopiesSource(t3, CategoryDir(bundleDir, CommandsName), CategoryDir(targetDir, CommandsName), r);
    }
  }

  /** The configuration the target had before is kept in the backup: every
      entry of either category is there with identical contents after the
      installation has overwritten the originals. */
  lemma InstallKeepsOldConfig(fs: Tree, targetDir: Path, bundleDir: Path, isoNow: string, c: Name, r: Path)
    requires WellFormed(fs) && InstallAllowed(fs, targetDir, bundleDir, isoNow)
    requires IsCategory(c) && r != [] && CategoryDir(targetDir, c) + r in fs
    ensures BackupDir(targetDir, isoNow) + [c] + r in InstallTree(fs, targetDir, bundleDir, isoNow)
    ensures InstallTree(fs, targetDir, bundleDir, isoNow)[BackupDir(targetDir, isoNow) + [c] + r] == fs[CategoryDir(targetDir, c) + r]
  {
    var t1 := WithDirectory(fs, ConfigDir(targetDir));
    var t2 := AfterBackup(fs, targetDir, isoNow);
    var t3 := AfterAgents(fs, targetDir, bundleDir, isoNow);
    var x := BackupDir(targetDir, isoNow) + [c] + r;
    InstallWellFormed(fs, targetDir, bundleDir, isoNow);
    ConfigDirMakesNoCategory(fs, targetDir, c, r);
    BackupCopiesCategory(t1, targetDir, isoNow, c, r);
    BackupPath(targetDir, isoNow, c, r);
    CategoryPath(targetDir, AgentsName, []);
    CategoryPath(targetDir, CommandsName, []);
    BackupDirBesideConfig(targetDir, isoNow, [c] + r, [AgentsName]);
    BackupDirBesideConfig(targetDir, isoNow, [c] + r, [CommandsName]);
    CopyTreeFrame(t2, CategoryDir(bundleDir, AgentsName), CategoryDir(targetDir, AgentsName), x);
    CopyTreeFrame(t3, CategoryDir(bundleDir, CommandsName), CategoryDir(targetDir, CommandsName), x);
  }
}
