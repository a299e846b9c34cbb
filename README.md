# Agent Workbench installer: a verified model

`install.js` installs a bundled set of agent and command definitions into the
`.claude` directory of the current project. It does three things that can be
stated exactly, and this project models each one and proves what it promises.

1. **The version gate** (`checkClaudeVersion`, `isVersionValid`).
   - The first `\d+\.\d+\.\d+` in the tool's version output is the current version. Output without one ends the run as unparsable.
   - The current version must be at least the configured minimum. Components are compared numerically, most significant first.
2. **The backup name.** The backup directory's name is the ISO-8601 time with `:` and `.` replaced by `-` and the last five characters cut off, after the prefix `.claude.backup.`.
3. **Backup, copy and install** (`backupExistingConfig`, `copyDirectory`, `installConfig`).
   - When `agents` or `commands` exists in the target's `.claude`, each existing one is copied recursively into the backup directory.
   - The bundled `agents` and `commands` are then copied over the target's.
   - The summary counts what each target directory lists afterwards.

Modules:

- `Wrappers`: `Option` and `Result`.
- `Versions`: version strings and triples. Splitting on `.`, `Number` on digit strings, the reference order `AtLeast`, and the loop `IsVersionValid` proved to decide it.
- `VersionGate`: a scanner equivalent to the regular expression, and `CheckClaudeVersion`.
- `BackupNaming`: the backup directory's name as a function of the time text.
- `FileSystem`: the disk as a map from paths (sequences of names) to `Dir` or `File(bytes)`. It is well formed when every ancestor of an entry is a directory. The class `Disk` holds that map and has one method per `fs` call the installer makes.
- `Copying`: `CopyTree`, the tree after `copyDirectory(src, dest)` as a function of the tree before it. `CopyDirectory` is the recursive method that walks the directories, and it is proved to produce exactly `CopyTree`. The lemmas next to it state what the copy does.
- `Installer`: `BackupExistingConfig` and `InstallConfig` as methods on a `Disk`. Each is specified by a composition of `WithDirectory` (a recursive `mkdir`) and `CopyTree`, and lemmas state what the backup and the installation leave behind.

Copying into a destination that already exists **merges**. A recursive `mkdir` of an existing directory does nothing, and `copyFileSync` replaces an existing file. Entries already in the destination that the source does not have stay where they are. The counts in the summary are listings of the target directories, so they include such entries too (`Installer.InstalledAgents`).

`install.js` copies only `agents` and `commands`, so the model has no other category.

## Model

| member | source | states |
|---|---|---|
| Versions.IsVersionValid | install.js:63-73 | on well-formed version strings the loop returns true exactly when the current triple is at least the minimum in lexicographic order |
| Versions.AtLeastReflexive | install.js:67-72 | every version passes a minimum equal to itself |
| Versions.AtLeastTotal | install.js:63-73 | of any two versions, at least one passes the other as minimum |
| Versions.AtLeastAntisymmetric | install.js:63-73 | two versions pass each other exactly when they are equal |
| Versions.AtLeastTransitive | install.js:63-73 | passing is transitive |
| Versions.FirstDifferenceDecides | install.js:67-70 | the first differing component, major then minor then patch, decides; later components do not matter |
| Versions.NumericNotTextual | install.js:64-69 | 1.10.0 passes a 1.9.0 minimum and not the reverse: components are numbers, not text |
| Versions.ComparisonExamples | install.js:67-72 | 2.0.0 passes 1.9.9, 1.9.9 fails 2.0.0, 1.2.3 passes 1.2.3 |
| Versions.Split | install.js:64-65 | `split('.')` yields at least one piece and no piece contains the separator |
| Versions.SplitJoin | install.js:64-65 | splitting pieces joined with the separator gives the pieces back |
| Versions.JoinSplit | install.js:64-65 | joining the pieces of a split gives the string back |
| Versions.NumberValueOfDecimalText | install.js:64-65 | `Number` of a number's decimal text is that number |
| Versions.DottedTriple | install.js:64-65 | three digit runs joined by dots split into exactly those three pieces and form a version string |
| Versions.VersionTextPieces | install.js:64-65 | every version string is its three pieces joined by dots |
| Versions.ParseFormat | install.js:64-65 | every triple has a version string that parses back to it |
| VersionGate.DigitRunEnd | install.js:28 | a greedy `\d+` from a position ends at the first non-digit, and everything it consumes is a digit |
| VersionGate.MatchAtSound | install.js:28 | a match of the pattern at a position is a version string |
| VersionGate.MatchAtComplete | install.js:28 | every version string starting at a position is found there, and no match from that position is longer than the greedy one |
| VersionGate.FirstMatchFrom | install.js:28 | the first position from which the pattern matches, and no match before it |
| VersionGate.FindVersion | install.js:28 | no match exactly when the output contains no version string; otherwise the leftmost, longest version string |
| VersionGate.ExtractVersion | install.js:28-35 | the extracted text is a version string, and there is none exactly when the pattern finds none |
| VersionGate.CheckClaudeVersion | install.js:22-51 | output without a version is rejected as unparsable; otherwise the version is returned when it is at least the minimum and rejected as too old when not |
| VersionGate.ExtractAfterWords | install.js:27-28 | words without digits before a version string are skipped, and the whole version is extracted |
| VersionGate.ExtractFromBanner | install.js:27-28 | "claude version 1.0.44" yields "1.0.44" |
| BackupNaming.ReplaceSeparators | install.js:88 | same length, no `:` or `.` left, every `:` and `.` becomes `-` and every other character stays |
| BackupNaming.BackupDirName | install.js:88-89 | the name is at least as long as its prefix |
| BackupNaming.BackupDirNameShape | install.js:88-89 | the name is the prefix then the input without its last five characters, separators mapped to `-`, with no `:` or `.` after the prefix |
| BackupNaming.BackupDirNameOfTimestamp | install.js:88-89 | for a `toISOString` timestamp, the name keeps the date and the time to the second |
| BackupNaming.SameNameIffSameSecond | install.js:88-89 | two runs share a backup name exactly when their clocks agree to the second |
| BackupNaming.BackupDirNameIsNotConfigDir | install.js:89 | the backup directory is never named `.claude` |
| FileSystem.ChildrenMember | install.js:109 | a name is listed in a directory exactly when the path below it exists |
| FileSystem.WithDirectoryFacts | install.js:107 | a recursive `mkdir` keeps the tree well formed, makes the path and its ancestors directories, and changes nothing else |
| FileSystem.WithDirectoryFrame | install.js:91 | a recursive `mkdir` leaves every path that is not an ancestor of its target as it was |
| FileSystem.Disk.Exists | install.js:80-81 | `existsSync` is true exactly when the path has an entry |
| FileSystem.Disk.IsDirectory | install.js:115 | `isDirectory` is true exactly for directories |
| FileSystem.Disk.ReadDirectory | install.js:109 | `readdirSync` lists exactly the names of the entries directly below the directory |
| FileSystem.Disk.MakeDirectory | install.js:107 | `mkdirSync(p, {recursive: true})` adds `p` and its missing ancestors as directories and keeps the tree well formed |
| FileSystem.Disk.CopyFile | install.js:118 | `copyFileSync` gives the destination the source's entry, replacing a file already there, and changes nothing else |
| Copying.CopyDirectory | install.js:106-121 | the recursive copy leaves exactly `CopyTree` of the tree it started from, and the tree stays well formed |
| Copying.CopyTreeCopiesSource | install.js:106-121 | every entry below `src` is at the same relative place below `dest`, with identical file contents, and directories stay directories |
| Copying.CopyTreeBelowDest | install.js:106-121 | below `dest` there is an entry exactly when there was one before or the source has one; the source's entry replaces the old one, and other old entries stay |
| Copying.CopyTreeFrame | install.js:106-121 | nothing outside `dest` and its ancestors changes, the source included |
| Copying.CopyTreeMakesDest | install.js:107 | `dest` and its ancestors are directories afterwards |
| Copying.CopyTreeWellFormed | install.js:106-121 | a copy that raises no error keeps the tree well formed |
| Copying.CopyTreeChildren | install.js:107-119 | listing `dest` afterwards gives its old names together with the names in `src` |
| Copying.CopyTreeParentChildren | install.js:107 | listing the parent of `dest` afterwards gives its old names plus the name of `dest` |
| Copying.CopyPartAt | install.js:111-120 | after the entries named so far are copied: what is at each path, and where it came from |
| Copying.CopyPartFacts | install.js:111-120 | part way through the copy the tree is well formed, the source is unchanged, and names not yet copied are untouched below `dest` |
| Copying.CopyPartFileStep | install.js:117-119 | copying one file of the listing writes only that file's destination |
| Copying.CopyPartDirStep | install.js:115-116 | the recursive call for a subdirectory extends the partial copy by exactly that subdirectory |
| Copying.CopyEntry | install.js:111-120 | one turn of the loop takes the partial copy of the names done so far to the partial copy that also holds the current entry, and keeps the tree well formed |
| Copying.CopyStart | install.js:107-109 | after `mkdirSync(dest)` nothing is copied yet, the source is still a directory, and its listing is what it was |
| Copying.FileStepElsewhere | install.js:117-119 | copying a file leaves every path other than its destination as it was |
| Copying.CopyAllowedBelow | install.js:115-116 | the recursive call meets no file-system error when the parent call meets none |
| Copying.DescendantsShrink | install.js:115-116 | the recursive call is on a directory with fewer entries below it, so the copy ends |
| Installer.BackupExistingConfig | install.js:75-104 | no backup exactly when neither category exists; otherwise the backup directory is returned, and the disk holds `BackupTree` of the tree before |
| Installer.BackupCopiesCategory | install.js:93-101 | every entry of an existing category is in the backup at the same relative place with identical contents |
| Installer.BackupCopiesAgents | install.js:93-96 | every entry of an existing `agents` is in the backup's `agents` with identical contents, and the later `commands` copy keeps it |
| Installer.BackupCopiesCommands | install.js:98-101 | every entry of an existing `commands` is in the backup's `commands` with identical contents |
| Installer.CommandsBackupKeepsAgents | install.js:98-101 | copying `commands` into the backup leaves the backup of `agents` as it was |
| Installer.BackupHoldsOnlyExisting | install.js:83-101 | a new backup directory lists exactly the categories that existed |
| Installer.AgentsBackupLists | install.js:91-96 | once `agents` is copied, a new backup directory lists `agents` exactly when it existed, and nothing else |
| Installer.BackupFrame | install.js:91-101 | the backup changes nothing outside the backup directory and its ancestors, so the configuration being backed up is untouched |
| Installer.BackupWellFormed | install.js:91-101 | the backup keeps the tree well formed |
| Installer.CommandsSurviveAgentsBackup | install.js:93-100 | backing up `agents` leaves `commands` as it was |
| Installer.BackupDirBesideConfig | install.js:76-89 | the backup directory and the configuration directory lie outside each other |
| Installer.ConfigDirMakesNoCategory | install.js:129 | making the target's `.claude` neither creates nor changes either category |
| Installer.InstallConfig | install.js:123-155 | the disk holds `InstallTree` of the tree before; the summary has the target, the backup path exactly when a category existed, each count as the listing size of its target directory, and the total as their sum |
| Installer.InstallWellFormed | install.js:129-141 | every intermediate tree of the installation is well formed |
| Installer.TargetBeforeCopies | install.js:129-132 | the target's categories are unchanged until the bundle is copied over them |
| Installer.BundleBeforeCopies | install.js:125-132 | the bundle is unchanged by making the target's directory and by the backup |
| Installer.CommandsCopyLeavesAgents | install.js:140-141 | copying the bundled commands does not touch the installed agents |
| Installer.InstalledAgents | install.js:140-144 | the listing counted as `agentFiles` is the old `agents` names together with the bundled ones |
| Installer.InstalledCommands | install.js:141-145 | the listing counted as `commandFiles` is the old `commands` names together with the bundled ones |
| Installer.FreshInstallCounts | install.js:140-146 | installing where neither category exists, each count is the number of bundled entries of that category |
| Installer.NothingBelowAbsent | install.js:144-145 | an absent directory lists nothing |
| Installer.InstallCopiesBundle | install.js:135-141 | every bundled entry is installed at the same relative place with identical contents |
| Installer.InstallKeepsOldConfig | install.js:129-141 | every entry of the old configuration is in the backup with identical contents after the installation has overwritten the originals |

## Left out

- Running `claude --version` (install.js:25) is not modelled. Its trimmed output is the input `versionOutput`, and `trim` does not change which version the pattern finds.
- The tool-missing branch (install.js:53-59) is not modelled. It is process I/O: `ENOENT` or "command not found" ends the run, and any other error is re-thrown.
- `process.exit(1)` is not modelled. The two exits of the gate are the `Failure` values `Unparsable` and `TooOld`.
- Reading `config.json` (install.js:38-40) is not modelled. The minimum version is the input `minVersion`.
- VersionGate.CheckClaudeVersion: requires a well-formed minimum version; a malformed minimum is excluded. In the source a `NaN` or `undefined` component compares false both ways and is skipped, so a later component can still decide; extra components are ignored; an empty piece reads as 0; and `Number` trims surrounding spaces. None of this JavaScript coercion is modelled.
- Versions.IsVersionValid: requires both arguments to be well-formed version strings, for the same reason. Components are exact naturals, whereas JavaScript's `Number` rounds digit strings above 2^53.
- The clock (`new Date()`) is not modelled. The ISO-8601 text is the input `isoNow`.
- The working directory and the installer's own directory are the inputs `targetDir` and `bundleDir`.
- Paths are sequences of names. `path.join`'s normalisation of `..`, `.` and separators is not modelled.
- Console output, colours and `main` (install.js:7-20, 157-202) are presentational and not modelled.
- Directory listing order is not modelled. `readdirSync` returns a set. When no call fails, the order in which entries are copied does not change the result.
- File-system failures are not modelled. The source lets every `fs` error end the run, so the model states the conditions under which no call fails as preconditions:
  - `CopyAllowed`: the source and destination lie outside each other, and no existing file or directory of the other kind is in the way;
  - `BackupAllowed` and `InstallAllowed`: the same conditions, step by step.
- What a failure part way through leaves on disk is not modelled.
- Copying.CopyDirectory: requires the source and destination to lie outside each other. A source and destination that lie inside one another are not modelled: a directory copied onto itself, into its own subtree, or onto one of its ancestors (as in copying `/a/b` to `/a`). That includes running the installer from its own directory, where the bundle and the target coincide.
- Symbolic links, permissions, timestamps and other file metadata are not modelled. Files are their bytes.
