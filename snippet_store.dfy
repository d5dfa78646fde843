/** Installing, removing and looking up snippet files in the vault's snippets folder.
    A snippet is installed exactly when something (normally its file) is stored at the
    path derived from its id; there is no other record of installation. */
module SnippetStore {
  import opened Storage

  /** The folder that holds installed snippets, inside the configuration folder. */
  function SnippetsFolder(configDir: string): (f: string)
    ensures |f| > |configDir| && f[..|configDir| + 1] == configDir + "/"
  {
    configDir + "/snippets"
  }

  /** The file of snippet `id`: `<id>.css` inside the snippets folder. */
  function SnippetPath(configDir: string, id: string): (p: string)
    ensures |p| == |SnippetsFolder(configDir)| + |id| + 5
    ensures p[..|SnippetsFolder(configDir)| + 1] == SnippetsFolder(configDir) + "/"
    ensures p[|p| - 4..] == ".css"
    ensures p[|SnippetsFolder(configDir)| + 1..|p| - 4] == id
    ensures p != SnippetsFolder(configDir)
  {
    SnippetsFolder(configDir) + "/" + id + ".css"
  }

  /** Different ids never share a file, so at most one file belongs to each id. */
  lemma SnippetPathInjective(configDir: string, a: string, b: string)
    requires SnippetPath(configDir, a) == SnippetPath(configDir, b)
    ensures a == b
  {
    var n := |SnippetsFolder(configDir)| + 1;
    var p := SnippetPath(configDir, a);
    assert p[n..n + |a|] == a;
    assert SnippetPath(configDir, b)[n..n + |b|] == b;
  }

  /** The state `checkSnippetExists` reports: something is stored at the snippet's path. */
  predicate IsInstalled(entries: map<string, Entry>, configDir: string, id: string) {
    SnippetPath(configDir, id) in entries
  }

  datatype InstallOutcome = Installed | AlreadyExists
  datatype UninstallOutcome = Deleted | NotFound

  /** The storage after installing `code` as snippet `id`, and the outcome reported.
      The snippets folder is created first when it is missing; an existing file is never
      overwritten. */
  function InstallEffect(entries: map<string, Entry>, configDir: string, id: string, code: string)
    : (r: (map<string, Entry>, InstallOutcome))
    ensures var folder, path := SnippetsFolder(configDir), SnippetPath(configDir, id);
      && (r.1 == AlreadyExists <==> IsInstalled(entries, configDir, id))
      && IsInstalled(r.0, configDir, id)
      && (r.1 == AlreadyExists ==> r.0[path] == entries[path])
      && (r.1 == Installed ==> r.0[path] == File(code))
      && folder in r.0
      && r.0[folder] == (if folder in entries then entries[folder] else Folder)
      && r.0 - {folder, path} == entries - {folder, path}
  {
    var folder, path := SnippetsFolder(configDir), SnippetPath(configDir, id);
    var withFolder := if folder in entries then entries else entries[folder := Folder];
    if path in withFolder then (withFolder, AlreadyExists)
    else (withFolder[path := File(code)], Installed)
  }

  /** The storage after removing snippet `id`, and the outcome reported: the file is
      removed when it exists, and nothing else is touched. */
  function UninstallEffect(entries: map<string, Entry>, configDir: string, id: string)
    : (r: (map<string, Entry>, UninstallOutcome))
    ensures r.1 == Deleted <==> IsInstalled(entries, configDir, id)
    ensures r.0 == entries - {SnippetPath(configDir, id)}
    ensures !IsInstalled(r.0, configDir, id)
  {
    var path := SnippetPath(configDir, id);
    if path in entries then (entries - {path}, Deleted) else (entries, NotFound)
  }

  /** `install(id, code)`: ensure the snippets folder exists, refuse an existing file,
      otherwise create the file. */
  method Install(vault: Vault, id: string, code: string) returns (outcome: InstallOutcome)
    modifies vault
    ensures (vault.entries, outcome) == InstallEffect(old(vault.entries), vault.configDir, id, code)
  {
    var folder := SnippetsFolder(vault.configDir);
    var path := SnippetPath(vault.configDir, id);
    var folderExists := vault.Exists(folder);
    if !folderExists {
      vault.Mkdir(folder);
    }
    var fileExists := vault.Exists(path);
    if fileExists {
      return AlreadyExists;
    }
    vault.Create(path, code);
    return Installed;
  }

  /** `uninstall(id)`: remove the snippet's file when it exists. */
  method Uninstall(vault: Vault, id: string) returns (outcome: UninstallOutcome)
    modifies vault
    ensures (vault.entries, outcome) == UninstallEffect(old(vault.entries), vault.configDir, id)
  {
    var path := SnippetPath(vault.configDir, id);
    var fileExists := vault.Exists(path);
    if fileExists {
      vault.Remove(path);
      return Deleted;
    }
    return NotFound;
  }

  /** `checkSnippetExists(id)` */
  method CheckSnippetExists(vault: Vault, id: string) returns (installed: bool)
    ensures installed <==> IsInstalled(vault.entries, vault.configDir, id)
  {
    installed := vault.Exists(SnippetPath(vault.configDir, id));
  }

  /** Installing twice with different contents keeps the first contents and reports
      that the snippet already exists the second time. */
  lemma InstallTwiceKeepsFirst(entries: map<string, Entry>, configDir: string, id: string, first: string, second: string)
    requires !IsInstalled(entries, configDir, id)
    ensures var (once, o1) := InstallEffect(entries, configDir, id, first);
            var (twice, o2) := InstallEffect(once, configDir, id, second);
            o1 == Installed && o2 == AlreadyExists && twice == once
            && twice[SnippetPath(configDir, id)] == File(first)
  {
  }

  /** Round trip: a fresh install is reported as installed, and removing it afterwards
      leaves storage as it was apart from the snippets folder the install created. */
  lemma InstallThenUninstall(entries: map<string, Entry>, configDir: string, id: string, code: string)
    requires !IsInstalled(entries, configDir, id)
    ensures var (installed, o1) := InstallEffect(entries, configDir, id, code);
            var (removed, o2) := UninstallEffect(installed, configDir, id);
            var folder := SnippetsFolder(configDir);
            && o1 == Installed && IsInstalled(installed, configDir, id)
            && o2 == Deleted && !IsInstalled(removed, configDir, id)
            && removed == (if folder in entries then entries else entries[folder := Folder])
  {
  }

  /** Removing twice removes at most one file: the second removal reports that the
      snippet does not exist and changes nothing. */
  lemma UninstallTwiceChangesNothing(entries: map<string, Entry>, configDir: string, id: string)
    ensures var (once, _) := UninstallEffect(entries, configDir, id);
            UninstallEffect(once, configDir, id) == (once, NotFound)
  {
  }

  /** Installing one snippet leaves whether any other snippet is installed, and its
      file, as they were. */
  lemma InstallLeavesOtherSnippets(entries: map<string, Entry>, configDir: string, id: string, code: string, other: string)
    requires other != id
    ensures var after := InstallEffect(entries, configDir, id, code).0;
            var otherPath := SnippetPath(configDir, other);
            && (IsInstalled(after, configDir, other) <==> IsInstalled(entries, configDir, other))
            && (IsInstalled(entries, configDir, other) ==> after[otherPath] == entries[otherPath])
  {
    var after := InstallEffect(entries, configDir, id, code).0;
    var folder, otherPath := SnippetsFolder(configDir), SnippetPath(configDir, other);
    if otherPath == SnippetPath(configDir, id) {
      SnippetPathInjective(configDir, other, id);
    }
    assert otherPath !in {folder, SnippetPath(configDir, id)};
    assert (otherPath in after) == (otherPath in after - {folder, SnippetPath(configDir, id)});
    assert (otherPath in entries) == (otherPath in entries - {folder, SnippetPath(configDir, id)});
  }

  /** Removing one snippet leaves whether any other snippet is installed, and its file,
      as they were. */
  lemma UninstallLeavesOtherSnippets(entries: map<string, Entry>, configDir: string, id: string, other: string)
    requires other != id
    ensures var after := UninstallEffect(entries, configDir, id).0;
            var otherPath := SnippetPath(configDir, other);
            && (IsInstalled(after, configDir, other) <==> IsInstalled(entries, configDir, other))
            && (IsInstalled(entries, configDir, other) ==> after[otherPath] == entries[otherPath])
  {
    if SnippetPath(configDir, other) == SnippetPath(configDir, id) {
      SnippetPathInjective(configDir, other, id);
    }
  }
}
