/** Client code that uses only the contracts of the store's operations: a catalog
    snippet installed from a good download and removed again, a start-up without
    network, and a download that fails with a 404. */
module Scenarios {
  import opened Wrappers
  import opened Catalog
  import opened Storage
  import opened SnippetStore
  import opened Workflow

  method InstallThenRemove() {
    var vault := new Vault(".obsidian", map[]);
    var alpha := Snippet("a", "Alpha", "bob", "test", "o/r", "a");
    var good := (url: string) => Responded(true, "OK", Read("body{}"));
    var result := InstallClick(vault, alpha, true, good);
    assert result == Stored(Installed);
    assert vault.entries[SnippetPath(".obsidian", "a")] == File("body{}");
    var installed := CheckSnippetExists(vault, "a");
    assert installed;

    var again := InstallClick(vault, alpha, true, (url: string) => Responded(true, "OK", Read("other{}")));
    assert again == Stored(AlreadyExists);
    assert vault.entries[SnippetPath(".obsidian", "a")] == File("body{}");

    var removed := Uninstall(vault, "a");
    assert removed == Deleted;
    installed := CheckSnippetExists(vault, "a");
    assert !installed;
    removed := Uninstall(vault, "a");
    assert removed == NotFound;
  }

  method StartOffline(fetch: string -> Fetched<seq<Snippet>>) {
    var plugin := new CssSnippetStore();
    var notice := plugin.OnLoad(false, fetch);
    assert notice == Some(NoInternet);
    assert plugin.snippets == [];
    assert Render(plugin.snippets, "") == Message(NoConnectionMessage);
  }

  method DownloadNotFound(vault: Vault, snippet: Snippet)
    modifies vault
  {
    var missing := (url: string) => Responded(false, "Not Found", ReadThrew("not read"));
    var before := vault.entries;
    var result := InstallClick(vault, snippet, true, missing);
    assert result == Stopped(ResponseNotOk("Not Found"));
    assert vault.entries == before;
  }
}
