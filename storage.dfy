/** The host's vault as the snippet store sees it: the configuration directory and the
    storage behind the vault's file adapter. The host is not part of this model; its
    four primitives below are given the plain meaning of a path-keyed store. */
module Storage {

  /** What a path of local storage holds. */
  datatype Entry = File(content: string) | Folder

  class Vault {
    /** The vault's configuration directory (the host's `vault.configDir`). */
    const configDir: string
    /** Local storage: every path that exists, with what it holds. */
    var entries: map<string, Entry>

    constructor (configDir: string, entries: map<string, Entry>)
      ensures this.configDir == configDir && this.entries == entries
    {
      this.configDir := configDir;
      this.entries := entries;
    }

    /** `adapter.exists`: whether anything, file or folder, is stored at `path`. */
    method Exists(path: string) returns (b: bool)
      ensures b <==> path in entries
    {
      b := path in entries;
    }

    /** `adapter.mkdir` */
    method Mkdir(path: string)
      modifies this
      ensures entries == old(entries)[path := Folder]
    {
      entries := entries[path := Folder];
    }

    /** `vault.create`: stores a new file holding `content` at `path`. */
    method Create(path: string, content: string)
      modifies this
      ensures entries == old(entries)[path := File(content)]
    {
      entries := entries[path := File(content)];
    }

    /** `adapter.remove` */
    method Remove(path: string)
      modifies this
      ensures entries == old(entries) - {path}
    {
      entries := entries - {path};
    }
  }
}
