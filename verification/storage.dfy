/** The data directory (`DATA_PATH`) the scripts read and write. */
module Storage {
  import Json

  /** What a file holds: text written with `f.write`, or a value written with `json.dump`. */
  datatype Content = TextFile(text: string) | JsonFile(value: Json.Value)

  /** The path of `name` in sub-directory `dir` of the data directory; `""` is the
      data directory itself. */
  function PathOf(dir: string, name: string): string {
    if dir == "" then name else dir + "/" + name
  }

  /** The directories that exist under the data directory and the files written so far. */
  class Disk {
    var dirs: set<string>
    var files: map<string, Content>

    constructor (dirs: set<string>, files: map<string, Content>)
      ensures this.dirs == dirs && this.files == files
    {
      this.dirs := dirs;
      this.files := files;
    }

    /** `os.makedirs(path, exist_ok=True)`: never fails, adds the directory if missing. */
    method MakeDirs(dir: string)
      modifies this
      ensures dirs == old(dirs) + {dir}
      ensures files == old(files)
    {
      dirs := dirs + {dir};
    }

    /** `with open(path, "w") as f: f.write(...)`: raises `FileNotFoundError` (here
        `ok == false`, nothing written) when the directory does not exist. */
    method WriteFile(dir: string, name: string, content: Content) returns (ok: bool)
      modifies this
      ensures ok == (dir in old(dirs))
      ensures dirs == old(dirs)
      ensures files == if ok then old(files)[PathOf(dir, name) := content] else old(files)
    {
      ok := dir in dirs;
      if ok {
        files := files[PathOf(dir, name) := content];
      }
    }
  }
}
