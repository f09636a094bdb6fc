/** The directories the pipeline writes into. */
module Files {
  import opened Common

  /** The files of a directory after writing `data` to `name`: a write to a name the
      filesystem refuses leaves the directory as it was. */
  function Written(files: map<string, string>, rejects: set<string>, name: string, data: string): (r: map<string, string>)
    ensures name !in rejects ==> name in r && r[name] == data
    ensures forall k :: k != name ==> (k in r <==> k in files) && (k in r ==> r[k] == files[k])
    ensures name in rejects ==> r == files
  {
    if name in rejects then files else files[name := data]
  }

  /** One directory: its files by base name, and the names whose os.WriteFile fails. */
  class Folder {
    var files: map<string, string>
    const rejects: set<string>

    constructor (initial: map<string, string>, refused: set<string>)
      ensures files == initial && rejects == refused
    {
      files := initial;
      rejects := refused;
    }

    /** fd.FileExists */
    predicate Exists(name: string)
      reads this
    {
      name in files
    }

    /** os.WriteFile(dir/name, data) */
    method Write(name: string, data: string) returns (ok: bool)
      modifies this
      ensures ok == (name !in rejects)
      ensures files == Written(old(files), rejects, name, data)
    {
      ok := name !in rejects;
      if ok {
        files := files[name := data];
      }
    }
  }
}
