/** Values shared by every stage of the transform pipeline and the loader. */
module Common {

  datatype Option<+T> = None | Some(value: T)

  datatype Result<+T> = Ok(value: T) | Err(err: Error)

  /** The error values the pipeline returns, one constructor per failure the Go code reports. */
  datatype Error =
    | ListFailed                        // os.ReadDir / fd.WalkFileDir failed
    | ReadFailed(name: string)          // os.ReadFile / os.Open of one file failed
    | WriteFailed(name: string)         // os.WriteFile failed
    | InvalidJson(name: string)         // repaired bytes are still not valid JSON
    | BadIdentifier(id: string)         // Metadata.Identifier is not an unsigned 64-bit decimal
    | SetFailed                         // sjson.Set refused the document
    | Collision(name: string)           // FixFileName destination already exists
    | FlattenFailed(name: string)       // jt.Flatten failed
    | EntityMissing(name: string)       // flattened document has no "Entity" path
    | InvalidPathValue(name: string)    // assembled path-value object is not valid JSON
    | NotText(name: string)             // a flattened leaf that is not a string (failed val.(string))
    | UpsertFailed(col: string, id: string)
    | DropFailed(col: string)
    | ReplaceFailed(col: string, id: string)
    | FindFailed(col: string)           // a store query failed
    | NoMembership                      // the CollectionEntities singleton is not in the store
    | BadMembers(col: string)           // failed type assertion on a membership list
    | CommandFailed                     // ./process exited with an error
    | TimedOut                          // ./process did not answer within 5 seconds

  /** How a pass ends: normally, with an error returned to the caller, or with the process
      terminated (log.Fatalln, lk.FailOnErr or a panic). */
  datatype Outcome = Done | Failed(err: Error) | Aborted(err: Error)

  /** One directory entry as os.ReadDir lists it; `content` is None when reading it fails. */
  datatype Entry = Entry(name: string, content: Option<string>)

  predicate EndsWith(s: string, suffix: string) {
    |suffix| <= |s| && s[|s| - |suffix|..] == suffix
  }

  /** strings.HasSuffix(name, ".json") */
  predicate IsJsonName(name: string) {
    EndsWith(name, ".json")
  }

  /** strings.TrimSuffix */
  function TrimSuffix(s: string, suffix: string): (r: string)
    ensures EndsWith(s, suffix) ==> r + suffix == s
    ensures !EndsWith(s, suffix) ==> r == s
  {
    if EndsWith(s, suffix) then s[..|s| - |suffix|] else s
  }
}
