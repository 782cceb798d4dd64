/** The two JSON documents the commands edit in memory, package.json and
    npm-shrinkwrap.json, and the side effects the commands have on the
    outside world, recorded in the order they happen. */
module Documents {
  import opened Wrappers

  /** A JSON value, for fields the commands carry along without reading. */
  datatype Json =
    | Null
    | Bool(b: bool)
    | Number(n: int)
    | Str(s: string)
    | Array(items: seq<Json>)
    | Object(fields: map<string, Json>)

  /** package.json: its "version", its "dependencies" (name to version
      constraint) and every other field, kept as loaded. */
  datatype Manifest = Manifest(
    version: string,
    dependencies: map<string, string>,
    otherFields: map<string, Json>)

  /** An entry of a lockfile "dependencies" mapping. Every field may be
      missing in the file, hence the options; "dependencies" holds the
      entry's own (transitive) children. */
  datatype LockEntry = LockEntry(
    version: Option<string>,
    from: Option<string>,
    resolved: Option<string>,
    dependencies: Option<map<string, LockEntry>>,
    otherFields: map<string, Json>)

  /** npm-shrinkwrap.json: the top-level "dependencies" mapping and every
      other field. */
  datatype Lockfile = Lockfile(
    dependencies: map<string, LockEntry>,
    otherFields: map<string, Json>)

  /** What a command does to the world outside its own memory. */
  datatype Effect =
    | Npm(args: seq<string>, sync: bool)   // `npm <args>` run as a child process
    | WriteManifest(manifest: Manifest)      // package.json overwritten with this document
    | WriteLockfile(lockfile: Lockfile)      // npm-shrinkwrap.json overwritten with this document
}
