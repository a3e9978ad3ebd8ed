/**
 * Paths and the filesystem, as the vault sees them through `std::path`
 * and `std::fs` on a Unix host. Paths are strings; the filesystem is a
 * map from path strings to nodes, held in an object whose methods are
 * the `std::fs` calls the commands make.
 */
module Fs {
  import opened Results
  import opened Strings
  import opened Errors

  /**
   * `base.join(component)` (`PathBuf::push` on Unix): an absolute component
   * replaces the base; otherwise a '/' is inserted unless the base is empty
   * or already ends in '/'.
   */
  function Join(base: string, component: string): (r: string)
    ensures StartsWith(component, "/") ==> r == component
    ensures !StartsWith(component, "/") ==> r == base + Separator(base) + component
  {
    if StartsWith(component, "/") then component
    else base + Separator(base) + component
  }

  /** The separator `join` puts between a base and a relative component. */
  function Separator(base: string): (sep: string)
    ensures sep == "" || sep == "/"
    ensures sep == "" <==> (base == "" || base[|base| - 1] == '/')
  {
    if base == "" || EndsWith(base, "/") then "" else "/"
  }

  datatype Node =
    | Dir
    | File(data: string)
    | UnreadableFile(error: IoErrorKind)  // a file whose reading fails (permissions, not UTF-8, ...)

  /** The index of the last '/' in `path`, if any. */
  function LastSlash(path: string): (r: Option<nat>)
    ensures r.Some? ==> r.value < |path| && path[r.value] == '/'
    ensures r.Some? ==> forall i :: r.value < i < |path| ==> path[i] != '/'
    ensures r.None? ==> '/' !in path
    decreases |path|
  {
    if |path| == 0 then None
    else if path[|path| - 1] == '/' then Some(|path| - 1)
    else LastSlash(path[..|path| - 1])
  }

  /** Whether the directory that would hold `path` exists: the current directory and the root always do. */
  predicate ParentIsDir(nodes: map<string, Node>, path: string) {
    match LastSlash(path)
    case None => true
    case Some(i) => i == 0 || (path[..i] in nodes && nodes[path[..i]] == Dir)
  }

  /** The directories `create_dir_all(path)` has to exist afterwards: `path` and every proper ancestor. */
  function DirChain(path: string): (chain: set<string>)
    ensures path in chain
  {
    (set i | 0 < i < |path| && path[i] == '/' :: path[..i]) + {path}
  }

  /** `std::fs::read_to_string(path)`. */
  function ReadToString(nodes: map<string, Node>, path: string): (r: Result<string, IoError>)
    ensures r.Ok? <==> path in nodes && nodes[path].File?
    ensures r.Ok? ==> r.value == nodes[path].data
  {
    if path !in nodes then Err(IoError(NotFound, "No such file or directory (os error 2)"))
    else match nodes[path]
      case Dir => Err(IoError(IsADirectory, "Is a directory (os error 21)"))
      case UnreadableFile(kind) => Err(IoError(kind, ""))
      case File(data) => Ok(data)
  }

  /** The nodes after a successful `create_dir_all(path)`, or None when a node on the way is not a directory. */
  function CreateDirAllOn(nodes: map<string, Node>, path: string): Option<map<string, Node>> {
    if forall d :: d in DirChain(path) && d in nodes ==> nodes[d] == Dir then
      Some(nodes + map d | d in DirChain(path) :: Dir)
    else None
  }

  /** The nodes after a successful `write(path, data)`, or None when the parent is missing or `path` is a directory. */
  function WriteOn(nodes: map<string, Node>, path: string, data: string): Option<map<string, Node>> {
    if ParentIsDir(nodes, path) && !(path in nodes && nodes[path] == Dir) then Some(nodes[path := File(data)])
    else None
  }

  /** The nodes after a successful `remove_file(path)`, or None when `path` is missing or a directory. */
  function RemoveFileOn(nodes: map<string, Node>, path: string): Option<map<string, Node>> {
    if path in nodes && nodes[path] != Dir then Some(nodes - {path}) else None
  }

  /** After `create_dir_all` the path and its ancestors are directories and nothing else changed. */
  lemma CreateDirAllEffect(nodes: map<string, Node>, path: string)
    ensures CreateDirAllOn(nodes, path).Some? <==> forall d :: d in DirChain(path) && d in nodes ==> nodes[d] == Dir
    ensures CreateDirAllOn(nodes, path).Some? ==>
      var after := CreateDirAllOn(nodes, path).value;
      && path in after && after[path] == Dir
      && after.Keys == nodes.Keys + DirChain(path)
      && (forall d :: d in DirChain(path) ==> after[d] == Dir)
      && forall q :: q in nodes ==> after[q] == nodes[q]
  {
  }

  /** A file written can be read back, and no other path changes. */
  lemma WriteThenRead(nodes: map<string, Node>, path: string, data: string)
    requires WriteOn(nodes, path, data).Some?
    ensures ReadToString(WriteOn(nodes, path, data).value, path) == Ok(data)
    ensures forall q :: q != path ==> (q in WriteOn(nodes, path, data).value <==> q in nodes)
    ensures forall q :: q != path && q in nodes ==> WriteOn(nodes, path, data).value[q] == nodes[q]
  {
  }

  /** Removing a file deletes exactly that path. */
  lemma RemoveFileEffect(nodes: map<string, Node>, path: string)
    requires RemoveFileOn(nodes, path).Some?
    ensures path !in RemoveFileOn(nodes, path).value
    ensures forall q :: q != path ==> (q in RemoveFileOn(nodes, path).value <==> q in nodes)
    ensures forall q :: q != path && q in nodes ==> RemoveFileOn(nodes, path).value[q] == nodes[q]
  {
  }

  class FileSystem {
    var nodes: map<string, Node>

    constructor (initial: map<string, Node>)
      ensures nodes == initial
    {
      nodes := initial;
    }

    /** `Path::exists`. */
    predicate Exists(path: string)
      reads this
    {
      path in nodes
    }

    /** `Path::is_dir`. */
    predicate IsDir(path: string)
      reads this
    {
      path in nodes && nodes[path] == Dir
    }

    /** `std::fs::create_dir_all`: creates `path` and its missing ancestors; fails if one of them is not a directory. */
    method CreateDirAll(path: string) returns (r: Result<(), IoError>)
      modifies this
      ensures r.Ok? <==> CreateDirAllOn(old(nodes), path).Some?
      ensures nodes == if r.Ok? then CreateDirAllOn(old(nodes), path).value else old(nodes)
    {
      var chain := DirChain(path);
      if forall d :: d in chain && d in nodes ==> nodes[d] == Dir {
        nodes := nodes + map d | d in chain :: Dir;
        r := Ok(());
      } else {
        r := Err(IoError(NotADirectory, "Not a directory (os error 20)"));
      }
    }

    /** `std::fs::write` / `File::create` followed by `write_all`: creates or truncates a file. */
    method Write(path: string, data: string) returns (r: Result<(), IoError>)
      modifies this
      ensures r.Ok? <==> WriteOn(old(nodes), path, data).Some?
      ensures nodes == if r.Ok? then WriteOn(old(nodes), path, data).value else old(nodes)
    {
      if !ParentIsDir(nodes, path) {
        r := Err(IoError(NotFound, "No such file or directory (os error 2)"));
      } else if path in nodes && nodes[path] == Dir {
        r := Err(IoError(IsADirectory, "Is a directory (os error 21)"));
      } else {
        nodes := nodes[path := File(data)];
        r := Ok(());
      }
    }

    /** `std::fs::remove_file`: deletes a file; fails on a missing path or a directory. */
    method RemoveFile(path: string) returns (r: Result<(), IoError>)
      modifies this
      ensures r.Ok? <==> RemoveFileOn(old(nodes), path).Some?
      ensures nodes == if r.Ok? then RemoveFileOn(old(nodes), path).value else old(nodes)
    {
      if path !in nodes {
        r := Err(IoError(NotFound, "No such file or directory (os error 2)"));
      } else if nodes[path] == Dir {
        r := Err(IoError(IsADirectory, "Is a directory (os error 21)"));
      } else {
        nodes := nodes - {path};
        r := Ok(());
      }
    }
  }
}
