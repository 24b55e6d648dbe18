/**
 * The directory tree the scripts read and write, as a value. A path is
 * a chain of names below a root (`op.join(a, b)` adds one); each path
 * present in the tree is a directory, a JSON file (already parsed) or
 * some other file. `os.listdir`, `op.isdir`, `open` + `json.load` and
 * `open(.., 'w')` + `json.dump` become the functions below. Each fails
 * where the script would raise; a file holding JSON that is not an object
 * fails here rather than at its first use. The error kinds follow Python's
 * for a missing path, a path directly below a regular file and a
 * directory opened as a file, while every file that does not hold a JSON
 * object fails to load with one kind, `JsonDecodeError`.
 */
module Store {
  import opened Base
  import opened Json

  datatype Path = Root | Child(parent: Path, name: string)

  datatype Entry = Dir | JsonFile(obj: JsonObject) | OtherFile

  type Tree = map<Path, Entry>

  datatype IoError =
    | FileNotFound(path: Path)
    | NotADirectory(path: Path)
    | IsADirectory(path: Path)
    | JsonDecodeError(path: Path)

  /** `op.join(dir, name)` */
  function Join(dir: Path, name: string): Path {
    Child(dir, name)
  }

  /** `op.isdir(p)` */
  predicate IsDir(t: Tree, p: Path) {
    p in t && t[p].Dir?
  }

  /** The parent of p is a regular file: the operating system answers `ENOTDIR`. */
  predicate BelowFile(t: Tree, p: Path) {
    p.Child? && p.parent in t && !t[p.parent].Dir?
  }

  /** The error for a path that is not in the tree. */
  function Missing(t: Tree, p: Path): (e: IoError)
    ensures e.NotADirectory? <==> BelowFile(t, p)
  {
    if BelowFile(t, p) then NotADirectory(p) else FileNotFound(p)
  }

  /** The names directly under p, in no particular order. */
  function Children(t: Tree, p: Path): (names: set<string>)
    ensures forall n :: n in names <==> Join(p, n) in t
  {
    set q | q in t && q.Child? && q.parent == p :: q.name
  }

  /** `os.listdir(p)` */
  function ListDir(t: Tree, p: Path): (r: Result<set<string>, IoError>)
    ensures r.Ok? <==> IsDir(t, p)
    ensures r.Ok? ==> forall n :: n in r.value <==> Join(p, n) in t
  {
    if p !in t then Err(Missing(t, p))
    else if !t[p].Dir? then Err(NotADirectory(p))
    else Ok(Children(t, p))
  }

  /** Listing a name below a regular file raises `NotADirectoryError`. */
  lemma ListDirBelowFile(t: Tree, p: Path, name: string)
    requires p in t && !t[p].Dir? && Join(p, name) !in t
    ensures ListDir(t, Join(p, name)) == Err(NotADirectory(Join(p, name)))
  {
  }

  /** `json.load(open(p))`: only a file holding JSON can be loaded. */
  function Load(t: Tree, p: Path): (r: Result<JsonObject, IoError>)
    ensures r.Ok? <==> p in t && t[p].JsonFile?
    ensures r.Ok? ==> r.value == t[p].obj
  {
    if p !in t then Err(Missing(t, p))
    else match t[p]
      case Dir => Err(IsADirectory(p))
      case OtherFile => Err(JsonDecodeError(p))
      case JsonFile(obj) => Ok(obj)
  }

  /** `json.dump(obj, open(p, 'w'))`: creates or truncates p, which needs an existing parent directory. */
  function Dump(t: Tree, p: Path, obj: JsonObject): (r: Result<Tree, IoError>)
    ensures r.Ok? <==> p.Child? && IsDir(t, p.parent) && !IsDir(t, p)
  {
    if IsDir(t, p) then Err(IsADirectory(p))
    else if p.Root? || p.parent !in t then Err(Missing(t, p))
    else if !t[p.parent].Dir? then Err(NotADirectory(p))
    else Ok(t[p := JsonFile(obj)])
  }

  /** What was dumped is what a later load reads, and nothing else in the tree changes. */
  lemma DumpThenLoad(t: Tree, p: Path, obj: JsonObject)
    requires Dump(t, p, obj).Ok?
    ensures Load(Dump(t, p, obj).value, p) == Ok(obj)
    ensures Dump(t, p, obj).value.Keys == t.Keys + {p}
    ensures forall q :: q in t && q != p ==> Dump(t, p, obj).value[q] == t[q]
  {
  }
}
