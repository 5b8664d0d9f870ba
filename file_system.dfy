/**
 * The part of the file system the output writers touch: a map from path to
 * node, plus the paths on which an I/O operation fails (missing rights, a
 * full disk, a locked file).  The Java calls OutputWriterHelper relies on
 * (File.exists/isFile/isDirectory/delete/mkdirs and FileUtils.copyFile) are
 * given as functions over that map and as methods of a Disk object that
 * holds it.
 */
module FileSystem {

  /** A path is its sequence of names; File(dir, name) is dir + [name]. */
  type Path = seq<string>

  datatype Node = File(content: seq<bv8>) | Directory

  type Nodes = map<Path, Node>

  /** Where the environment makes an operation fail. */
  datatype Env = Env(
    unreadable: set<Path>,
    unwritable: set<Path>,
    undeletable: set<Path>,
    unmakeable: set<Path>)

  /** new File(dir, name). */
  function Child(dir: Path, name: string): (p: Path)
    ensures |p| == |dir| + 1 && p[..|dir|] == dir && p[|dir|] == name
  {
    dir + [name]
  }

  /** Two children of one directory are the same path exactly when their names are. */
  lemma ChildInjective(dir: Path, a: string, b: string)
    ensures Child(dir, a) == Child(dir, b) <==> a == b
  {
    if Child(dir, a) == Child(dir, b) {
      assert Child(dir, a)[|dir|] == Child(dir, b)[|dir|];
    }
  }

  predicate IsFile(nodes: Nodes, p: Path)
  {
    p in nodes && nodes[p].File?
  }

  predicate IsDirectory(nodes: Nodes, p: Path)
  {
    p in nodes && nodes[p].Directory?
  }

  /** a is a directory on the way to p: a non-empty proper prefix of it. */
  predicate Ancestor(a: Path, p: Path)
  {
    0 < |a| < |p| && p[..|a|] == a
  }

  /** Some path below p is present. */
  predicate HasChildren(nodes: Nodes, p: Path)
  {
    exists q :: q in nodes && Ancestor(p, q)
  }

  /** What File.delete can remove: a file, or a directory with nothing in it. */
  predicate Removable(nodes: Nodes, p: Path)
  {
    p in nodes && (nodes[p].File? || !HasChildren(nodes, p))
  }

  /** File.delete: a file or an empty directory goes away unless the
      environment refuses; a missing path or a directory that still holds
      something stays.  Nothing else changes. */
  function Deleted(nodes: Nodes, env: Env, p: Path): (r: Nodes)
    ensures p in r <==> p in nodes && (p in env.undeletable || !Removable(nodes, p))
    ensures forall q :: q != p ==> (q in r <==> q in nodes)
    ensures forall q :: q in r ==> q in nodes && r[q] == nodes[q]
  {
    if Removable(nodes, p) && p !in env.undeletable then nodes - {p} else nodes
  }

  /** File.mkdirs walks the first k names of p from the top: none of them
      is a file, and each missing one can be made. */
  predicate MkdirsReaches(nodes: Nodes, env: Env, p: Path, k: nat)
    requires k <= |p|
  {
    forall j :: 0 < j <= k ==> !IsFile(nodes, p[..j]) && (p[..j] !in nodes ==> p[..j] !in env.unmakeable)
  }

  /** Every directory on the way to p can be walked or made. */
  predicate ParentsReady(nodes: Nodes, env: Env, p: Path)
  {
    |p| == 0 || MkdirsReaches(nodes, env, p, |p| - 1)
  }

  /** File.mkdirs on the parent of p: the missing ancestors are made from
      the top down, and the first one that is a file or cannot be made
      stops it; the ones made before it stay. */
  function Mkdirs(nodes: Nodes, env: Env, p: Path): (r: Nodes)
    ensures forall q :: q in r <==> q in nodes || (Ancestor(q, p) && MkdirsReaches(nodes, env, p, |q|))
    ensures forall q :: q in nodes ==> r[q] == nodes[q]
    ensures forall q :: q in r && q !in nodes ==> r[q] == Directory
    ensures ParentsReady(nodes, env, p) ==> forall q :: Ancestor(q, p) ==> q in r
  {
    var made := set k | 0 < k < |p| && MkdirsReaches(nodes, env, p, k) :: p[..k];
    assert forall q :: Ancestor(q, p) && MkdirsReaches(nodes, env, p, |q|) <==> q in made by {
      forall q | Ancestor(q, p) && MkdirsReaches(nodes, env, p, |q|)
        ensures q in made
      {
        assert q == p[..|q|];
      }
    }
    map q | q in nodes.Keys + made :: if q in nodes then nodes[q] else Directory
  }

  /** The checks FileUtils.copyFile makes before it touches the disk: the
      source is an existing file and the target a different path. */
  predicate CopyStarts(nodes: Nodes, input: Path, output: Path)
  {
    IsFile(nodes, input) && input != output
  }

  /** When FileUtils.copyFile completes: past those checks the parent
      directories can all be made, the target is not a directory and can
      be written, and the source can be read. */
  predicate CopySucceeds(nodes: Nodes, env: Env, input: Path, output: Path)
  {
    && CopyStarts(nodes, input, output)
    && ParentsReady(nodes, env, output)
    && !IsDirectory(nodes, output)
    && input !in env.unreadable
    && output !in env.unwritable
  }

  /** The file system after FileUtils.copyFile.  Once the source and target
      pass its first checks it makes the parent directories, and they stay
      whether or not the copy then throws; on success the target holds the
      source's content. */
  function Copied(nodes: Nodes, env: Env, input: Path, output: Path): (r: Nodes)
    ensures CopySucceeds(nodes, env, input, output) ==> output in r && r[output] == nodes[input]
    ensures !CopySucceeds(nodes, env, input, output) ==>
      (output in r <==> output in nodes) && (output in nodes ==> r[output] == nodes[output])
    ensures forall q :: q != output ==>
      (q in r <==> q in nodes || (CopyStarts(nodes, input, output) && Ancestor(q, output) && MkdirsReaches(nodes, env, output, |q|)))
    ensures forall q :: q in nodes && q != output ==> r[q] == nodes[q]
    ensures forall q :: q in r && q !in nodes && q != output ==> r[q] == Directory
    ensures !CopyStarts(nodes, input, output) ==> r == nodes
  {
    if !CopyStarts(nodes, input, output) then nodes
    else
      var made := Mkdirs(nodes, env, output);
      if CopySucceeds(nodes, env, input, output) then made[output := nodes[input]] else made
  }

  /** The disk the writers work on. */
  class Disk {
    var nodes: Nodes
    const env: Env

    constructor(nodes: Nodes, env: Env)
      ensures this.nodes == nodes && this.env == env
    {
      this.nodes := nodes;
      this.env := env;
    }

    /** File.delete: true when the file went away. */
    method Delete(p: Path) returns (deleted: bool)
      modifies this
      ensures nodes == Deleted(old(nodes), env, p)
      ensures deleted <==> p in old(nodes) && p !in nodes
    {
      deleted := Removable(nodes, p) && p !in env.undeletable;
      if deleted {
        nodes := nodes - {p};
      }
    }

    /** FileUtils.copyFile: false when it throws IOException. */
    method Copy(input: Path, output: Path) returns (ok: bool)
      modifies this
      ensures ok == CopySucceeds(old(nodes), env, input, output)
      ensures nodes == Copied(old(nodes), env, input, output)
    {
      ok := CopySucceeds(nodes, env, input, output);
      if CopyStarts(nodes, input, output) {
        var source := nodes[input];
        nodes := Mkdirs(nodes, env, output);
        if ok {
          nodes := nodes[output := source];
        }
      }
    }
  }
}
