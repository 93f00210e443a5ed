/**
 * An abstract filesystem: the part of the disk the tool can see.
 *
 * Every directory the model knows is identified by its path from the working
 * directory (the empty path is the working directory itself) and holds a
 * listing that maps each entry name to whether it is a regular file or a
 * directory.  The three filesystem calls the tool makes that change the disk
 * (`mkdirSync`, `renameSync`, `unlinkSync`) are functions on this state; the
 * conditions under which Node would throw are their preconditions.
 */
module AbstractFs {

  /** A directory entry name as `readdirSync` returns it: never empty, never a
      path separator inside, never the special names "." and "..". */
  predicate ValidName(s: string) {
    |s| > 0 && '/' !in s && s != "." && s != ".."
  }

  type Name = s: string | ValidName(s) witness "a"

  datatype Kind = File | Dir

  type Path = seq<Name>
  type Listing = map<Name, Kind>
  type Fs = map<Path, Listing>

  function Parent(p: Path): Path
    requires p != []
  {
    p[..|p| - 1]
  }

  function Last(p: Path): Name
    requires p != []
  {
    p[|p| - 1]
  }

  /** The listings form a tree: the working directory is known, every known
      directory other than it is a directory entry of its parent, and every
      directory entry of a known directory is itself known. */
  ghost predicate WellFormed(fs: Fs) {
    && [] in fs
    && (forall p, n :: p + [n] in fs ==> p in fs && n in fs[p] && fs[p][n] == Dir)
    && (forall p, n :: p in fs && n in fs[p] && fs[p][n] == Dir ==> p + [n] in fs)
  }

  /** A path one entry below `p` is `p` extended by that entry's name. */
  lemma AppendInjective(p: Path, n: Name, q: Path, m: Name)
    requires p + [n] == q + [m]
    ensures p == q && n == m
  {
    assert |p| == |q|;
    assert p == (p + [n])[..|p|] && q == (q + [m])[..|q|];
  }

  /** `existsSync`: the path names an entry of either kind. */
  predicate Exists(fs: Fs, p: Path) {
    p == [] || (Parent(p) in fs && Last(p) in fs[Parent(p)])
  }

  /** On a well-formed disk `existsSync` finds exactly the known folders and
      the files their parents list. */
  lemma ExistsKinds(fs: Fs, p: Path)
    requires WellFormed(fs)
    ensures Exists(fs, p) <==> p in fs || (p != [] && Parent(p) in fs && Last(p) in fs[Parent(p)] && fs[Parent(p)][Last(p)] == File)
  {
    DirectoryIsKnown(fs, p);
  }

  /** On a well-formed filesystem a path exists as a directory exactly when it
      is one of the known directories. */
  lemma {:induction false} DirectoryIsKnown(fs: Fs, p: Path)
    requires WellFormed(fs)
    ensures p in fs <==> (p == [] || (Exists(fs, p) && fs[Parent(p)][Last(p)] == Dir))
  {
    if p != [] {
      var q, n := Parent(p), Last(p);
      assert q + [n] == p;
    }
  }

  /** `mkdirSync(parent/name)`: Node throws when the parent is not a directory
      or the name is taken, so both are required. */
  function Mkdir(fs: Fs, parent: Path, name: Name): (r: Fs)
    requires WellFormed(fs) && parent in fs && name !in fs[parent]
    ensures WellFormed(r)
    ensures r.Keys == fs.Keys + {parent + [name]}
    ensures r[parent] == fs[parent][name := Dir] && r[parent + [name]] == map[]
    ensures forall p :: p in fs && p != parent ==> r[p] == fs[p]
  {
    var child := parent + [name];
    assert Parent(child) == parent && Last(child) == name;
    var updated: Listing := fs[parent][name := Dir];
    var empty: Listing := map[];
    var r := fs[parent := updated][child := empty];
    forall p, n | p + [n] in r
      ensures p in r && n in r[p] && r[p][n] == Dir
    {
      if p + [n] == child {
        AppendInjective(p, n, parent, name);
      } else {
        assert p + [n] in fs;
        if p == parent { assert n != name; }
      }
    }
    forall p, n | p in r && n in r[p] && r[p][n] == Dir
      ensures p + [n] in r
    {
      if p == parent && n == name {
      } else if p != child {
        assert p in fs && n in fs[p] && fs[p][n] == Dir;
      }
    }
    r
  }

  /** `renameSync(name, target/name)` for a regular file of the working
      directory: the file leaves the working directory and appears under the
      same name in the target, replacing a regular file of that name.  Node
      throws when the target is not a directory or holds a directory of that
      name, so neither is allowed. */
  function MoveFile(fs: Fs, name: Name, target: Path): (r: Fs)
    requires WellFormed(fs) && target in fs && target != []
    requires name in fs[[]] && fs[[]][name] == File
    requires name !in fs[target] || fs[target][name] == File
    ensures WellFormed(r)
    ensures r.Keys == fs.Keys
    ensures r[[]] == fs[[]] - {name} && r[target] == fs[target][name := File]
    ensures forall p :: p in fs && p != [] && p != target ==> r[p] == fs[p]
  {
    var root: Listing := fs[[]] - {name};
    var into: Listing := fs[target][name := File];
    var r := fs[[] := root][target := into];
    assert DirNames(root) == DirNames(fs[[]]);
    assert DirNames(into) == DirNames(fs[target]);
    SameDirectoriesWellFormed(fs, r);
    r
  }

  /** `unlinkSync(dir/name)` for a regular file: the entry disappears. */
  function Unlink(fs: Fs, dir: Path, name: Name): (r: Fs)
    requires WellFormed(fs) && dir in fs
    requires name in fs[dir] && fs[dir][name] == File
    ensures WellFormed(r)
    ensures r.Keys == fs.Keys
    ensures r[dir] == fs[dir] - {name}
    ensures forall p :: p in fs && p != dir ==> r[p] == fs[p]
  {
    var rest: Listing := fs[dir] - {name};
    var r := fs[dir := rest];
    assert DirNames(rest) == DirNames(fs[dir]);
    SameDirectoriesWellFormed(fs, r);
    r
  }

  /** The names of the directory entries of a listing. */
  function DirNames(l: Listing): set<Name> {
    set n | n in l && l[n] == Dir
  }

  /** Changing only regular-file entries keeps a filesystem well formed. */
  lemma SameDirectoriesWellFormed(fs: Fs, r: Fs)
    requires WellFormed(fs) && r.Keys == fs.Keys
    requires forall p :: p in fs ==> DirNames(r[p]) == DirNames(fs[p])
    ensures WellFormed(r)
  {
    forall p, n | p + [n] in r
      ensures p in r && n in r[p] && r[p][n] == Dir
    {
      assert n in DirNames(fs[p]);
      assert n in DirNames(r[p]);
    }
    forall p, n | p in r && n in r[p] && r[p][n] == Dir
      ensures p + [n] in r
    {
      assert n in DirNames(r[p]);
      assert n in DirNames(fs[p]);
    }
  }
}
