/**
 * The loops of the tool over a list of names, as functions of the disk:
 * `mkdirSync`, `renameSync` and `unlinkSync` applied to each name of a
 * list, in order.  Each function states what is needed to keep the next
 * call defined; the rest of its effect is a separate lemma.
 */
module Folds {
  import opened AbstractFs

  predicate Distinct(s: seq<Name>) {
    forall i, j :: 0 <= i < j < |s| ==> s[i] != s[j]
  }

  /** Names that can be created in a folder with listing `l`, one after
      the other: none is taken and none comes twice. */
  predicate FreshNames(l: Listing, names: seq<Name>) {
    Distinct(names) && forall n :: n in names ==> n !in l
  }

  /** The last name of a list of distinct names is not among the others. */
  lemma LastIsNew(s: seq<Name>)
    requires s != [] && Distinct(s)
    ensures s == s[..|s| - 1] + [s[|s| - 1]]
    ensures Distinct(s[..|s| - 1]) && s[|s| - 1] !in s[..|s| - 1]
    ensures forall n :: n in s <==> n in s[..|s| - 1] || n == s[|s| - 1]
  {
    assert s == s[..|s| - 1] + [s[|s| - 1]];
  }

  /** `mkdirSync(parent/n)` for each name `n`, in order: each must be new,
      so `parent` ends up with exactly those entries added. */
  function MkdirAll(fs: Fs, parent: Path, names: seq<Name>): (r: Fs)
    requires WellFormed(fs) && parent in fs && FreshNames(fs[parent], names)
    ensures WellFormed(r) && parent in r
    ensures forall n :: n in r[parent] <==> n in fs[parent] || n in names
    decreases |names|
  {
    if names == [] then fs
    else
      LastIsNew(names);
      var k := |names| - 1;
      Mkdir(MkdirAll(fs, parent, names[..k]), parent, names[k])
  }

  /** The rest of what `MkdirAll` does: each new entry is an empty folder,
      the entries `parent` had keep their kind, no other folder is created
      and no other listing changes. */
  lemma {:induction false} MkdirAllEffect(fs: Fs, parent: Path, names: seq<Name>)
    requires WellFormed(fs) && parent in fs && FreshNames(fs[parent], names)
    ensures var r := MkdirAll(fs, parent, names);
      && fs.Keys <= r.Keys
      && (forall n :: n in r[parent] ==> r[parent][n] == if n in names then Dir else fs[parent][n])
      && (forall n :: n in names ==> parent + [n] in r && r[parent + [n]] == map[])
      && (forall p :: p in r && p !in fs ==> exists n :: n in names && p == parent + [n])
      && (forall p :: p in fs && p != parent ==> r[p] == fs[p])
    decreases |names|
  {
    if names != [] {
      LastIsNew(names);
      var k := |names| - 1;
      MkdirAllEffect(fs, parent, names[..k]);
      var before := MkdirAll(fs, parent, names[..k]);
      MkdirStep(fs, parent, names[..k], names[k], before, Mkdir(before, parent, names[k]));
    }
  }

  /** Each name of the list is an empty folder once `MkdirAll` is done. */
  lemma MkdirAllCreated(fs: Fs, parent: Path, names: seq<Name>, n: Name)
    requires WellFormed(fs) && parent in fs && FreshNames(fs[parent], names) && n in names
    ensures var r := MkdirAll(fs, parent, names);
      && n in r[parent] && r[parent][n] == Dir && parent + [n] in r && r[parent + [n]] == map[]
  {
    MkdirAllEffect(fs, parent, names);
  }

  /** One more folder created keeps `MkdirAllEffect`'s description. */
  lemma MkdirStep(fs: Fs, parent: Path, front: seq<Name>, m: Name, before: Fs, r: Fs)
    requires WellFormed(fs) && parent in fs && m !in fs[parent] && m !in front
    requires fs.Keys <= before.Keys
    requires forall n :: n in before[parent] <==> n in fs[parent] || n in front
    requires forall n :: n in before[parent] ==> before[parent][n] == if n in front then Dir else fs[parent][n]
    requires forall n :: n in front ==> parent + [n] in before && before[parent + [n]] == map[]
    requires forall p :: p in before && p !in fs ==> exists n :: n in front && p == parent + [n]
    requires forall p :: p in fs && p != parent ==> before[p] == fs[p]
    requires r.Keys == before.Keys + {parent + [m]}
    requires r[parent] == before[parent][m := Dir] && r[parent + [m]] == map[]
    requires forall p :: p in before && p != parent ==> r[p] == before[p]
    ensures fs.Keys <= r.Keys
    ensures forall n :: n in r[parent] ==> r[parent][n] == if n in front + [m] then Dir else fs[parent][n]
    ensures forall n :: n in front + [m] ==> parent + [n] in r && r[parent + [n]] == map[]
    ensures forall p :: p in r && p !in fs ==> exists n :: n in front + [m] && p == parent + [n]
    ensures forall p :: p in fs && p != parent ==> r[p] == fs[p]
  {
    var child := parent + [m];
    assert child !in fs;
    forall n | n in front + [m]
      ensures parent + [n] in r && r[parent + [n]] == map[]
    {
      if n != m {
        if parent + [n] == child { AppendInjective(parent, n, parent, m); }
      }
    }
    forall p | p in r && p !in fs
      ensures exists n :: n in front + [m] && p == parent + [n]
    {
      if p != child {
        var n :| n in front && p == parent + [n];
        assert n in front + [m];
      }
    }
  }

  /** Files that can be renamed from the working directory into `target`,
      one after the other: each is a regular file there, none comes twice,
      the target is a folder when there is anything to move, and it holds
      no folder of a file's name. */
  ghost predicate Movable(fs: Fs, files: seq<Name>, target: Path) {
    && WellFormed(fs) && target != [] && Distinct(files)
    && (files != [] ==> target in fs)
    && (forall f :: f in files ==> f in fs[[]] && fs[[]][f] == File)
    && (forall f :: f in files ==> f !in fs[target] || fs[target][f] == File)
  }

  /** `renameSync(f, target/f)` for each file `f`, in order: each leaves the
      working directory and lands in `target`, replacing a file of its name
      there. */
  function MoveAll(fs: Fs, files: seq<Name>, target: Path): (r: Fs)
    requires Movable(fs, files, target)
    ensures WellFormed(r) && r.Keys == fs.Keys
    ensures forall n :: n in r[[]] <==> n in fs[[]] && n !in files
    ensures forall n :: n in r[[]] ==> r[[]][n] == fs[[]][n]
    ensures target in fs ==> forall n :: n in r[target] <==> n in fs[target] || n in files
    ensures target in fs ==> forall n :: n in r[target] ==> r[target][n] == if n in files then File else fs[target][n]
    decreases |files|
  {
    if files == [] then fs
    else
      LastIsNew(files);
      var k := |files| - 1;
      var before := MoveAll(fs, files[..k], target);
      var r := MoveFile(before, files[k], target);
      MoveStep(fs, files[..k], files[k], target, before, r);
      r
  }

  /** One more file moved keeps `MoveAll`'s description. */
  lemma MoveStep(fs: Fs, front: seq<Name>, f: Name, target: Path, before: Fs, r: Fs)
    requires [] in fs && target in fs && target != [] && f !in front && f in fs[[]]
    requires [] in before && target in before && [] in r && target in r
    requires forall n :: n in before[[]] <==> n in fs[[]] && n !in front
    requires forall n :: n in before[[]] ==> before[[]][n] == fs[[]][n]
    requires forall n :: n in before[target] <==> n in fs[target] || n in front
    requires forall n :: n in before[target] ==> before[target][n] == if n in front then File else fs[target][n]
    requires r[[]] == before[[]] - {f} && r[target] == before[target][f := File]
    ensures forall n :: n in r[[]] <==> n in fs[[]] && n !in front + [f]
    ensures forall n :: n in r[[]] ==> r[[]][n] == fs[[]][n]
    ensures forall n :: n in r[target] <==> n in fs[target] || n in front + [f]
    ensures forall n :: n in r[target] ==> r[target][n] == if n in front + [f] then File else fs[target][n]
  {
  }

  /** `MoveAll` changes no listing other than the working directory's and
      the target's. */
  lemma {:induction false} MoveAllFrame(fs: Fs, files: seq<Name>, target: Path)
    requires Movable(fs, files, target)
    ensures var r := MoveAll(fs, files, target);
      forall p :: p in fs && p != [] && p != target ==> r[p] == fs[p]
    decreases |files|
  {
    if files != [] {
      LastIsNew(files);
      MoveAllFrame(fs, files[..|files| - 1], target);
    }
  }

  /** Files of `dir` that can be deleted one after the other: each is a
      regular file there and none comes twice. */
  ghost predicate Removable(fs: Fs, dir: Path, files: seq<Name>) {
    WellFormed(fs) && dir in fs && Distinct(files) && forall f :: f in files ==> f in fs[dir] && fs[dir][f] == File
  }

  /** `unlinkSync(dir/f)` for each file `f`, in order. */
  function UnlinkAll(fs: Fs, dir: Path, files: seq<Name>): (r: Fs)
    requires Removable(fs, dir, files)
    ensures WellFormed(r) && r.Keys == fs.Keys
    ensures forall n :: n in r[dir] <==> n in fs[dir] && n !in files
    ensures forall n :: n in r[dir] ==> r[dir][n] == fs[dir][n]
    decreases |files|
  {
    if files == [] then fs
    else
      LastIsNew(files);
      var k := |files| - 1;
      Unlink(UnlinkAll(fs, dir, files[..k]), dir, files[k])
  }

  /** `UnlinkAll` changes no listing other than `dir`'s. */
  lemma {:induction false} UnlinkAllFrame(fs: Fs, dir: Path, files: seq<Name>)
    requires Removable(fs, dir, files)
    ensures var r := UnlinkAll(fs, dir, files);
      forall p :: p in fs && p != dir ==> r[p] == fs[p]
    decreases |files|
  {
    if files != [] {
      LastIsNew(files);
      UnlinkAllFrame(fs, dir, files[..|files| - 1]);
    }
  }

  /** Looping over `names`: the names so far and the next one can still be
      created, and creating the next one extends `MkdirAll` by one. */
  lemma MkdirAllNext(fs: Fs, parent: Path, names: seq<Name>, i: nat)
    requires WellFormed(fs) && parent in fs && FreshNames(fs[parent], names) && i < |names|
    ensures FreshNames(fs[parent], names[..i]) && FreshNames(fs[parent], names[..i + 1])
    ensures var before := MkdirAll(fs, parent, names[..i]);
      && names[i] !in before[parent]
      && MkdirAll(fs, parent, names[..i + 1]) == Mkdir(before, parent, names[i])
  {
    DistinctPrefix(names, i);
    DistinctExtend(names, i);
  }

  /** A prefix of a list of distinct names, and the element after it. */
  lemma DistinctPrefix(s: seq<Name>, i: nat)
    requires Distinct(s) && i < |s|
    ensures Distinct(s[..i]) && s[i] !in s[..i]
    ensures forall n :: n in s[..i] ==> n in s
  {
    var u := s[..i];
    forall a, b | 0 <= a < b < |u|
      ensures u[a] != u[b]
    {
      assert u[a] == s[a] && u[b] == s[b];
    }
    forall k | 0 <= k < |u|
      ensures u[k] != s[i]
    {
      assert u[k] == s[k];
    }
  }

  /** One more element of a list of distinct names, which is not among
      those before it. */
  lemma DistinctExtend(s: seq<Name>, i: nat)
    requires i < |s| && Distinct(s[..i]) && s[i] !in s[..i]
    ensures Distinct(s[..i + 1]) && s[..i + 1][..i] == s[..i]
    ensures forall n :: n in s[..i + 1] ==> n in s[..i] || n == s[i]
  {
    var t, u := s[..i + 1], s[..i];
    forall a, b | 0 <= a < b < |t|
      ensures t[a] != t[b]
    {
      if b < i {
        assert t[a] == u[a] && t[b] == u[b];
      } else {
        assert t[a] == u[a] && t[b] == s[i];
      }
    }
    forall n | n in t
      ensures n in u || n == s[i]
    {
      var k :| 0 <= k < |t| && t[k] == n;
      if k < i {
        assert u[k] == n;
      }
    }
  }

  /** Looping over `names` while the next name is new: creating it extends
      `MkdirAll` by one. */
  lemma MkdirAllExtend(fs: Fs, parent: Path, names: seq<Name>, i: nat)
    requires WellFormed(fs) && parent in fs && i < |names| && FreshNames(fs[parent], names[..i])
    requires names[i] !in fs[parent] && names[i] !in names[..i]
    ensures FreshNames(fs[parent], names[..i + 1])
    ensures var before := MkdirAll(fs, parent, names[..i]);
      && names[i] !in before[parent]
      && MkdirAll(fs, parent, names[..i + 1]) == Mkdir(before, parent, names[i])
  {
    DistinctExtend(names, i);
  }

  /** Looping over `files`: the files so far and the next one can still be
      moved, and moving the next one extends `MoveAll` by one. */
  lemma MoveAllNext(fs: Fs, files: seq<Name>, target: Path, i: nat)
    requires Movable(fs, files, target) && i < |files|
    ensures Movable(fs, files[..i], target) && Movable(fs, files[..i + 1], target)
    ensures var f, before := files[i], MoveAll(fs, files[..i], target);
      && target in before && f in before[[]] && before[[]][f] == File
      && (f !in before[target] || before[target][f] == File)
      && MoveAll(fs, files[..i + 1], target) == MoveFile(before, f, target)
  {
    DistinctPrefix(files, i);
    DistinctExtend(files, i);
    var front := files[..i + 1];
    assert Movable(fs, front, target);
    assert front[..|front| - 1] == files[..i] && front[|front| - 1] == files[i];
  }

  /** Looping over `files`: the files so far and the next one can still be
      deleted, and deleting the next one extends `UnlinkAll` by one. */
  lemma UnlinkAllNext(fs: Fs, dir: Path, files: seq<Name>, i: nat)
    requires Removable(fs, dir, files) && i < |files|
    ensures Removable(fs, dir, files[..i]) && Removable(fs, dir, files[..i + 1])
    ensures var f, before := files[i], UnlinkAll(fs, dir, files[..i]);
      && f in before[dir] && before[dir][f] == File
      && UnlinkAll(fs, dir, files[..i + 1]) == Unlink(before, dir, f)
  {
    DistinctPrefix(files, i);
    DistinctExtend(files, i);
  }
}
