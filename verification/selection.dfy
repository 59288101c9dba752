/** `_add_paths`: how chosen files and folders enter the list of selected
    paths. A folder contributes its top-level entries with a supported
    extension; a file is taken when its extension is supported; nothing is
    added twice. */
module Selection {
  import opened Paths

  /** What the file system answers: the regular files, and for every
      directory the names `os.listdir` returns for it, in that order. */
  datatype Disk = Disk(files: set<string>, dirs: map<string, seq<string>>) {
    /** Directory entries are bare names: none contains a `/`. */
    predicate Valid() {
      forall d :: d in dirs ==> EntryNames(dirs[d])
    }
  }

  predicate EntryNames(names: seq<string>) {
    forall k :: 0 <= k < |names| ==> '/' !in names[k]
  }

  predicate NoDuplicates(s: seq<string>) {
    forall i, j :: 0 <= i < j < |s| ==> s[i] != s[j]
  }

  /** `r` keeps `sel` as its prefix, repeats nothing `sel` did not repeat,
      and only appends supported paths that were not yet selected. */
  ghost predicate Extends(sel: seq<string>, r: seq<string>) {
    && |sel| <= |r|
    && r[..|sel|] == sel
    && (NoDuplicates(sel) ==> NoDuplicates(r))
    && forall i :: |sel| <= i < |r| ==> Supported(r[i]) && r[i] !in sel
  }

  lemma ExtendsTransitive(a: seq<string>, b: seq<string>, c: seq<string>)
    requires Extends(a, b) && Extends(b, c)
    ensures Extends(a, c)
  {
    assert c[..|a|] == c[..|b|][..|a|];
    forall i | |a| <= i < |c|
      ensures Supported(c[i]) && c[i] !in a
    {
      if i < |b| {
        assert c[i] == b[i];
      } else {
        assert forall k :: 0 <= k < |a| ==> a[k] == b[k];
      }
    }
  }

  lemma ExtendsSelf(sel: seq<string>)
    ensures Extends(sel, sel)
  {
    assert sel[..|sel|] == sel;
  }

  lemma ExtendsAppend(sel: seq<string>, f: string)
    requires Supported(f) && f !in sel
    ensures Extends(sel, sel + [f])
  {
    assert (sel + [f])[..|sel|] == sel;
  }

  /** The rest of a list of bare names is a list of bare names. */
  lemma EntryNamesTail(names: seq<string>)
    requires EntryNames(names) && names != []
    ensures EntryNames(names[1..])
  {
    forall k | 0 <= k < |names| - 1
      ensures '/' !in names[1..][k]
    {
      assert names[1..][k] == names[k + 1];
    }
  }

  /** One entry `name` of folder `dir`: its path is appended when its
      extension is supported and it is not selected yet. */
  function AddEntry(sel: seq<string>, dir: string, name: string): (next: seq<string>)
    requires '/' !in name
    ensures Extends(sel, next)
    ensures next == sel || next == sel + [Join(dir, name)]
    ensures Supported(name) && Join(dir, name) !in sel ==> next == sel + [Join(dir, name)]
  {
    var f := Join(dir, name);
    JoinName(dir, name);
    if Supported(name) && f !in sel then ExtendsAppend(sel, f); sel + [f]
    else ExtendsSelf(sel); sel
  }

  /** The inner loop over a folder's entries. */
  function AddEntries(sel: seq<string>, dir: string, names: seq<string>): (r: seq<string>)
    requires EntryNames(names)
    ensures Extends(sel, r)
    decreases |names|
  {
    if names == [] then ExtendsSelf(sel); sel
    else
      EntryNamesTail(names);
      var next := AddEntry(sel, dir, names[0]);
      var r := AddEntries(next, dir, names[1..]);
      ExtendsTransitive(sel, next, r);
      r
  }

  /** The folder loop over `a + b` is the loop over `a` followed by the loop
      over `b`: entries are appended in the order `os.listdir` gives them. */
  lemma {:induction false} AddEntriesAppend(sel: seq<string>, dir: string, a: seq<string>, b: seq<string>)
    requires EntryNames(a) && EntryNames(b)
    ensures EntryNames(a + b)
    ensures AddEntries(sel, dir, a + b) == AddEntries(AddEntries(sel, dir, a), dir, b)
    decreases |a|
  {
    assert EntryNames(a + b) by {
      forall k | 0 <= k < |a + b|
        ensures '/' !in (a + b)[k]
      {
        if k < |a| {
          assert (a + b)[k] == a[k];
        } else {
          assert (a + b)[k] == b[k - |a|];
        }
      }
    }
    if a == [] {
      assert a + b == b;
    } else {
      assert (a + b)[0] == a[0];
      assert (a + b)[1..] == a[1..] + b;
      EntryNamesTail(a);
      AddEntriesAppend(AddEntry(sel, dir, a[0]), dir, a[1..], b);
    }
  }

  /** One path of the outer loop. */
  function AddPath(sel: seq<string>, p: string, disk: Disk): (r: seq<string>)
    requires disk.Valid()
    ensures Extends(sel, r)
  {
    ExtendsSelf(sel);
    if p in sel then sel
    else if p in disk.dirs then AddEntries(sel, p, disk.dirs[p])
    else if p in disk.files && Supported(p) then ExtendsAppend(sel, p); sel + [p]
    else sel
  }

  /** `_add_paths` over all chosen paths, in order. */
  function AddPaths(sel: seq<string>, paths: seq<string>, disk: Disk): (r: seq<string>)
    requires disk.Valid()
    ensures Extends(sel, r)
    decreases |paths|
  {
    if paths == [] then ExtendsSelf(sel); sel
    else
      var next := AddPath(sel, paths[0], disk);
      var r := AddPaths(next, paths[1..], disk);
      ExtendsTransitive(sel, next, r);
      r
  }

  /** `_add_paths` over `a + b` is `_add_paths` over `a` followed by
      `_add_paths` over `b`: chosen paths are handled in the order given. */
  lemma {:induction false} AddPathsAppend(sel: seq<string>, a: seq<string>, b: seq<string>, disk: Disk)
    requires disk.Valid()
    ensures AddPaths(sel, a + b, disk) == AddPaths(AddPaths(sel, a, disk), b, disk)
    decreases |a|
  {
    if a == [] {
      assert a + b == b;
    } else {
      assert (a + b)[0] == a[0];
      assert (a + b)[1..] == a[1..] + b;
      AddPathsAppend(AddPath(sel, a[0], disk), a[1..], b, disk);
    }
  }

  /** The count in the log line "Added n file(s).". */
  function AddedCount(sel: seq<string>, paths: seq<string>, disk: Disk): (n: nat)
    requires disk.Valid()
    ensures n == 0 <==> AddPaths(sel, paths, disk) == sel
  {
    |AddPaths(sel, paths, disk)| - |sel|
  }

  lemma ExtendsKeeps(a: seq<string>, b: seq<string>, x: string)
    requires Extends(a, b) && x in a
    ensures x in b
  {
    var i :| 0 <= i < |a| && a[i] == x;
    assert b[..|a|][i] == x;
  }

  /** Nothing selected is ever dropped. */
  lemma AddPathsKeeps(sel: seq<string>, paths: seq<string>, disk: Disk, x: string)
    requires disk.Valid()
    requires x in sel
    ensures x in AddPaths(sel, paths, disk)
  {
    ExtendsKeeps(sel, AddPaths(sel, paths, disk), x);
  }

  /** An entry of a folder with a supported extension ends up selected. */
  lemma {:induction false} AddEntriesHas(sel: seq<string>, dir: string, names: seq<string>, n: string)
    requires EntryNames(names)
    requires n in names && Supported(n)
    ensures Join(dir, n) in AddEntries(sel, dir, names)
    decreases |names|
  {
    var f := Join(dir, names[0]);
    var next := AddEntry(sel, dir, names[0]);
    var tail := names[1..];
    EntryNamesTail(names);
    var r := AddEntries(next, dir, tail);
    assert AddEntries(sel, dir, names) == r;
    if n == names[0] {
      assert f in next;
      ExtendsKeeps(next, r, f);
    } else {
      assert n in tail;
      AddEntriesHas(next, dir, tail, n);
    }
  }

  /** Every entry of a folder with a supported extension ends up selected. */
  lemma AddEntriesComplete(sel: seq<string>, dir: string, names: seq<string>)
    requires EntryNames(names)
    ensures forall k :: 0 <= k < |names| && Supported(names[k]) ==> Join(dir, names[k]) in AddEntries(sel, dir, names)
  {
    forall k | 0 <= k < |names| && Supported(names[k])
      ensures Join(dir, names[k]) in AddEntries(sel, dir, names)
    {
      AddEntriesHas(sel, dir, names, names[k]);
    }
  }

  /** Completeness of `_add_paths`: every chosen regular file with a supported
      extension is selected afterwards, and so is every supported entry of
      every chosen folder, unless the folder's own path was already among the
      selected ones (which makes `_add_paths` skip it). */
  lemma {:induction false} AddPathsComplete(sel: seq<string>, paths: seq<string>, disk: Disk)
    requires disk.Valid()
    ensures forall p :: p in paths && p in disk.files && p !in disk.dirs && Supported(p) ==>
      p in AddPaths(sel, paths, disk)
    ensures forall d, k ::
      (&& d in paths && d in disk.dirs && d !in AddPaths(sel, paths, disk)
       && 0 <= k < |disk.dirs[d]| && Supported(disk.dirs[d][k])) ==>
        Join(d, disk.dirs[d][k]) in AddPaths(sel, paths, disk)
    decreases |paths|
  {
    if paths != [] {
      var p := paths[0];
      var next := AddPath(sel, p, disk);
      var r := AddPaths(sel, paths, disk);
      AddPathsComplete(next, paths[1..], disk);
      assert r == AddPaths(next, paths[1..], disk);
      if p in disk.files && p !in disk.dirs && Supported(p) {
        assert p in next;
        AddPathsKeeps(next, paths[1..], disk, p);
      }
      if p in disk.dirs && p !in r {
        if p in sel {
          AddPathsKeeps(sel, paths, disk, p);
        }
        AddEntriesComplete(sel, p, disk.dirs[p]);
        forall k | 0 <= k < |disk.dirs[p]| && Supported(disk.dirs[p][k])
          ensures Join(p, disk.dirs[p][k]) in r
        {
          AddPathsKeeps(next, paths[1..], disk, Join(p, disk.dirs[p][k]));
        }
      }
      forall q | q in paths[1..]
        ensures q in paths
      {
      }
    }
  }

  /** An entry `x` of folder `dir`, as `_add_paths` builds its path. */
  ghost predicate EntryOf(x: string, dir: string, names: seq<string>) {
    exists n :: n in names && x == Join(dir, n)
  }

  /** The folder loop adds nothing but the folder's own entries. */
  lemma {:induction false} AddEntriesSound(sel: seq<string>, dir: string, names: seq<string>, x: string)
    requires EntryNames(names)
    ensures x in AddEntries(sel, dir, names) && x !in sel ==> EntryOf(x, dir, names)
    decreases |names|
  {
    if names != [] && x in AddEntries(sel, dir, names) && x !in sel {
      var f := Join(dir, names[0]);
      var next := AddEntry(sel, dir, names[0]);
      var tail := names[1..];
      EntryNamesTail(names);
      assert AddEntries(sel, dir, names) == AddEntries(next, dir, tail);
      if x == f {
        assert names[0] in names;
      } else {
        assert x !in next;
        AddEntriesSound(next, dir, tail, x);
        var n :| n in tail && x == Join(dir, n);
        assert n in names;
      }
    }
  }

  /** Soundness of `_add_paths`, the converse of `AddPathsComplete`: every
      newly selected path is a chosen regular file or an entry of a chosen
      folder. */
  lemma {:induction false} AddPathsSound(sel: seq<string>, paths: seq<string>, disk: Disk, x: string)
    requires disk.Valid()
    ensures x in AddPaths(sel, paths, disk) && x !in sel ==>
      || (x in paths && x in disk.files)
      || exists d :: d in paths && d in disk.dirs && EntryOf(x, d, disk.dirs[d])
    decreases |paths|
  {
    if paths != [] && x in AddPaths(sel, paths, disk) && x !in sel {
      var p := paths[0];
      var next := AddPath(sel, p, disk);
      assert AddPaths(sel, paths, disk) == AddPaths(next, paths[1..], disk);
      if x in next {
        if p !in sel && p in disk.dirs {
          AddEntriesSound(sel, p, disk.dirs[p], x);
        }
      } else {
        AddPathsSound(next, paths[1..], disk, x);
        if x in paths[1..] && x in disk.files {
        } else {
          var d :| d in paths[1..] && d in disk.dirs && EntryOf(x, d, disk.dirs[d]);
          assert d in paths;
        }
      }
    }
  }
}
