/**
 The unpacked project as a tree, the top-down walk `os.walk` performs over it
 once test directories are pruned, and the flattening of the kept files into
 one directory by base name.

 The walk in the source deletes each pruned directory from disk before
 `os.walk` would descend into it; `os.walk` then finds the directory gone and
 yields nothing for it. Here a pruned directory is simply not descended into.
 At every level the files of that level are handled first, then the
 remaining subdirectories are walked in listing order.
 */
module SourceTree {

  import opened NameFilter

  /** A directory entry in listing order: a file, or a directory and its entries. */
  datatype Node = File(name: string) | Dir(name: string, children: seq<Node>)

  /** Where a file sits below the project root: the directories leading to it
      (outermost first) and its base name. */
  datatype FilePath = FilePath(dirs: seq<string>, name: string)

  /** The same path seen from one level below its first directory. */
  function Tail(p: FilePath): FilePath
    requires |p.dirs| > 0
  {
    FilePath(p.dirs[1..], p.name)
  }

  /** Paths found inside directory `d`, seen from the directory holding `d`. */
  function Under(d: string, ps: seq<FilePath>): seq<FilePath> {
    seq(|ps|, i requires 0 <= i < |ps| => FilePath([d] + ps[i].dirs, ps[i].name))
  }

  /** The `files` list `os.walk` yields for one level. */
  function LevelFiles(cs: seq<Node>): seq<FilePath> {
    if cs == [] then []
    else (if cs[0].File? then [FilePath([], cs[0].name)] else []) + LevelFiles(cs[1..])
  }

  /** Every file the walk reaches below a directory with entries `cs`, in the
      order the walk handles them. */
  function Walk(cs: seq<Node>): seq<FilePath>
    decreases cs, 1
  {
    LevelFiles(cs) + Descend(cs)
  }

  /** The walks of the subdirectories of one level that survive pruning. */
  function Descend(cs: seq<Node>): seq<FilePath>
    decreases cs, 0
  {
    if cs == [] then []
    else
      (match cs[0]
       case File(_) => []
       case Dir(d, children) => if IsTestDir(d) then [] else Under(d, Walk(children)))
      + Descend(cs[1..])
  }

  /** `p` names a file of the tree with entries `cs`. */
  ghost predicate Contains(cs: seq<Node>, p: FilePath)
    decreases |p.dirs|
  {
    if p.dirs == [] then exists i :: 0 <= i < |cs| && cs[i] == File(p.name)
    else exists i :: 0 <= i < |cs| && cs[i].Dir? && cs[i].name == p.dirs[0] && Contains(cs[i].children, Tail(p))
  }

  /** No directory on the way to the file is a test directory. */
  predicate Unpruned(p: FilePath) {
    forall i :: 0 <= i < |p.dirs| ==> !IsTestDir(p.dirs[i])
  }

  lemma {:induction false} LevelFilesAreFiles(cs: seq<Node>, p: FilePath)
    ensures p in LevelFiles(cs) <==> p.dirs == [] && exists i :: 0 <= i < |cs| && cs[i] == File(p.name)
    decreases |cs|
  {
    if cs != [] {
      LevelFilesAreFiles(cs[1..], p);
      if p.dirs == [] && (exists i :: 0 <= i < |cs[1..]| && cs[1..][i] == File(p.name)) {
        var i :| 0 <= i < |cs[1..]| && cs[1..][i] == File(p.name);
        assert cs[i + 1] == File(p.name);
      }
      if p.dirs == [] && (exists i :: 0 <= i < |cs| && cs[i] == File(p.name)) {
        var i :| 0 <= i < |cs| && cs[i] == File(p.name);
        if i > 0 {
          assert cs[1..][i - 1] == File(p.name);
        }
      }
    }
  }

  lemma UnderMembership(d: string, ps: seq<FilePath>, p: FilePath)
    ensures p in Under(d, ps) <==> |p.dirs| > 0 && p.dirs[0] == d && Tail(p) in ps
  {
    if p in Under(d, ps) {
      var i :| 0 <= i < |ps| && Under(d, ps)[i] == p;
      assert Tail(p) == ps[i];
    }
    if |p.dirs| > 0 && p.dirs[0] == d && Tail(p) in ps {
      var i :| 0 <= i < |ps| && ps[i] == Tail(p);
      assert Under(d, ps)[i] == p;
    }
  }

  /** The surviving subdirectory the walk reaches `p` through. */
  ghost predicate DescendsVia(cs: seq<Node>, p: FilePath, i: int)
    requires |p.dirs| > 0
  {
    0 <= i < |cs| && cs[i].Dir? && cs[i].name == p.dirs[0] && !IsTestDir(cs[i].name) &&
    Tail(p) in Walk(cs[i].children)
  }

  lemma {:induction false} DescendReaches(cs: seq<Node>, p: FilePath)
    ensures p in Descend(cs) <==> |p.dirs| > 0 && exists i :: DescendsVia(cs, p, i)
    decreases |cs|
  {
    if cs != [] {
      DescendReaches(cs[1..], p);
      if |p.dirs| > 0 {
        DescendsViaShift(cs, p);
      }
      match cs[0]
      case File(_) =>
        assert Descend(cs) == Descend(cs[1..]);
      case Dir(d, children) =>
        var here := if IsTestDir(d) then [] else Under(d, Walk(children));
        assert Descend(cs) == here + Descend(cs[1..]);
        if !IsTestDir(d) {
          UnderMembership(d, Walk(children), p);
        }
        assert p in here <==> |p.dirs| > 0 && DescendsVia(cs, p, 0);
    }
  }

  /** A subdirectory after the first is one of the rest. */
  lemma DescendsViaShift(cs: seq<Node>, p: FilePath)
    requires cs != [] && |p.dirs| > 0
    ensures (exists i :: DescendsVia(cs, p, i)) <==> DescendsVia(cs, p, 0) || exists i :: DescendsVia(cs[1..], p, i)
  {
    if exists i :: DescendsVia(cs, p, i) {
      var i :| DescendsVia(cs, p, i);
      if i > 0 {
        assert DescendsVia(cs[1..], p, i - 1);
      }
    }
    if exists i :: DescendsVia(cs[1..], p, i) {
      var i :| DescendsVia(cs[1..], p, i);
      assert DescendsVia(cs, p, i + 1);
    }
  }

  /** The walk reaches exactly the files of the tree that no test directory
      hides: a file inside a pruned subtree is never reached, and every other
      file is. */
  lemma {:induction false} WalkReachesUnprunedFiles(cs: seq<Node>, p: FilePath)
    ensures p in Walk(cs) <==> Contains(cs, p) && Unpruned(p)
    decreases |p.dirs|
  {
    LevelFilesAreFiles(cs, p);
    DescendReaches(cs, p);
    if |p.dirs| > 0 {
      forall i | 0 <= i < |cs| && cs[i].Dir?
        ensures Tail(p) in Walk(cs[i].children) <==> Contains(cs[i].children, Tail(p)) && Unpruned(Tail(p))
      {
        WalkReachesUnprunedFiles(cs[i].children, Tail(p));
      }
      assert Unpruned(p) <==> !IsTestDir(p.dirs[0]) && Unpruned(Tail(p)) by {
        if !IsTestDir(p.dirs[0]) && Unpruned(Tail(p)) {
          forall j | 0 <= j < |p.dirs|
            ensures !IsTestDir(p.dirs[j])
          {
            if j > 0 {
              assert p.dirs[j] == Tail(p).dirs[j - 1];
            }
          }
        }
      }
      if p in Walk(cs) {
        var i :| DescendsVia(cs, p, i);
        assert Contains(cs, p);
      }
      if Contains(cs, p) && Unpruned(p) {
        var i :| 0 <= i < |cs| && cs[i].Dir? && cs[i].name == p.dirs[0] && Contains(cs[i].children, Tail(p));
        assert DescendsVia(cs, p, i);
      }
    }
  }

  /** `shutil.move(<file>, <container>/<basename>)` for every reached file the
      name filter keeps, in walk order: the destination maps each base name to
      the file that was moved there last. */
  function Flatten(ps: seq<FilePath>): (dest: map<string, FilePath>)
    ensures FlattenedFrom(ps, dest)
    decreases |ps|
  {
    if ps == [] then map[]
    else
      var before := Flatten(ps[..|ps| - 1]);
      FlattenStep(ps, before);
      var last := ps[|ps| - 1];
      if IsSourceCandidate(last.name) then before[last.name := last] else before
  }

  /** `dest` holds a base name exactly when some file in `ps` has it and the
      filter keeps it, and for that name it holds the last such file. */
  ghost predicate FlattenedFrom(ps: seq<FilePath>, dest: map<string, FilePath>) {
    KeysFrom(ps, dest) && ValuesFrom(ps, dest)
  }

  ghost predicate KeysFrom(ps: seq<FilePath>, dest: map<string, FilePath>) {
    forall k :: k in dest <==> IsSourceCandidate(k) && exists i :: 0 <= i < |ps| && ps[i].name == k
  }

  ghost predicate ValuesFrom(ps: seq<FilePath>, dest: map<string, FilePath>) {
    forall k :: k in dest ==> exists i :: 0 <= i < |ps| && dest[k] == ps[i] && ps[i].name == k && LastNamed(ps, i)
  }

  /** One more move keeps the destination described by the moves so far. */
  lemma FlattenStep(ps: seq<FilePath>, before: map<string, FilePath>)
    requires |ps| > 0 && FlattenedFrom(ps[..|ps| - 1], before)
    ensures var last := ps[|ps| - 1];
            FlattenedFrom(ps, if IsSourceCandidate(last.name) then before[last.name := last] else before)
  {
    KeysStep(ps, before);
    ValuesStep(ps, before);
  }

  lemma KeysStep(ps: seq<FilePath>, before: map<string, FilePath>)
    requires |ps| > 0 && KeysFrom(ps[..|ps| - 1], before)
    ensures var last := ps[|ps| - 1];
            KeysFrom(ps, if IsSourceCandidate(last.name) then before[last.name := last] else before)
  {
    var init := ps[..|ps| - 1];
    var last := ps[|ps| - 1];
    var dest := if IsSourceCandidate(last.name) then before[last.name := last] else before;
    forall k
      ensures k in dest <==> IsSourceCandidate(k) && exists i :: 0 <= i < |ps| && ps[i].name == k
    {
      if exists i :: 0 <= i < |init| && init[i].name == k {
        var i :| 0 <= i < |init| && init[i].name == k;
        assert ps[i].name == k;
      }
      if exists i :: 0 <= i < |ps| && ps[i].name == k {
        var i :| 0 <= i < |ps| && ps[i].name == k;
        if i < |init| {
          assert init[i].name == k;
        }
      }
    }
  }

  lemma ValuesStep(ps: seq<FilePath>, before: map<string, FilePath>)
    requires |ps| > 0 && FlattenedFrom(ps[..|ps| - 1], before)
    ensures var last := ps[|ps| - 1];
            ValuesFrom(ps, if IsSourceCandidate(last.name) then before[last.name := last] else before)
  {
    var init := ps[..|ps| - 1];
    var last := ps[|ps| - 1];
    var dest := if IsSourceCandidate(last.name) then before[last.name := last] else before;
    forall k | k in dest
      ensures exists i :: 0 <= i < |ps| && dest[k] == ps[i] && ps[i].name == k && LastNamed(ps, i)
    {
      if k == last.name && IsSourceCandidate(last.name) {
        assert LastNamed(ps, |ps| - 1);
      } else {
        var i :| 0 <= i < |init| && before[k] == init[i] && init[i].name == k && LastNamed(init, i);
        StillLastNamed(ps, i);
      }
    }
  }

  /** A file that is the last of its name among all but the final move stays
      the last of its name when the final move has another name. */
  lemma StillLastNamed(ps: seq<FilePath>, i: int)
    requires 0 <= i < |ps| - 1 && LastNamed(ps[..|ps| - 1], i)
    requires ps[i].name != ps[|ps| - 1].name
    ensures LastNamed(ps, i)
  {
    forall j | i < j < |ps|
      ensures ps[j].name != ps[i].name
    {
      if j < |ps| - 1 {
        assert ps[j] == ps[..|ps| - 1][j];
      }
    }
  }

  /** No file after position `i` has the same base name as the one at `i`. */
  predicate LastNamed(ps: seq<FilePath>, i: int)
    requires 0 <= i < |ps|
  {
    forall j :: i < j < |ps| ==> ps[j].name != ps[i].name
  }

  /** What extraction leaves in the destination directory: a base name is
      present exactly when some unpruned file of that name passes the filter,
      and it holds such a file, the last of that name the walk reaches. */
  lemma FlattenedWalk(cs: seq<Node>, k: string)
    ensures k in Flatten(Walk(cs)) <==>
            IsSourceCandidate(k) && exists p :: Contains(cs, p) && Unpruned(p) && p.name == k
    ensures k in Flatten(Walk(cs)) ==>
            var p := Flatten(Walk(cs))[k];
            Contains(cs, p) && Unpruned(p) && p.name == k
  {
    var ps := Walk(cs);
    if exists p :: Contains(cs, p) && Unpruned(p) && p.name == k {
      var p :| Contains(cs, p) && Unpruned(p) && p.name == k;
      WalkReachesUnprunedFiles(cs, p);
      var i :| 0 <= i < |ps| && ps[i] == p;
    }
    if k in Flatten(ps) {
      var i :| 0 <= i < |ps| && Flatten(ps)[k] == ps[i] && ps[i].name == k && LastNamed(ps, i);
      WalkReachesUnprunedFiles(cs, ps[i]);
    }
  }
}
