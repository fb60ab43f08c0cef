/** scripts/qualify_candidate_artifacts.py: copying a native bundle without its symlinks.

    The file system is a graph: a directory lists locations, and a location may be a link
    to another one.  The copy is a tree. */
module Materialize {
  import opened Outcomes
  import opened Sequences

  type Location = nat

  datatype Child = Child(name: string, at: Location)

  /** Link(None) does not resolve; a link that does names the file or directory it ends at. */
  datatype Node =
    | File(size: nat, bytes: string)
    | Directory(children: seq<Child>)
    | Link(to: Option<Location>)
    | Special

  datatype Tree = Leaf(size: nat, bytes: string) | Branch(kids: Kids)

  datatype Kids = Nil | Cons(name: string, tree: Tree, rest: Kids)

  type FileSystem = map<Location, Node>

  /** No directory lists a name twice, and what it lists is there. */
  ghost predicate WellFormed(fs: FileSystem)
  {
    forall l | l in fs ::
      && (fs[l].Directory? ==> DistinctNames(fs[l].children))
      && (fs[l].Directory? ==> forall i | 0 <= i < |fs[l].children| :: fs[l].children[i].at in fs)
      && (fs[l].Link? && fs[l].to.Some? ==> fs[l].to.value in fs && !fs[fs[l].to.value].Link?)
  }

  ghost predicate DistinctNames(cs: seq<Child>)
  {
    forall i, j | 0 <= i < j < |cs| :: cs[i].name != cs[j].name
  }

  /** Where a path leads once its links are followed. */
  function Resolve(fs: FileSystem, at: Location): Option<Location>
    requires at in fs
  {
    if fs[at].Link? then fs[at].to else Some(at)
  }

  // ----- what a copy is -----

  /** t is what one sees at a location when every link is followed, all of it inside. */
  ghost predicate Unfolds(fs: FileSystem, inside: set<Location>, at: Location, t: Tree)
    requires WellFormed(fs) && at in fs
    decreases t
  {
    && Resolve(fs, at).Some? && Resolve(fs, at).value in inside
    && match t
       case Leaf(size, bytes) => fs[Resolve(fs, at).value] == File(size, bytes)
       case Branch(kids) =>
         fs[Resolve(fs, at).value].Directory?
         && UnfoldsAll(fs, inside, fs[Resolve(fs, at).value].children, kids)
  }

  ghost predicate UnfoldsAll(fs: FileSystem, inside: set<Location>, cs: seq<Child>, kids: Kids)
    requires WellFormed(fs) && forall i | 0 <= i < |cs| :: cs[i].at in fs
    decreases kids
  {
    match kids
    case Nil => cs == []
    case Cons(name, tree, rest) =>
      cs != [] && name == cs[0].name && Unfolds(fs, inside, cs[0].at, tree) && UnfoldsAll(fs, inside, cs[1..], rest)
  }

  function Size(t: Tree): nat
  {
    match t
    case Leaf(_, _) => 1
    case Branch(kids) => 1 + SizeAll(kids)
  }

  function SizeAll(kids: Kids): nat
  {
    match kids
    case Nil => 0
    case Cons(_, tree, rest) => Size(tree) + SizeAll(rest)
  }

  lemma {:induction false} UnfoldsUnique(fs: FileSystem, inside: set<Location>, at: Location, t: Tree, u: Tree)
    requires WellFormed(fs) && at in fs && Unfolds(fs, inside, at, t) && Unfolds(fs, inside, at, u)
    ensures t == u
    decreases t
  {
    if t.Branch? { UnfoldsAllUnique(fs, inside, fs[Resolve(fs, at).value].children, t.kids, u.kids); }
  }

  lemma {:induction false} UnfoldsAllUnique(fs: FileSystem, inside: set<Location>, cs: seq<Child>, a: Kids, b: Kids)
    requires WellFormed(fs) && (forall i | 0 <= i < |cs| :: cs[i].at in fs)
    requires UnfoldsAll(fs, inside, cs, a) && UnfoldsAll(fs, inside, cs, b)
    ensures a == b
    decreases a
  {
    if a.Cons? {
      UnfoldsUnique(fs, inside, cs[0].at, a.tree, b.tree);
      UnfoldsAllUnique(fs, inside, cs[1..], a.rest, b.rest);
    }
  }

  // ----- the copy with its cycle check -----

  /** What materialize_bundle copies; ancestors are the directories it is in. */
  function CopyOf(fs: FileSystem, inside: set<Location>, at: Location, ancestors: set<Location>): Option<Tree>
    requires WellFormed(fs) && at in fs
    decreases inside - ancestors, 0, 0
  {
    match Resolve(fs, at)
    case None => None
    case Some(place) =>
      if place !in inside || place in ancestors then None
      else match fs[place]
        case File(size, bytes) => Some(Leaf(size, bytes))
        case Directory(cs) =>
          assert inside - (ancestors + {place}) < inside - ancestors by {
            assert place in inside - ancestors && place !in inside - (ancestors + {place});
          }
          (match CopyAll(fs, inside, cs, ancestors + {place})
           case None => None
           case Some(kids) => Some(Branch(kids)))
        case _ => None
  }

  function CopyAll(fs: FileSystem, inside: set<Location>, cs: seq<Child>, ancestors: set<Location>): Option<Kids>
    requires WellFormed(fs) && forall i | 0 <= i < |cs| :: cs[i].at in fs
    decreases inside - ancestors, 1, |cs|
  {
    if cs == [] then Some(Nil)
    else match CopyOf(fs, inside, cs[0].at, ancestors)
      case None => None
      case Some(tree) =>
        match CopyAll(fs, inside, cs[1..], ancestors)
        case None => None
        case Some(rest) => Some(Cons(cs[0].name, tree, rest))
  }

  /** Whatever is copied is the unfolding. */
  lemma {:induction false} CopyUnfolds(fs: FileSystem, inside: set<Location>, at: Location, ancestors: set<Location>)
    requires WellFormed(fs) && at in fs && CopyOf(fs, inside, at, ancestors).Some?
    ensures Unfolds(fs, inside, at, CopyOf(fs, inside, at, ancestors).value)
    decreases inside - ancestors, 0, 0
  {
    var place := Resolve(fs, at).value;
    if fs[place].Directory? {
      assert place in inside - ancestors && place !in inside - (ancestors + {place});
      CopyAllUnfolds(fs, inside, fs[place].children, ancestors + {place});
    }
  }

  lemma {:induction false} CopyAllUnfolds(fs: FileSystem, inside: set<Location>, cs: seq<Child>,
        ancestors: set<Location>)
    requires WellFormed(fs) && (forall i | 0 <= i < |cs| :: cs[i].at in fs) && CopyAll(fs, inside, cs, ancestors).Some?
    ensures UnfoldsAll(fs, inside, cs, CopyAll(fs, inside, cs, ancestors).value)
    decreases inside - ancestors, 1, |cs|
  {
    if cs != [] {
      CopyUnfolds(fs, inside, cs[0].at, ancestors);
      CopyAllUnfolds(fs, inside, cs[1..], ancestors);
    }
  }

  /** Each of the ancestors unfolds to something larger. */
  ghost predicate Larger(fs: FileSystem, inside: set<Location>, ancestors: set<Location>, size: nat)
    requires WellFormed(fs)
  {
    forall a | a in ancestors :: a in fs && !fs[a].Link? && exists u :: Unfolds(fs, inside, a, u) && size < Size(u)
  }

  /** The cycle check never refuses anything that unfolds to a finite tree. */
  lemma {:induction false} UnfoldingIsCopied(fs: FileSystem, inside: set<Location>, at: Location,
        ancestors: set<Location>, t: Tree)
    requires WellFormed(fs) && at in fs && Unfolds(fs, inside, at, t) && Larger(fs, inside, ancestors, Size(t))
    ensures CopyOf(fs, inside, at, ancestors) == Some(t)
    decreases t
  {
    var place := Resolve(fs, at).value;
    assert Unfolds(fs, inside, place, t);
    if place in ancestors {
      var u :| Unfolds(fs, inside, place, u) && Size(t) < Size(u);
      UnfoldsUnique(fs, inside, place, t, u);
      assert false;
    }
    if t.Branch? {
      forall a | a in ancestors + {place}
        ensures a in fs && !fs[a].Link? && exists u :: Unfolds(fs, inside, a, u) && SizeAll(t.kids) < Size(u)
      {
        if a == place {
          assert Unfolds(fs, inside, a, t) && SizeAll(t.kids) < Size(t);
        } else {
          var u :| Unfolds(fs, inside, a, u) && Size(t) < Size(u);
        }
      }
      UnfoldingsAreCopied(fs, inside, fs[place].children, ancestors + {place}, t.kids);
    }
  }

  lemma LargerThanPart(fs: FileSystem, inside: set<Location>, ancestors: set<Location>, size: nat, part: nat)
    requires WellFormed(fs) && Larger(fs, inside, ancestors, size) && part <= size
    ensures Larger(fs, inside, ancestors, part)
  {
    forall a | a in ancestors ensures exists u :: Unfolds(fs, inside, a, u) && part < Size(u) {
      var u :| Unfolds(fs, inside, a, u) && size < Size(u);
    }
  }

  lemma {:induction false} UnfoldingsAreCopied(fs: FileSystem, inside: set<Location>, cs: seq<Child>,
        ancestors: set<Location>, kids: Kids)
    requires WellFormed(fs) && (forall i | 0 <= i < |cs| :: cs[i].at in fs)
    requires UnfoldsAll(fs, inside, cs, kids) && Larger(fs, inside, ancestors, SizeAll(kids))
    ensures CopyAll(fs, inside, cs, ancestors) == Some(kids)
    decreases kids
  {
    if kids.Cons? {
      LargerThanPart(fs, inside, ancestors, SizeAll(kids), Size(kids.tree));
      LargerThanPart(fs, inside, ancestors, SizeAll(kids), SizeAll(kids.rest));
      UnfoldingIsCopied(fs, inside, cs[0].at, ancestors, kids.tree);
      UnfoldingsAreCopied(fs, inside, cs[1..], ancestors, kids.rest);
    }
  }

  /** The copy is made exactly when following every link, nothing leads outside, to a
      special file or round in circles; and then it is what following the links shows. */
  lemma CopiedExactly(fs: FileSystem, inside: set<Location>, at: Location, t: Tree)
    requires WellFormed(fs) && at in fs
    ensures CopyOf(fs, inside, at, {}) == Some(t) <==> Unfolds(fs, inside, at, t)
  {
    if CopyOf(fs, inside, at, {}) == Some(t) { CopyUnfolds(fs, inside, at, {}); }
    if Unfolds(fs, inside, at, t) { UnfoldingIsCopied(fs, inside, at, {}, t); }
  }

  // ----- what the copy holds -----

  function Find(kids: Kids, name: string): Option<Tree>
  {
    match kids
    case Nil => None
    case Cons(n, tree, rest) => if n == name then Some(tree) else Find(rest, name)
  }

  /** The part of the copy under a path of names. */
  function Get(t: Tree, path: seq<string>): Option<Tree>
    decreases |path|
  {
    if path == [] then Some(t)
    else if t.Leaf? || Find(t.kids, path[0]).None? then None
    else Get(Find(t.kids, path[0]).value, path[1..])
  }

  function Entry(cs: seq<Child>, name: string): Option<Location>
  {
    if cs == [] then None else if cs[0].name == name then Some(cs[0].at) else Entry(cs[1..], name)
  }

  lemma {:induction false} EntryIsChild(cs: seq<Child>, name: string)
    requires Entry(cs, name).Some?
    ensures exists i | 0 <= i < |cs| :: cs[i] == Child(name, Entry(cs, name).value)
  {
    if cs[0].name == name {
      assert cs[0] == Child(name, Entry(cs, name).value);
    } else {
      EntryIsChild(cs[1..], name);
      var i :| 0 <= i < |cs[1..]| && cs[1..][i] == Child(name, Entry(cs, name).value);
      assert cs[i + 1] == cs[1..][i];
    }
  }

  /** Where the source's path of names ends when every link on the way is followed. */
  function Follow(fs: FileSystem, at: Location, path: seq<string>): (r: Option<Location>)
    requires WellFormed(fs) && at in fs
    ensures r.Some? ==> r.value in fs && !fs[r.value].Link?
    decreases |path|
  {
    match Resolve(fs, at)
    case None => None
    case Some(place) =>
      if path == [] then Some(place)
      else if !fs[place].Directory? || Entry(fs[place].children, path[0]).None? then None
      else
        EntryIsChild(fs[place].children, path[0]);
        Follow(fs, Entry(fs[place].children, path[0]).value, path[1..])
  }

  lemma {:induction false} FindMatches(fs: FileSystem, inside: set<Location>, cs: seq<Child>, kids: Kids, name: string)
    requires WellFormed(fs) && (forall i | 0 <= i < |cs| :: cs[i].at in fs) && UnfoldsAll(fs, inside, cs, kids)
    ensures Find(kids, name).Some? <==> Entry(cs, name).Some?
    ensures Find(kids, name).Some? ==>
      && Entry(cs, name).value in fs && Unfolds(fs, inside, Entry(cs, name).value, Find(kids, name).value)
      && Size(Find(kids, name).value) <= SizeAll(kids)
    decreases kids
  {
    if kids.Cons? { FindMatches(fs, inside, cs[1..], kids.rest, name); }
  }

  /** The copy has the same paths as the source, and under each of them the very file, or a
      copy of the very directory, that the source's links lead to inside the root. */
  lemma {:induction false} SamePaths(fs: FileSystem, inside: set<Location>, at: Location, t: Tree, path: seq<string>)
    requires WellFormed(fs) && at in fs && Unfolds(fs, inside, at, t)
    ensures Get(t, path).Some? <==> Follow(fs, at, path).Some?
    ensures Get(t, path).Some? ==>
      var part, place := Get(t, path).value, Follow(fs, at, path).value;
      && place in inside && Unfolds(fs, inside, place, part)
      && (part.Leaf? <==> fs[place].File?) && (part.Leaf? ==> fs[place] == File(part.size, part.bytes))
      && Size(part) <= Size(t) && (path != [] ==> Size(part) < Size(t))
    decreases |path|
  {
    var place := Resolve(fs, at).value;
    if path == [] {
      assert Unfolds(fs, inside, place, t);
    } else if t.Branch? {
      FindMatches(fs, inside, fs[place].children, t.kids, path[0]);
      if Find(t.kids, path[0]).Some? {
        SamePaths(fs, inside, Entry(fs[place].children, path[0]).value, Find(t.kids, path[0]).value, path[1..]);
      }
    }
  }

  /** No directory of the copy is found again below itself. */
  lemma NoOwnAncestor(fs: FileSystem, inside: set<Location>, at: Location, t: Tree, above: seq<string>,
        below: seq<string>)
    requires WellFormed(fs) && at in fs && Unfolds(fs, inside, at, t) && below != []
    requires Get(t, above).Some? && Get(Get(t, above).value, below).Some?
    ensures Follow(fs, at, above).Some?
    ensures var place := Follow(fs, at, above).value;
      Follow(fs, place, below).Some? && Follow(fs, place, below).value != place
  {
    SamePaths(fs, inside, at, t, above);
    var place, part := Follow(fs, at, above).value, Get(t, above).value;
    SamePaths(fs, inside, place, part, below);
    if Follow(fs, place, below).value == place {
      UnfoldsUnique(fs, inside, place, part, Get(part, below).value);
      assert false;
    }
  }

  // ----- its files -----

  /** No directory of the copy holds a name twice. */
  ghost predicate Named(t: Tree)
  {
    t.Branch? ==> NamedAll(t.kids)
  }

  ghost predicate NamedAll(kids: Kids)
  {
    kids.Cons? ==> Find(kids.rest, kids.name).None? && Named(kids.tree) && NamedAll(kids.rest)
  }

  lemma {:induction false} UnfoldsNamed(fs: FileSystem, inside: set<Location>, at: Location, t: Tree)
    requires WellFormed(fs) && at in fs && Unfolds(fs, inside, at, t)
    ensures Named(t)
    decreases t
  {
    if t.Branch? { UnfoldsAllNamed(fs, inside, fs[Resolve(fs, at).value].children, t.kids); }
  }

  lemma {:induction false} UnfoldsAllNamed(fs: FileSystem, inside: set<Location>, cs: seq<Child>, kids: Kids)
    requires WellFormed(fs) && (forall i | 0 <= i < |cs| :: cs[i].at in fs) && DistinctNames(cs)
    requires UnfoldsAll(fs, inside, cs, kids)
    ensures NamedAll(kids)
    decreases kids
  {
    if kids.Cons? {
      UnfoldsNamed(fs, inside, cs[0].at, kids.tree);
      UnfoldsAllNamed(fs, inside, cs[1..], kids.rest);
      FindMatches(fs, inside, cs[1..], kids.rest, kids.name);
      if Entry(cs[1..], kids.name).Some? {
        EntryIsChild(cs[1..], kids.name);
        assert false;
      }
    }
  }

  /** The path leads to a file of the copy. */
  ghost predicate IsFile(t: Tree, path: seq<string>)
  {
    Get(t, path).Some? && Get(t, path).value.Leaf?
  }

  /** The files of the copy, each once, and their sizes. */
  ghost predicate Files(t: Tree, paths: seq<seq<string>>, sizes: seq<nat>)
  {
    && NoRepeats(paths) && (forall path :: path in paths <==> IsFile(t, path))
    && Sized(t, paths, sizes)
  }

  ghost predicate Sized(t: Tree, paths: seq<seq<string>>, sizes: seq<nat>)
  {
    && |sizes| == |paths|
    && forall i | 0 <= i < |paths| :: IsFile(t, paths[i]) && sizes[i] == Get(t, paths[i]).value.size
  }

  function Sum(s: seq<nat>): nat
  {
    if s == [] then 0 else s[0] + Sum(s[1..])
  }

  lemma {:induction false} SumJoin(a: seq<nat>, b: seq<nat>)
    ensures Sum(a + b) == Sum(a) + Sum(b)
  {
    if a == [] { assert a + b == b; } else {
      SumJoin(a[1..], b);
      assert (a + b)[1..] == a[1..] + b;
    }
  }

  /** The counters count every file once and add up the sizes of all files. */
  lemma {:induction false} CountsExactly(t: Tree) returns (paths: seq<seq<string>>, sizes: seq<nat>)
    requires Named(t)
    ensures Files(t, paths, sizes) && FileCount(t) == |paths| && ByteCount(t) == Sum(sizes)
    decreases t
  {
    if t.Leaf? {
      paths, sizes := [[]], [t.size];
      assert Sum([t.size]) == t.size + Sum([]);
    } else {
      paths, sizes := CountsBelow(t.kids);
    }
  }

  lemma {:induction false} CountsBelow(kids: Kids) returns (paths: seq<seq<string>>, sizes: seq<nat>)
    requires NamedAll(kids)
    ensures Files(Branch(kids), paths, sizes) && FileCountAll(kids) == |paths| && ByteCountAll(kids) == Sum(sizes)
    decreases kids
  {
    if kids.Nil? { return [], []; }
    var p, s := CountsExactly(kids.tree);
    var q, u := CountsBelow(kids.rest);
    paths, sizes := Under(kids.name, p) + q, s + u;
    SumJoin(s, u);
    EveryFileOnce(kids, p, s, q, u);
    UnderSized(kids, p, s, q, u);
    forall path ensures path in paths <==> IsFile(Branch(kids), path) {
      FileBelow(kids, path);
      InUnder(kids.name, p, path);
    }
  }

  ghost function Under(name: string, paths: seq<seq<string>>): seq<seq<string>>
  {
    seq(|paths|, i requires 0 <= i < |paths| => [name] + paths[i])
  }

  lemma InUnder(name: string, paths: seq<seq<string>>, path: seq<string>)
    ensures path in Under(name, paths) <==> path != [] && path[0] == name && path[1..] in paths
  {
    var below := Under(name, paths);
    if path in below {
      var i :| 0 <= i < |below| && below[i] == path;
      assert path[1..] == paths[i];
    }
    if path != [] && path[0] == name && path[1..] in paths {
      var i :| 0 <= i < |paths| && paths[i] == path[1..];
      assert below[i] == path;
    }
  }

  lemma EveryFileOnce(kids: Kids, p: seq<seq<string>>, s: seq<nat>, q: seq<seq<string>>, u: seq<nat>)
    requires NamedAll(kids) && kids.Cons? && Files(kids.tree, p, s) && Files(Branch(kids.rest), q, u)
    ensures NoRepeats(Under(kids.name, p) + q)
  {
    var below := Under(kids.name, p);
    forall i, j | 0 <= i < j < |p| ensures below[i] != below[j] {
      assert below[i][1..] == p[i] && below[j][1..] == p[j];
    }
    forall i, j | 0 <= i < |p| && 0 <= j < |q| ensures below[i] != q[j] {
      assert q[j] in q && IsFile(Branch(kids.rest), q[j]) && below[i][0] == kids.name;
    }
  }

  lemma UnderSized(kids: Kids, p: seq<seq<string>>, s: seq<nat>, q: seq<seq<string>>, u: seq<nat>)
    requires NamedAll(kids) && kids.Cons? && Sized(kids.tree, p, s) && Sized(Branch(kids.rest), q, u)
    ensures Sized(Branch(kids), Under(kids.name, p) + q, s + u)
  {
    var paths := Under(kids.name, p) + q;
    forall i | 0 <= i < |paths|
      ensures IsFile(Branch(kids), paths[i]) && (s + u)[i] == Get(Branch(kids), paths[i]).value.size
    {
      FileBelow(kids, paths[i]);
      if i < |p| {
        assert paths[i][1..] == p[i];
      } else {
        assert paths[i] == q[i - |p|];
      }
    }
  }

  lemma FileBelow(kids: Kids, path: seq<string>)
    requires NamedAll(kids) && kids.Cons?
    ensures IsFile(Branch(kids), path) <==>
      (path != [] && path[0] == kids.name && IsFile(kids.tree, path[1..])) || IsFile(Branch(kids.rest), path)
  {
  }

  /** At most 20 000 files, of 2 GiB together. */
  ghost predicate Small(t: Tree)
  {
    exists paths, sizes :: Files(t, paths, sizes) && |paths| <= 20_000 && Sum(sizes) <= 2_147_483_648
  }

  /** All listings of the files have the same length and the same sum. */
  lemma {:induction false} SameFiles(t: Tree, p: seq<seq<string>>, s: seq<nat>, q: seq<seq<string>>, u: seq<nat>)
    requires NoRepeats(p) && NoRepeats(q) && (forall x :: x in p <==> x in q) && Sized(t, p, s) && Sized(t, q, u)
    ensures |p| == |q| && Sum(s) == Sum(u)
  {
    hide Get, Sum;
    assert q != [] ==> q[0] in q;
    if p != [] {
      assert p[0] in q;
      var j :| 0 <= j < |q| && q[j] == p[0];
      WithoutOne(q, j);
      SumWithout(u, j);
      SameFiles(t, p[1..], s[1..], Without(q, j), Without(u, j));
      SumWithout(s, 0);
      assert Without(s, 0) == s[1..];
    }
  }

  ghost function Without<T>(s: seq<T>, j: nat): seq<T>
    requires j < |s|
  {
    s[..j] + s[j + 1..]
  }

  lemma WithoutOne<T>(s: seq<T>, j: nat)
    requires j < |s| && NoRepeats(s)
    ensures NoRepeats(Without(s, j)) && s[j] !in Without(s, j)
    ensures forall x :: x in s <==> x == s[j] || x in Without(s, j)
  {
    assert s == s[..j] + [s[j]] + s[j + 1..];
  }

  lemma SumWithout(s: seq<nat>, j: nat)
    requires j < |s|
    ensures Sum(s) == s[j] + Sum(Without(s, j))
  {
    SumJoin(s[..j], s[j + 1..]);
    SumJoin(s[..j], s[j..]);
    assert s == s[..j] + s[j..] && s[j..][1..] == s[j + 1..];
  }

  lemma SmallExactly(t: Tree)
    requires Named(t)
    ensures Small(t) <==> FileCount(t) <= MAX_FILES && ByteCount(t) <= MAX_BYTES
  {
    var p, s := CountsExactly(t);
    forall q, u | Files(t, q, u) ensures |p| == |q| && Sum(s) == Sum(u) { SameFiles(t, p, s, q, u); }
  }

  // ----- bounds -----

  const MAX_FILES := 20_000
  const MAX_BYTES := 2 * 1024 * 1024 * 1024

  function FileCount(t: Tree): nat
  {
    match t
    case Leaf(_, _) => 1
    case Branch(kids) => FileCountAll(kids)
  }

  function FileCountAll(kids: Kids): nat
  {
    match kids
    case Nil => 0
    case Cons(_, tree, rest) => FileCount(tree) + FileCountAll(rest)
  }

  function ByteCount(t: Tree): nat
  {
    match t
    case Leaf(size, _) => size
    case Branch(kids) => ByteCountAll(kids)
  }

  function ByteCountAll(kids: Kids): nat
  {
    match kids
    case Nil => 0
    case Cons(_, tree, rest) => ByteCount(tree) + ByteCountAll(rest)
  }

  /** The nested function copy with its counters. */
  class Materializer {
    var count: nat
    var total: nat

    constructor ()
      ensures count == 0 && total == 0
    {
      count, total := 0, 0;
    }

    predicate WithinBounds()
      reads this
    {
      count <= MAX_FILES && total <= MAX_BYTES
    }

    /** What one call adds, or why it refuses. */
    twostate predicate Counted(files: nat, bytes: nat, ok: bool)
      reads this
    {
      && (ok <==> old(count) + files <= MAX_FILES && old(total) + bytes <= MAX_BYTES)
      && (ok ==> count == old(count) + files && total == old(total) + bytes)
    }

    method Copy(fs: FileSystem, inside: set<Location>, at: Location, ancestors: set<Location>) returns (r: Option<Tree>)
      requires WellFormed(fs) && at in fs && WithinBounds()
      modifies this
      ensures r.Some? ==> WithinBounds()
      ensures r.Some? ==> r == CopyOf(fs, inside, at, ancestors)
      ensures CopyOf(fs, inside, at, ancestors).Some? ==>
        var t := CopyOf(fs, inside, at, ancestors).value; Counted(FileCount(t), ByteCount(t), r.Some?)
      decreases inside - ancestors, 0, 0
    {
      var resolved := Resolve(fs, at);
      if resolved.None? { return None; }
      var place := resolved.value;
      if place !in inside || place in ancestors { return None; }
      match fs[place] {
        case File(size, bytes) =>
          count, total := count + 1, total + size;
          if count > MAX_FILES || total > MAX_BYTES { return None; }
          r := Some(Leaf(size, bytes));
        case Directory(children) =>
          assert place in inside - ancestors && place !in inside - (ancestors + {place});
          var kids := CopyChildren(fs, inside, children, ancestors + {place});
          r := if kids.None? then None else Some(Branch(kids.value));
        case _ => return None;
      }
    }

    /** The loop over the sorted entries of a directory. */
    method CopyChildren(fs: FileSystem, inside: set<Location>, cs: seq<Child>, ancestors: set<Location>)
          returns (r: Option<Kids>)
      requires WellFormed(fs) && (forall i | 0 <= i < |cs| :: cs[i].at in fs) && WithinBounds()
      modifies this
      ensures r.Some? ==> WithinBounds()
      ensures r.Some? ==> r == CopyAll(fs, inside, cs, ancestors)
      ensures CopyAll(fs, inside, cs, ancestors).Some? ==>
        var kids := CopyAll(fs, inside, cs, ancestors).value; Counted(FileCountAll(kids), ByteCountAll(kids), r.Some?)
      decreases inside - ancestors, 1, |cs|
    {
      if cs == [] { return Some(Nil); }
      var first := Copy(fs, inside, cs[0].at, ancestors);
      if first.None? { return None; }
      var rest := CopyChildren(fs, inside, cs[1..], ancestors);
      r := if rest.None? then None else Some(Cons(cs[0].name, first.value, rest.value));
    }

    /** materialize_bundle: exactly the bundles that unfold to a finite tree within the
        bounds are copied, and the copy is that tree. */
    method Materialize(fs: FileSystem, inside: set<Location>, source: Location) returns (r: Option<Tree>)
      requires WellFormed(fs) && source in fs && count == 0 && total == 0
      modifies this
      ensures forall t :: r == Some(t) <==>
        fs[source].Directory? && Unfolds(fs, inside, source, t) && Small(t)
    {
      forall t: Tree | Unfolds(fs, inside, source, t)
        ensures FileCount(t) <= MAX_FILES && ByteCount(t) <= MAX_BYTES <==> Small(t)
      {
        UnfoldsNamed(fs, inside, source, t);
        SmallExactly(t);
      }
      forall t: Tree ensures CopyOf(fs, inside, source, {}) == Some(t) <==> Unfolds(fs, inside, source, t) {
        CopiedExactly(fs, inside, source, t);
      }
      if !fs[source].Directory? { return None; }
      r := Copy(fs, inside, source, {});
    }
  }
}
