/** The directory tree the program walks, and the two traversals it makes of
    it: the post-order listing of `FlattenTargets`/`CollectInner` (every
    directory after everything below it, so that each can be deleted once it
    is empty) and the include/exclude selection of `GetTargets`/
    `CollectIncludes`.

    The file system is a tree whose nodes are directories with an ordered
    list of children (the order `Directory.GetDirectories` lists them in).
    A path is the sequence of names from the starting path down: the path
    given on the command line is one component, and a child's path is its
    parent's path with the child's name added. */
module DirTree {
  import opened Wrappers
  import opened Strings
  import opened Args

  datatype Dir = Dir(name: string, children: seq<Dir>)

  type Path = seq<string>

  /** The number of directories in the tree, its root included. */
  function Size(d: Dir): nat
    decreases d, 1
  {
    1 + SizeAll(d.children)
  }

  function SizeAll(cs: seq<Dir>): nat
    decreases cs, 0
  {
    if cs == [] then 0 else SizeAll(cs[..|cs| - 1]) + Size(cs[|cs| - 1])
  }

  /** No two children of one directory have the same name, at every level
      (what a file system guarantees). */
  ghost predicate WellFormed(d: Dir)
    decreases d
  {
    (forall i, j :: 0 <= i < j < |d.children| ==> d.children[i].name != d.children[j].name) &&
    (forall i :: 0 <= i < |d.children| ==> WellFormed(d.children[i]))
  }

  /** The text of a path, as `Directory.GetDirectories` spells the paths it
      returns: the starting path as given, then each name joined on with
      `/`, where no separator is added after text that already ends in one.
      The starting path's text always comes first. */
  function PathText(p: Path): (r: string)
    ensures |p| >= 1 ==> p[0] <= r
  {
    if |p| <= 1 then (if p == [] then "" else p[0])
    else
      var dir, name := PathText(p[..|p| - 1]), p[|p| - 1];
      assert p[..|p| - 1][0] == p[0];
      if dir != [] && dir[|dir| - 1] == '/' then dir + name else dir + "/" + name
  }

  predicate IsPrefix(a: Path, b: Path) {
    |a| <= |b| && b[..|a|] == a
  }

  /** A path lies under `p + [n]` when it lies strictly under `p` and its next
      name is `n`. */
  lemma PrefixSnoc(p: Path, n: string, q: Path)
    ensures IsPrefix(p + [n], q) <==> |p| < |q| && q[..|p|] == p && q[|p|] == n
  {
    if IsPrefix(p + [n], q) {
      assert q[..|p|] == (p + [n])[..|p|];
      assert q[|p|] == (p + [n])[|p|];
    }
    if |p| < |q| && q[..|p|] == p && q[|p|] == n {
      assert q[..|p| + 1] == q[..|p|] + [q[|p|]];
    }
  }

  /** The child called `name`, if there is one. */
  function ChildNamed(cs: seq<Dir>, name: string): (r: Option<Dir>)
    ensures r.Some? ==> r.value in cs && r.value.name == name
    ensures r.None? ==> forall i :: 0 <= i < |cs| ==> cs[i].name != name
  {
    if cs == [] then None
    else if cs[|cs| - 1].name == name then Some(cs[|cs| - 1])
    else ChildNamed(cs[..|cs| - 1], name)
  }

  /** The directory reached from `d` by following the names of `rel`, or
      `None` when some name on the way does not exist. */
  function Find(d: Dir, rel: Path): Option<Dir>
    decreases |rel|
  {
    if rel == [] then Some(d)
    else match ChildNamed(d.children, rel[0])
      case None => None
      case Some(c) => Find(c, rel[1..])
  }

  // ---------------------------------------------------------------------
  // FlattenTargets / CollectInner

  /** What `CollectInner(p)` appends for the directory `d` at path `p`: the
      listings of its children in order, then `p` itself. */
  function PostOrder(p: Path, d: Dir): seq<Path>
    decreases d, 1
  {
    PostOrderAll(p, d.children) + [p]
  }

  function PostOrderAll(p: Path, cs: seq<Dir>): seq<Path>
    decreases cs, 0
  {
    if cs == [] then []
    else PostOrderAll(p, cs[..|cs| - 1]) + PostOrder(p + [cs[|cs| - 1].name], cs[|cs| - 1])
  }

  /** One entry per directory: the listing is as long as the tree is big. */
  lemma {:induction false} PostOrderSize(p: Path, d: Dir)
    ensures |PostOrder(p, d)| == Size(d)
    decreases d, 1
  {
    PostOrderAllSize(p, d.children);
  }

  lemma {:induction false} PostOrderAllSize(p: Path, cs: seq<Dir>)
    ensures |PostOrderAll(p, cs)| == SizeAll(cs)
    decreases cs, 0
  {
    if cs != [] {
      PostOrderAllSize(p, cs[..|cs| - 1]);
      PostOrderSize(p + [cs[|cs| - 1].name], cs[|cs| - 1]);
    }
  }

  /** Every entry lies under `p`, and `p` itself comes last. */
  lemma {:induction false} PostOrderUnder(p: Path, d: Dir)
    ensures forall i :: 0 <= i < |PostOrder(p, d)| ==> IsPrefix(p, PostOrder(p, d)[i])
    ensures PostOrder(p, d)[|PostOrder(p, d)| - 1] == p
    decreases d, 1
  {
    PostOrderAllUnder(p, d.children);
  }

  /** The children's listings hold only paths strictly below `p`, each
      through a child that exists. */
  lemma {:induction false} PostOrderAllUnder(p: Path, cs: seq<Dir>)
    ensures forall i :: 0 <= i < |PostOrderAll(p, cs)| ==>
      |p| < |PostOrderAll(p, cs)[i]| && PostOrderAll(p, cs)[i][..|p|] == p &&
      ChildNamed(cs, PostOrderAll(p, cs)[i][|p|]).Some?
    decreases cs, 0
  {
    if cs != [] {
      var init, last := cs[..|cs| - 1], cs[|cs| - 1];
      var a, b := PostOrderAll(p, init), PostOrder(p + [last.name], last);
      PostOrderAllUnder(p, init);
      PostOrderUnder(p + [last.name], last);
      forall i | 0 <= i < |a + b|
        ensures |p| < |(a + b)[i]| && (a + b)[i][..|p|] == p && ChildNamed(cs, (a + b)[i][|p|]).Some?
      {
        if i < |a| {
          assert (a + b)[i] == a[i];
        } else {
          var q := b[i - |a|];
          assert (a + b)[i] == q;
          assert q[..|p| + 1] == p + [last.name];
          assert q[|p|] == last.name;
          assert q[..|p|] == (p + [last.name])[..|p|];
        }
      }
    }
  }

  /** Names of siblings are distinct. */
  ghost predicate DistinctNames(cs: seq<Dir>) {
    forall i, j :: 0 <= i < j < |cs| ==> cs[i].name != cs[j].name
  }

  /** Post-order without repetition: when one entry is an ancestor of (or
      the same path as) another, it comes at the same place or later. So
      every directory is listed after all that is below it, and no path is
      listed twice. */
  lemma {:induction false} PostOrderOrder(p: Path, d: Dir)
    requires WellFormed(d)
    ensures forall i, j ::
      (0 <= i < |PostOrder(p, d)| && 0 <= j < |PostOrder(p, d)| &&
       IsPrefix(PostOrder(p, d)[j], PostOrder(p, d)[i])) ==> i <= j
    decreases d, 1
  {
    var a := PostOrderAll(p, d.children);
    PostOrderAllOrder(p, d.children);
    PostOrderAllUnder(p, d.children);
    var r := a + [p];
    forall i, j | 0 <= i < |r| && 0 <= j < |r| && IsPrefix(r[j], r[i])
      ensures i <= j
    {
      if i == |a| && j < |a| {
        assert false;
      }
    }
  }

  lemma {:induction false} PostOrderAllOrder(p: Path, cs: seq<Dir>)
    requires DistinctNames(cs)
    requires forall k :: 0 <= k < |cs| ==> WellFormed(cs[k])
    ensures forall i, j ::
      (0 <= i < |PostOrderAll(p, cs)| && 0 <= j < |PostOrderAll(p, cs)| &&
       IsPrefix(PostOrderAll(p, cs)[j], PostOrderAll(p, cs)[i])) ==> i <= j
    decreases cs, 0
  {
    if cs != [] {
      var init, last := cs[..|cs| - 1], cs[|cs| - 1];
      var a, b := PostOrderAll(p, init), PostOrder(p + [last.name], last);
      var r := a + b;
      PostOrderAllOrder(p, init);
      PostOrderOrder(p + [last.name], last);
      PostOrderAllUnder(p, init);
      PostOrderUnder(p + [last.name], last);
      forall i, j | 0 <= i < |r| && 0 <= j < |r| && IsPrefix(r[j], r[i])
        ensures i <= j
      {
        if i < |a| && j < |a| {
          assert r[i] == a[i] && r[j] == a[j];
        } else if |a| <= i && |a| <= j {
          assert r[i] == b[i - |a|] && r[j] == b[j - |a|];
        } else if j < |a| {
          assert false;
        }
      }
    }
  }

  /** The listing holds exactly the directories of the tree: a path is
      listed if and only if it lies under `p` and names an existing
      directory. */
  lemma {:induction false} PostOrderMember(p: Path, d: Dir, q: Path)
    requires WellFormed(d)
    ensures q in PostOrder(p, d) <==> IsPrefix(p, q) && Find(d, q[|p|..]).Some?
    decreases d, 1
  {
    var a := PostOrderAll(p, d.children);
    if q == p {
      assert q[|p|..] == [];
    } else {
      PostOrderAllMember(p, d.children, q);
      assert q in PostOrder(p, d) <==> q in a;
      if IsPrefix(p, q) {
        var rel := q[|p|..];
        assert rel != [] by {
          assert q == q[..|p|] + rel;
        }
        assert rel[0] == q[|p|] && rel[1..] == q[|p| + 1..];
      }
    }
  }

  lemma {:induction false} PostOrderAllMember(p: Path, cs: seq<Dir>, q: Path)
    requires DistinctNames(cs)
    requires forall k :: 0 <= k < |cs| ==> WellFormed(cs[k])
    ensures q in PostOrderAll(p, cs) <==>
      |p| < |q| && q[..|p|] == p && ChildNamed(cs, q[|p|]).Some? &&
      Find(ChildNamed(cs, q[|p|]).value, q[|p| + 1..]).Some?
    decreases cs, 0
  {
    if cs != [] {
      var init, last := cs[..|cs| - 1], cs[|cs| - 1];
      var n := last.name;
      var a, b := PostOrderAll(p, init), PostOrder(p + [n], last);
      PostOrderAllMember(p, init, q);
      PostOrderMember(p + [n], last, q);
      PostOrderUnder(p + [n], last);
      assert q in a + b <==> q in a || q in b;
      if |p| < |q| && q[..|p|] == p && q[|p|] == n {
        assert ChildNamed(init, n).None?;
        assert q[..|p| + 1] == p + [n];
        assert q[|p| + 1..] == q[|p + [n]|..];
      }
    }
  }

  /** The `List<string>` the traversals append to. */
  class PathList {
    var items: seq<Path>

    constructor ()
      ensures items == []
    {
      items := [];
    }

    /** `List.Add`. */
    method Add(p: Path)
      modifies this
      ensures items == old(items) + [p]
    {
      items := items + [p];
    }
  }

  /** `CollectInner`: lists the directory `d` found at path `p`, collects
      each child's subtree in turn, then appends `p`. */
  method CollectInner(d: Dir, p: Path, flat: PathList)
    modifies flat
    ensures flat.items == old(flat.items) + PostOrder(p, d)
    decreases d
  {
    var innerDirs := d.children;
    var k := 0;
    while k < |innerDirs|
      invariant 0 <= k <= |innerDirs|
      invariant flat.items == old(flat.items) + PostOrderAll(p, innerDirs[..k])
    {
      ghost var before := flat.items;
      CollectInner(innerDirs[k], p + [innerDirs[k].name], flat);
      assert innerDirs[..k + 1][..k] == innerDirs[..k];
      Associative(old(flat.items), PostOrderAll(p, innerDirs[..k]), PostOrder(p + [innerDirs[k].name], innerDirs[k]));
      k := k + 1;
    }
    assert innerDirs[..k] == d.children;
    flat.Add(p);
    Associative(old(flat.items), PostOrderAll(p, d.children), [p]);
  }

  /** The directory a path names, when the tree `fs` sits at path `base`. */
  function Lookup(fs: Dir, base: Path, t: Path): Option<Dir> {
    if IsPrefix(base, t) then Find(fs, t[|base|..]) else None
  }

  ghost predicate AllFound(fs: Dir, base: Path, targets: seq<Path>) {
    forall i :: 0 <= i < |targets| ==> Lookup(fs, base, targets[i]).Some?
  }

  /** The listing `FlattenTargets` builds: the post-order listing of each
      target's subtree, target after target. */
  function Flatten(fs: Dir, base: Path, targets: seq<Path>): seq<Path>
    requires AllFound(fs, base, targets)
  {
    if targets == [] then []
    else
      var t := targets[|targets| - 1];
      Flatten(fs, base, targets[..|targets| - 1]) + PostOrder(t, Lookup(fs, base, t).value)
  }

  /** Targets are handled in the order given: the listing of a sequence of
      targets is the listing of its first part followed by that of the rest. */
  lemma {:induction false} FlattenAppend(fs: Dir, base: Path, t1: seq<Path>, t2: seq<Path>)
    requires AllFound(fs, base, t1 + t2)
    ensures AllFound(fs, base, t1) && AllFound(fs, base, t2)
    ensures Flatten(fs, base, t1 + t2) == Flatten(fs, base, t1) + Flatten(fs, base, t2)
    decreases |t2|
  {
    assert forall i :: 0 <= i < |t1| ==> (t1 + t2)[i] == t1[i];
    assert forall i :: 0 <= i < |t2| ==> (t1 + t2)[|t1| + i] == t2[i];
    if t2 == [] {
      assert t1 + t2 == t1;
    } else {
      var init := t2[..|t2| - 1];
      assert (t1 + t2)[..|t1 + t2| - 1] == t1 + init;
      FlattenAppend(fs, base, t1, init);
      Associative(Flatten(fs, base, t1), Flatten(fs, base, init), PostOrder(t2[|t2| - 1], Lookup(fs, base, t2[|t2| - 1]).value));
    }
  }

  /** `FlattenTargets`: the listings of all targets, in order. A target
      that names no directory makes the listing fail (the exception
      `Directory.GetDirectories` throws); `ok` reports that. */
  method FlattenTargets(fs: Dir, base: Path, targets: seq<Path>) returns (ok: bool, flat: PathList)
    ensures fresh(flat)
    ensures ok <==> AllFound(fs, base, targets)
    ensures ok ==> flat.items == Flatten(fs, base, targets)
  {
    flat := new PathList();
    var k := 0;
    while k < |targets|
      invariant 0 <= k <= |targets|
      invariant AllFound(fs, base, targets[..k])
      invariant flat.items == Flatten(fs, base, targets[..k])
    {
      var target := targets[k];
      var sub := Lookup(fs, base, target);
      if sub.None? {
        return false, flat;
      }
      CollectInner(sub.value, target, flat);
      assert targets[..k + 1][..k] == targets[..k];
      k := k + 1;
    }
    assert targets[..k] == targets;
    ok := true;
  }

  // ---------------------------------------------------------------------
  // GetTargets / CollectIncludes

  /** What `CollectIncludes` does with a child called `name`: take it as a
      target, skip it, or look inside it. The include list is consulted
      first, so a name in both lists is taken. */
  datatype Verdict = Take | Skip | Explore

  function Classify(name: string, inc: seq<string>, exc: Option<seq<string>>): Verdict {
    if name in inc then Take
    else if exc.Some? && name in exc.value then Skip
    else Explore
  }

  /** The targets of the first loop of `CollectIncludes`: the paths of the
      children taken, in listing order. */
  function Matching(p: Path, cs: seq<Dir>, inc: seq<string>, exc: Option<seq<string>>): seq<Path> {
    if cs == [] then []
    else
      var last := cs[|cs| - 1];
      Matching(p, cs[..|cs| - 1], inc, exc) + (if Classify(last.name, inc, exc) == Take then [p + [last.name]] else [])
  }

  /** The `toExplore` list of `CollectIncludes`: the children to look inside,
      in listing order. */
  function ToExplore(cs: seq<Dir>, inc: seq<string>, exc: Option<seq<string>>): (r: seq<Dir>)
    ensures SizeAll(r) <= SizeAll(cs)
    ensures forall x :: x in r ==> x in cs
  {
    if cs == [] then []
    else
      var last := cs[|cs| - 1];
      var r := ToExplore(cs[..|cs| - 1], inc, exc);
      if Classify(last.name, inc, exc) == Explore then
        assert (r + [last])[..|r|] == r;
        r + [last]
      else r
  }

  /** What `CollectIncludes(p)` appends for the directory `d` at path `p`:
      the children taken, then what each explored child yields, in order. */
  function Includes(p: Path, d: Dir, inc: seq<string>, exc: Option<seq<string>>): seq<Path>
    decreases Size(d), 0
  {
    Matching(p, d.children, inc, exc) + ExploreAll(p, ToExplore(d.children, inc, exc), inc, exc)
  }

  function ExploreAll(p: Path, es: seq<Dir>, inc: seq<string>, exc: Option<seq<string>>): seq<Path>
    decreases SizeAll(es), 1
  {
    if es == [] then []
    else
      var last := es[|es| - 1];
      assert SizeAll(es) == SizeAll(es[..|es| - 1]) + Size(last);
      ExploreAll(p, es[..|es| - 1], inc, exc) + Includes(p + [last.name], last, inc, exc)
  }

  /** The reference definition of a target, independent of the traversal:
      `rel` leads from `d` through existing directories whose names are
      neither included nor excluded, to a directory whose name is included. */
  ghost predicate IsTarget(d: Dir, rel: Path, inc: seq<string>, exc: Option<seq<string>>)
    decreases |rel|
  {
    |rel| >= 1 && ChildNamed(d.children, rel[0]).Some? &&
    match Classify(rel[0], inc, exc)
    case Take => |rel| == 1
    case Skip => false
    case Explore => IsTarget(ChildNamed(d.children, rel[0]).value, rel[1..], inc, exc)
  }

  /** The first loop takes exactly the children whose name is included. */
  lemma {:induction false} MatchingMember(p: Path, cs: seq<Dir>, inc: seq<string>, exc: Option<seq<string>>, q: Path)
    ensures q in Matching(p, cs, inc, exc) <==>
      |q| == |p| + 1 && q[..|p|] == p && ChildNamed(cs, q[|p|]).Some? && q[|p|] in inc
  {
    if cs != [] {
      var init, last := cs[..|cs| - 1], cs[|cs| - 1];
      MatchingMember(p, init, inc, exc, q);
      if q == p + [last.name] {
        assert q[..|p|] == p && q[|p|] == last.name;
      }
      if |q| == |p| + 1 && q[..|p|] == p && q[|p|] == last.name {
        assert q == q[..|p|] + [q[|p|]];
      }
    }
  }

  /** Looking a name up among the children to explore finds the same child
      as among all children when that name is to be explored, and nothing
      otherwise. */
  lemma {:induction false} ChildNamedToExplore(cs: seq<Dir>, inc: seq<string>, exc: Option<seq<string>>, x: string)
    ensures ChildNamed(ToExplore(cs, inc, exc), x) ==
      if Classify(x, inc, exc) == Explore then ChildNamed(cs, x) else None
  {
    if cs != [] {
      var init, last := cs[..|cs| - 1], cs[|cs| - 1];
      var r := ToExplore(init, inc, exc);
      ChildNamedToExplore(init, inc, exc, x);
      if Classify(last.name, inc, exc) == Explore {
        var r' := r + [last];
        assert ToExplore(cs, inc, exc) == r';
        assert r'[..|r|] == r;
        assert ChildNamed(r', x) == if last.name == x then Some(last) else ChildNamed(r, x);
      } else {
        assert ToExplore(cs, inc, exc) == r;
      }
    }
  }

  /** The children to explore keep the siblings' distinct names and are
      well formed when the directory is. */
  lemma {:induction false} ToExploreDistinct(cs: seq<Dir>, inc: seq<string>, exc: Option<seq<string>>)
    requires DistinctNames(cs)
    ensures DistinctNames(ToExplore(cs, inc, exc))
  {
    if cs != [] {
      var init, last := cs[..|cs| - 1], cs[|cs| - 1];
      var r := ToExplore(init, inc, exc);
      ToExploreDistinct(init, inc, exc);
      if Classify(last.name, inc, exc) == Explore {
        var r' := r + [last];
        forall i, j | 0 <= i < j < |r'|
          ensures r'[i].name != r'[j].name
        {
          if j == |r| {
            assert r[i] in init;
          } else {
            assert r'[i] == r[i] && r'[j] == r[j];
          }
        }
      }
    }
  }

  /** The selection is exactly the set of targets of the reference
      definition under `p`. */
  lemma {:induction false} IncludesMember(p: Path, d: Dir, inc: seq<string>, exc: Option<seq<string>>, q: Path)
    requires WellFormed(d)
    ensures q in Includes(p, d, inc, exc) <==> IsPrefix(p, q) && IsTarget(d, q[|p|..], inc, exc)
    decreases Size(d), 0
  {
    var es := ToExplore(d.children, inc, exc);
    MatchingMember(p, d.children, inc, exc, q);
    ToExploreDistinct(d.children, inc, exc);
    forall k | 0 <= k < |es|
      ensures WellFormed(es[k])
    {
      assert es[k] in d.children;
    }
    ExploreAllMember(p, es, inc, exc, q);
    if |p| < |q| && q[..|p|] == p {
      var rel := q[|p|..];
      ChildNamedToExplore(d.children, inc, exc, q[|p|]);
      assert rel[0] == q[|p|] && rel[1..] == q[|p| + 1..];
    } else if IsPrefix(p, q) {
      assert q[|p|..] == [];
    }
  }

  lemma {:induction false} ExploreAllMember(p: Path, es: seq<Dir>, inc: seq<string>, exc: Option<seq<string>>, q: Path)
    requires DistinctNames(es)
    requires forall k :: 0 <= k < |es| ==> WellFormed(es[k])
    ensures q in ExploreAll(p, es, inc, exc) <==>
      |p| < |q| && q[..|p|] == p && ChildNamed(es, q[|p|]).Some? &&
      IsTarget(ChildNamed(es, q[|p|]).value, q[|p| + 1..], inc, exc)
    decreases SizeAll(es), 1
  {
    if es != [] {
      var init, last := es[..|es| - 1], es[|es| - 1];
      var n := last.name;
      assert SizeAll(es) == SizeAll(init) + Size(last);
      ExploreAllMember(p, init, inc, exc, q);
      IncludesMember(p + [n], last, inc, exc, q);
      PrefixSnoc(p, n, q);
      if |p| < |q| && q[..|p|] == p && q[|p|] == n {
        assert ChildNamed(init, n).None?;
        assert q[|p| + 1..] == q[|p + [n]|..];
      }
    }
  }

  /** Every target the first loop adds is a child of `p`. */
  lemma {:induction false} MatchingShape(p: Path, cs: seq<Dir>, inc: seq<string>, exc: Option<seq<string>>)
    ensures forall i :: 0 <= i < |Matching(p, cs, inc, exc)| ==>
      |Matching(p, cs, inc, exc)[i]| == |p| + 1 && IsPrefix(p, Matching(p, cs, inc, exc)[i])
  {
    if cs != [] {
      MatchingShape(p, cs[..|cs| - 1], inc, exc);
      assert (p + [cs[|cs| - 1].name])[..|p|] == p;
    }
  }

  /** Every target lies strictly below `p`. */
  lemma {:induction false} IncludesDepth(p: Path, d: Dir, inc: seq<string>, exc: Option<seq<string>>)
    ensures forall i :: 0 <= i < |Includes(p, d, inc, exc)| ==>
      |p| < |Includes(p, d, inc, exc)[i]| && IsPrefix(p, Includes(p, d, inc, exc)[i])
    decreases Size(d), 0
  {
    var m, x := Matching(p, d.children, inc, exc), ExploreAll(p, ToExplore(d.children, inc, exc), inc, exc);
    MatchingShape(p, d.children, inc, exc);
    ExploreAllDepth(p, ToExplore(d.children, inc, exc), inc, exc);
    assert forall i :: 0 <= i < |m + x| ==> (m + x)[i] == if i < |m| then m[i] else x[i - |m|];
  }

  /** What the explored children yield lies at least two levels below `p`. */
  lemma {:induction false} ExploreAllDepth(p: Path, es: seq<Dir>, inc: seq<string>, exc: Option<seq<string>>)
    ensures forall i :: 0 <= i < |ExploreAll(p, es, inc, exc)| ==>
      |p| + 1 < |ExploreAll(p, es, inc, exc)[i]| && IsPrefix(p, ExploreAll(p, es, inc, exc)[i])
    decreases SizeAll(es), 1
  {
    if es != [] {
      var init, last := es[..|es| - 1], es[|es| - 1];
      var n := last.name;
      assert SizeAll(es) == SizeAll(init) + Size(last);
      var a, b := ExploreAll(p, init, inc, exc), Includes(p + [n], last, inc, exc);
      ExploreAllDepth(p, init, inc, exc);
      IncludesDepth(p + [n], last, inc, exc);
      forall i | 0 <= i < |a + b|
        ensures |p| + 1 < |(a + b)[i]| && IsPrefix(p, (a + b)[i])
      {
        if i < |a| {
          assert (a + b)[i] == a[i];
        } else {
          var q := b[i - |a|];
          assert (a + b)[i] == q;
          PrefixSnoc(p, n, q);
        }
      }
    }
  }

  /** The directory itself is never a target, and at every level the
      children taken come before anything found deeper down. */
  lemma IncludesOrder(p: Path, d: Dir, inc: seq<string>, exc: Option<seq<string>>)
    ensures p !in Includes(p, d, inc, exc)
    ensures forall i, j ::
      (0 <= i < |Includes(p, d, inc, exc)| && 0 <= j < |Includes(p, d, inc, exc)| &&
       |Includes(p, d, inc, exc)[i]| == |p| + 1 && |Includes(p, d, inc, exc)[j]| > |p| + 1) ==> i < j
  {
    var m, x := Matching(p, d.children, inc, exc), ExploreAll(p, ToExplore(d.children, inc, exc), inc, exc);
    IncludesDepth(p, d, inc, exc);
    MatchingShape(p, d.children, inc, exc);
    ExploreAllDepth(p, ToExplore(d.children, inc, exc), inc, exc);
    assert forall i :: 0 <= i < |m + x| ==> (m + x)[i] == if i < |m| then m[i] else x[i - |m|];
  }

  /** A target names an existing directory. */
  lemma {:induction false} TargetFound(d: Dir, rel: Path, inc: seq<string>, exc: Option<seq<string>>)
    requires IsTarget(d, rel, inc, exc)
    ensures Find(d, rel).Some?
    decreases |rel|
  {
    if Classify(rel[0], inc, exc) == Explore {
      TargetFound(ChildNamed(d.children, rel[0]).value, rel[1..], inc, exc);
    } else {
      assert rel[1..] == [];
    }
  }

  /** What `GetTargets` returns for the tree `fs` found at `args.Path`: that
      path alone when there is no include list, otherwise the selection below
      it. */
  function Targets(fs: Dir, args: RmrfArgs): seq<Path> {
    match args.Include
    case None => [[args.Path]]
    case Some(inc) => Includes([args.Path], fs, inc, args.Exclude)
  }

  /** Every path `GetTargets` returns names a directory of the tree, so
      `FlattenTargets` never fails on them. */
  lemma TargetsFound(fs: Dir, args: RmrfArgs)
    requires WellFormed(fs)
    ensures AllFound(fs, [args.Path], Targets(fs, args))
  {
    var base: Path := [args.Path];
    var ts := Targets(fs, args);
    forall i | 0 <= i < |ts|
      ensures Lookup(fs, base, ts[i]).Some?
    {
      if args.Include.Some? {
        IncludesMember(base, fs, args.Include.value, args.Exclude, ts[i]);
        TargetFound(fs, ts[i][|base|..], args.Include.value, args.Exclude);
      } else {
        assert ts[i][|base|..] == [];
      }
    }
  }

  // ---------------------------------------------------------------------
  // The listing as a whole

  /** No path occurs twice. */
  ghost predicate NoRepeats(ps: seq<Path>) {
    forall i, j :: 0 <= i < j < |ps| ==> ps[i] != ps[j]
  }

  /** No entry lies under another entry or repeats it: the subtrees of the
      entries are pairwise apart. */
  ghost predicate Apart(ps: seq<Path>) {
    forall i, j :: 0 <= i < |ps| && 0 <= j < |ps| && IsPrefix(ps[i], ps[j]) ==> i == j
  }

  lemma PrefixTrans(a: Path, b: Path, c: Path)
    requires IsPrefix(a, b) && IsPrefix(b, c)
    ensures IsPrefix(a, c)
  {
    assert c[..|a|] == c[..|b|][..|a|];
  }

  /** Two paths above the same path lie one under the other. */
  lemma PrefixComparable(a: Path, b: Path, c: Path)
    requires IsPrefix(a, c) && IsPrefix(b, c)
    ensures IsPrefix(a, b) || IsPrefix(b, a)
  {
    if |a| <= |b| {
      assert b[..|a|] == c[..|b|][..|a|];
    } else {
      assert a[..|b|] == c[..|a|][..|b|];
    }
  }

  /** A name found among all siblings but the last is not the last one's. */
  lemma NotLastName(cs: seq<Dir>, x: string)
    requires DistinctNames(cs) && cs != [] && ChildNamed(cs[..|cs| - 1], x).Some?
    ensures x != cs[|cs| - 1].name
  {
    var init := cs[..|cs| - 1];
    var k :| 0 <= k < |init| && init[k] == ChildNamed(init, x).value;
    assert cs[k] == init[k];
  }

  /** Of two targets, neither lies strictly under the other: an included
      directory is taken, not looked into. */
  lemma {:induction false} TargetPrefix(d: Dir, r1: Path, r2: Path, inc: seq<string>, exc: Option<seq<string>>)
    requires IsTarget(d, r1, inc, exc) && IsTarget(d, r2, inc, exc) && IsPrefix(r1, r2)
    ensures r1 == r2
    decreases |r1|
  {
    assert r1[0] == r2[0];
    if Classify(r1[0], inc, exc) == Explore {
      assert r2[1..][..|r1| - 1] == r2[..|r1|][1..];
      TargetPrefix(ChildNamed(d.children, r1[0]).value, r1[1..], r2[1..], inc, exc);
      assert r1 == [r1[0]] + r1[1..] && r2 == [r2[0]] + r2[1..];
    } else {
      assert r2 == r2[..|r1|];
    }
  }

  /** The first loop takes each included child once. */
  lemma {:induction false} MatchingNoRepeats(p: Path, cs: seq<Dir>, inc: seq<string>, exc: Option<seq<string>>)
    requires DistinctNames(cs)
    ensures NoRepeats(Matching(p, cs, inc, exc))
  {
    if cs != [] {
      var init, last := cs[..|cs| - 1], cs[|cs| - 1];
      var m := Matching(p, init, inc, exc);
      assert DistinctNames(init) by {
        assert forall k :: 0 <= k < |init| ==> init[k] == cs[k];
      }
      MatchingNoRepeats(p, init, inc, exc);
      if Classify(last.name, inc, exc) == Take {
        var r := m + [p + [last.name]];
        forall i, j | 0 <= i < j < |r|
          ensures r[i] != r[j]
        {
          if j == |m| {
            MatchingMember(p, init, inc, exc, m[i]);
            NotLastName(cs, m[i][|p|]);
            assert r[j][|p|] == last.name;
          } else {
            assert r[i] == m[i] && r[j] == m[j];
          }
        }
      }
    }
  }

  /** `CollectIncludes` appends no target twice. */
  lemma {:induction false} IncludesNoRepeats(p: Path, d: Dir, inc: seq<string>, exc: Option<seq<string>>)
    requires WellFormed(d)
    ensures NoRepeats(Includes(p, d, inc, exc))
    decreases Size(d), 0
  {
    var es := ToExplore(d.children, inc, exc);
    var m, x := Matching(p, d.children, inc, exc), ExploreAll(p, es, inc, exc);
    MatchingNoRepeats(p, d.children, inc, exc);
    ToExploreDistinct(d.children, inc, exc);
    forall k | 0 <= k < |es|
      ensures WellFormed(es[k])
    {
      assert es[k] in d.children;
    }
    ExploreAllNoRepeats(p, es, inc, exc);
    MatchingShape(p, d.children, inc, exc);
    ExploreAllDepth(p, es, inc, exc);
    var r := m + x;
    forall i, j | 0 <= i < j < |r|
      ensures r[i] != r[j]
    {
      if j < |m| {
        assert r[i] == m[i] && r[j] == m[j];
      } else if |m| <= i {
        assert r[i] == x[i - |m|] && r[j] == x[j - |m|];
      } else {
        assert |r[i]| == |p| + 1 < |r[j]|;
      }
    }
  }

  lemma {:induction false} ExploreAllNoRepeats(p: Path, es: seq<Dir>, inc: seq<string>, exc: Option<seq<string>>)
    requires DistinctNames(es)
    requires forall k :: 0 <= k < |es| ==> WellFormed(es[k])
    ensures NoRepeats(ExploreAll(p, es, inc, exc))
    decreases SizeAll(es), 1
  {
    if es != [] {
      var init, last := es[..|es| - 1], es[|es| - 1];
      var n := last.name;
      assert SizeAll(es) == SizeAll(init) + Size(last);
      var a, b := ExploreAll(p, init, inc, exc), Includes(p + [n], last, inc, exc);
      assert forall k :: 0 <= k < |init| ==> init[k] == es[k];
      ExploreAllNoRepeats(p, init, inc, exc);
      IncludesNoRepeats(p + [n], last, inc, exc);
      IncludesDepth(p + [n], last, inc, exc);
      var r := a + b;
      forall i, j | 0 <= i < j < |r|
        ensures r[i] != r[j]
      {
        if j < |a| {
          assert r[i] == a[i] && r[j] == a[j];
        } else if |a| <= i {
          assert r[i] == b[i - |a|] && r[j] == b[j - |a|];
        } else {
          ExploreAllMember(p, init, inc, exc, a[i]);
          NotLastName(es, a[i][|p|]);
          PrefixSnoc(p, n, b[j - |a|]);
          assert r[j][|p|] == n;
        }
      }
    }
  }

  /** The targets `CollectIncludes` selects lie apart: none is another's
      ancestor, and none is listed twice. */
  lemma IncludesApart(p: Path, d: Dir, inc: seq<string>, exc: Option<seq<string>>)
    requires WellFormed(d)
    ensures Apart(Includes(p, d, inc, exc))
  {
    var r := Includes(p, d, inc, exc);
    IncludesNoRepeats(p, d, inc, exc);
    forall i, j | 0 <= i < |r| && 0 <= j < |r| && IsPrefix(r[i], r[j])
      ensures i == j
    {
      IncludesMember(p, d, inc, exc, r[i]);
      IncludesMember(p, d, inc, exc, r[j]);
      var r1, r2 := r[i][|p|..], r[j][|p|..];
      assert r2[..|r1|] == r[j][..|r[i]|][|p|..];
      TargetPrefix(d, r1, r2, inc, exc);
      assert r[i] == r[i][..|p|] + r1 && r[j] == r[j][..|p|] + r2;
    }
  }

  /** A directory of a well-formed tree is well formed. */
  lemma {:induction false} FindWellFormed(d: Dir, rel: Path)
    requires WellFormed(d) && Find(d, rel).Some?
    ensures WellFormed(Find(d, rel).value)
    decreases |rel|
  {
    if rel != [] {
      var c := ChildNamed(d.children, rel[0]).value;
      FindWellFormed(c, rel[1..]);
    }
  }

  /** The number of directories in the targets' subtrees, added up. */
  function TargetsSize(fs: Dir, base: Path, targets: seq<Path>): nat
    requires AllFound(fs, base, targets)
  {
    if targets == [] then 0
    else
      var t := targets[|targets| - 1];
      TargetsSize(fs, base, targets[..|targets| - 1]) + Size(Lookup(fs, base, t).value)
  }

  /** The listing holds one entry per directory of each target's subtree. */
  lemma {:induction false} FlattenSize(fs: Dir, base: Path, targets: seq<Path>)
    requires AllFound(fs, base, targets)
    ensures |Flatten(fs, base, targets)| == TargetsSize(fs, base, targets)
  {
    if targets != [] {
      var t := targets[|targets| - 1];
      FlattenSize(fs, base, targets[..|targets| - 1]);
      PostOrderSize(t, Lookup(fs, base, t).value);
    }
  }

  /** Every entry of the listing lies under one of the targets. */
  lemma {:induction false} FlattenUnder(fs: Dir, base: Path, targets: seq<Path>)
    requires AllFound(fs, base, targets)
    ensures forall i :: 0 <= i < |Flatten(fs, base, targets)| ==>
      exists k :: 0 <= k < |targets| && IsPrefix(targets[k], Flatten(fs, base, targets)[i])
  {
    if targets != [] {
      var n := |targets|;
      var init, t := targets[..n - 1], targets[n - 1];
      var a, b := Flatten(fs, base, init), PostOrder(t, Lookup(fs, base, t).value);
      FlattenUnder(fs, base, init);
      PostOrderUnder(t, Lookup(fs, base, t).value);
      var r := Flatten(fs, base, targets);
      assert r == a + b;
      forall i | 0 <= i < |r|
        ensures exists k :: 0 <= k < n && IsPrefix(targets[k], r[i])
      {
        if i < |a| {
          var k :| 0 <= k < |init| && IsPrefix(init[k], a[i]);
          assert targets[k] == init[k] && r[i] == a[i];
          assert IsPrefix(targets[k], r[i]);
        } else {
          assert r[i] == b[i - |a|] && targets[n - 1] == t;
          assert IsPrefix(targets[n - 1], r[i]);
        }
      }
    } else {
      assert Flatten(fs, base, targets) == [];
    }
  }

  /** For targets that lie apart in a well-formed tree, the whole listing
      puts every directory after everything below it and lists none twice
      (an entry that is an ancestor of, or equal to, another never comes
      earlier), across the targets as within each. */
  lemma {:induction false} FlattenOrder(fs: Dir, base: Path, targets: seq<Path>)
    requires WellFormed(fs) && AllFound(fs, base, targets) && Apart(targets)
    ensures forall i, j ::
      (0 <= i < |Flatten(fs, base, targets)| && 0 <= j < |Flatten(fs, base, targets)| &&
       IsPrefix(Flatten(fs, base, targets)[j], Flatten(fs, base, targets)[i])) ==> i <= j
  {
    if targets != [] {
      var n := |targets|;
      var init, t := targets[..n - 1], targets[n - 1];
      var sub := Lookup(fs, base, t).value;
      var a, b := Flatten(fs, base, init), PostOrder(t, sub);
      assert Apart(init) by {
        assert forall k :: 0 <= k < |init| ==> init[k] == targets[k];
      }
      FlattenOrder(fs, base, init);
      FlattenUnder(fs, base, init);
      FindWellFormed(fs, t[|base|..]);
      PostOrderOrder(t, sub);
      PostOrderUnder(t, sub);
      var r := a + b;
      forall i, j | 0 <= i < |r| && 0 <= j < |r| && IsPrefix(r[j], r[i])
        ensures i <= j
      {
        if i < |a| && j < |a| {
          assert r[i] == a[i] && r[j] == a[j];
        } else if |a| <= i && |a| <= j {
          assert r[i] == b[i - |a|] && r[j] == b[j - |a|];
        } else if j < |a| {
          var k :| 0 <= k < |init| && IsPrefix(init[k], a[j]);
          assert r[j] == a[j] && r[i] == b[i - |a|];
          PrefixTrans(init[k], r[j], r[i]);
          PrefixComparable(init[k], t, r[i]);
          assert false;
        }
      }
    }
  }

  /** The whole listing of a run: for a well-formed tree the targets of
      `GetTargets` lie apart, so the list `FlattenTargets` builds holds one
      entry per directory of their subtrees, never repeats one, and puts
      each directory after everything below it. */
  lemma TargetsListing(fs: Dir, args: RmrfArgs)
    requires WellFormed(fs)
    ensures Apart(Targets(fs, args))
    ensures AllFound(fs, [args.Path], Targets(fs, args))
    ensures |Flatten(fs, [args.Path], Targets(fs, args))| == TargetsSize(fs, [args.Path], Targets(fs, args))
    ensures forall i, j ::
      (0 <= i < |Flatten(fs, [args.Path], Targets(fs, args))| && 0 <= j < |Flatten(fs, [args.Path], Targets(fs, args))| &&
       IsPrefix(Flatten(fs, [args.Path], Targets(fs, args))[j], Flatten(fs, [args.Path], Targets(fs, args))[i])) ==> i <= j
  {
    var ts := Targets(fs, args);
    if args.Include.Some? {
      IncludesApart([args.Path], fs, args.Include.value, args.Exclude);
    }
    TargetsFound(fs, args);
    FlattenSize(fs, [args.Path], ts);
    FlattenOrder(fs, [args.Path], ts);
  }

  /** `CollectIncludes`: classifies the children of `d` (found at `p`),
      appending the included ones and remembering the ones to look inside,
      then looks inside those in turn. */
  method CollectIncludes(p: Path, d: Dir, inc: seq<string>, exc: Option<seq<string>>, targets: PathList)
    modifies targets
    ensures targets.items == old(targets.items) + Includes(p, d, inc, exc)
    decreases Size(d)
  {
    ghost var start := targets.items;
    var dirs := d.children;
    var toExplore: seq<Dir> := [];
    var k := 0;
    while k < |dirs|
      invariant 0 <= k <= |dirs|
      invariant targets.items == start + Matching(p, dirs[..k], inc, exc)
      invariant toExplore == ToExplore(dirs[..k], inc, exc)
    {
      var dir := dirs[k];
      var name := dir.name;
      ClassifyStep(p, dirs, k, inc, exc);
      if name in inc {
        Associative(start, Matching(p, dirs[..k], inc, exc), [p + [name]]);
        targets.Add(p + [name]);
      } else if exc.Some? && name in exc.value {
      } else {
        toExplore := toExplore + [dir];
      }
      k := k + 1;
    }
    assert dirs[..k] == d.children;
    ghost var matched := targets.items;
    var j := 0;
    while j < |toExplore|
      invariant 0 <= j <= |toExplore|
      invariant targets.items == matched + ExploreAll(p, toExplore[..j], inc, exc)
    {
      var dir := toExplore[j];
      ExploreStep(p, toExplore, j, inc, exc);
      SizeAllPrefix(toExplore, j + 1);
      Associative(matched, ExploreAll(p, toExplore[..j], inc, exc), Includes(p + [dir.name], dir, inc, exc));
      CollectIncludes(p + [dir.name], dir, inc, exc, targets);
      j := j + 1;
    }
    assert toExplore[..j] == toExplore;
    Associative(start, Matching(p, d.children, inc, exc), ExploreAll(p, toExplore, inc, exc));
  }

  /** One more child classified: the first loop's targets and `toExplore`
      grow by what that child's verdict adds. */
  lemma ClassifyStep(p: Path, dirs: seq<Dir>, k: nat, inc: seq<string>, exc: Option<seq<string>>)
    requires k < |dirs|
    ensures dirs[k].name in inc ==>
      Matching(p, dirs[..k + 1], inc, exc) == Matching(p, dirs[..k], inc, exc) + [p + [dirs[k].name]]
    ensures dirs[k].name !in inc ==> Matching(p, dirs[..k + 1], inc, exc) == Matching(p, dirs[..k], inc, exc)
    ensures Classify(dirs[k].name, inc, exc) == Explore ==>
      ToExplore(dirs[..k + 1], inc, exc) == ToExplore(dirs[..k], inc, exc) + [dirs[k]]
    ensures Classify(dirs[k].name, inc, exc) != Explore ==>
      ToExplore(dirs[..k + 1], inc, exc) == ToExplore(dirs[..k], inc, exc)
  {
    assert dirs[..k + 1][..k] == dirs[..k];
    assert Matching(p, dirs[..k], inc, exc) + [] == Matching(p, dirs[..k], inc, exc);
    assert ToExplore(dirs[..k], inc, exc) + [] == ToExplore(dirs[..k], inc, exc);
  }

  /** One more child explored: the second loop's output grows by that
      child's selection. */
  lemma ExploreStep(p: Path, es: seq<Dir>, j: nat, inc: seq<string>, exc: Option<seq<string>>)
    requires j < |es|
    ensures SizeAll(es[..j + 1]) == SizeAll(es[..j]) + Size(es[j])
    ensures ExploreAll(p, es[..j + 1], inc, exc) ==
      ExploreAll(p, es[..j], inc, exc) + Includes(p + [es[j].name], es[j], inc, exc)
  {
    assert es[..j + 1][..j] == es[..j];
  }

  /** A prefix of a list of directories is no bigger than the list. */
  lemma {:induction false} SizeAllPrefix(cs: seq<Dir>, k: nat)
    requires k <= |cs|
    ensures SizeAll(cs[..k]) <= SizeAll(cs)
    decreases |cs|
  {
    if k < |cs| {
      SizeAllPrefix(cs[..|cs| - 1], k);
      assert cs[..|cs| - 1][..k] == cs[..k];
    } else {
      assert cs[..k] == cs;
    }
  }

  /** `GetTargets`: the starting path alone without an include list,
      otherwise what `CollectIncludes` selects below it. */
  method GetTargets(fs: Dir, args: RmrfArgs) returns (res: PathList)
    ensures fresh(res)
    ensures res.items == Targets(fs, args)
  {
    res := new PathList();
    var path: Path := [args.Path];
    if args.Include.None? {
      res.Add(path);
      return;
    }
    CollectIncludes(path, fs, args.Include.value, args.Exclude, res);
  }
}
