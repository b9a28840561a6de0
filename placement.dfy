/**
 * Where buildFileTree puts each entry when the entry list describes a real
 * directory tree: every entry's depth is the number of '/' in its path, its
 * filename is the last path segment, no two entries share a path, and every
 * parent path is listed as a directory entry.  For such a list the build
 * never throws, and each entry sits at the position whose child names spell
 * out its path, one level below the root per segment.
 */
module FilePlacement {

  import opened Wrappers
  import opened Strings
  import opened FileTree
  import opened FileTreeProperties

  // ---------------------------------------------------------------------------
  // Well-formed entry lists

  /** The entry's depth and filename agree with its path. */
  predicate Consistent(e: Entry)
  {
    var parts := Split(e.path, '/');
    e.depth == |parts| - 1 && e.filename == parts[|parts| - 1]
  }

  /** `d` is the directory entry for the path `e` lives in. */
  predicate IsParentDir(d: Entry, e: Entry)
  {
    d.entryType == Directory && Split(d.path, '/') == ParentSegments(e.path)
  }

  predicate DistinctPaths(es: seq<Entry>)
  {
    forall i, j :: 0 <= i < j < |es| ==> es[i].path != es[j].path
  }

  /** An entry of the list below the top level has its parent directory in the list too. */
  predicate ParentListed(entries: seq<Entry>, e: Entry)
  {
    e in entries && e.depth > 0 ==> exists d :: d in entries && IsParentDir(d, e)
  }

  ghost predicate WellFormed(entries: seq<Entry>)
  {
    && (forall e :: e in entries ==> Consistent(e))
    && DistinctPaths(entries)
    && (forall e :: ParentListed(entries, e))
  }

  /** The i-th entry, if below the top level, comes after its parent directory. */
  predicate ParentBefore(es: seq<Entry>, i: int)
  {
    0 <= i < |es| && es[i].depth > 0 ==> exists j :: 0 <= j < i && IsParentDir(es[j], es[i])
  }

  ghost predicate ParentsFirst(es: seq<Entry>)
  {
    forall i :: ParentBefore(es, i)
  }

  // ---------------------------------------------------------------------------
  // What the tree looks like after some entries were inserted

  /** `e`'s node is at `p`, and the names on the way to `p` are its path segments. */
  ghost predicate Home(t: TreeNode, e: Entry, p: Position)
  {
    ValidPos(t, p) && Shaped(NodeAt(t, p), e) && PathNames(t, p) == Split(e.path, '/')
  }

  /** No two nodes below the top are reached by the same sequence of names. */
  ghost predicate UniqueNamePaths(t: TreeNode)
  {
    forall p1, p2 ::
      (p1 != [] && p2 != [] && ValidPos(t, p1) && ValidPos(t, p2) && PathNames(t, p1) == PathNames(t, p2))
      ==> p1 == p2
  }

  /** Every node below the top is the home of one of `done`. */
  ghost predicate FromEntries(t: TreeNode, done: seq<Entry>)
  {
    forall p :: p != [] && ValidPos(t, p) ==> exists j :: 0 <= j < |done| && Home(t, done[j], p)
  }

  /** `e`'s node is somewhere in `t`, at the position its path names. */
  ghost predicate Housed(t: TreeNode, e: Entry)
  {
    exists p :: Home(t, e, p)
  }

  ghost predicate AllAtHome(t: TreeNode, done: seq<Entry>)
  {
    forall j :: 0 <= j < |done| ==> Housed(t, done[j])
  }

  ghost predicate Inv(t: TreeNode, done: seq<Entry>)
  {
    t.DirectoryNode? && UniqueNamePaths(t) && FromEntries(t, done) && AllAtHome(t, done)
  }

  // ---------------------------------------------------------------------------
  // Names along positions

  lemma {:induction false} PathNamesLength(t: TreeNode, p: Position)
    requires ValidPos(t, p)
    ensures |PathNames(t, p)| == |p|
    decreases p
  {
    if p != [] {
      PathNamesLength(t.children[p[0]], p[1..]);
    }
  }

  lemma {:induction false} PathNamesExtends(t: TreeNode, u: TreeNode, p: Position)
    requires Extends(t, u) && ValidPos(t, p)
    ensures ValidPos(u, p) && PathNames(u, p) == PathNames(t, p)
    decreases p
  {
    if p != [] {
      PathNamesExtends(t.children[p[0]], u.children[p[0]], p[1..]);
    }
  }

  lemma {:induction false} PathNamesSnoc(t: TreeNode, p: Position, k: nat)
    requires ValidPos(t, p) && NodeAt(t, p).DirectoryNode? && k < |NodeAt(t, p).children|
    ensures ValidPos(t, p + [k])
    ensures PathNames(t, p + [k]) == PathNames(t, p) + [NodeAt(t, p).children[k].name]
    decreases p
  {
    NodeAtSnoc(t, p, k);
    if p != [] {
      assert (p + [k])[1..] == p[1..] + [k];
      PathNamesSnoc(t.children[p[0]], p[1..], k);
    }
  }

  lemma HomeExtends(t: TreeNode, u: TreeNode, e: Entry, p: Position)
    requires Extends(t, u) && Home(t, e, p)
    ensures Home(u, e, p)
  {
    PathNamesExtends(t, u, p);
    ExtendsAt(t, u, p);
  }

  /** Appending a childless node adds exactly one position: the new last child. */
  lemma {:induction false} AppendAtPositions(t: TreeNode, q: Position, n: TreeNode, p: Position)
    requires ValidPos(t, q) && NodeAt(t, q).DirectoryNode?
    requires n.FileNode? || n.children == []
    requires ValidPos(AppendAt(t, q, n), p)
    ensures ValidPos(t, p) || p == q + [|NodeAt(t, q).children|]
    decreases q
  {
    if q != [] && p != [] && p[0] == q[0] {
      AppendAtPositions(t.children[q[0]], q[1..], n, p[1..]);
      assert p == [p[0]] + p[1..];
      assert q + [|NodeAt(t, q).children|] == [q[0]] + (q[1..] + [|NodeAt(t, q).children|]);
    }
  }

  /** Two paths that split into the same segments are the same path. */
  lemma SplitInjective(a: string, b: string)
    requires Split(a, '/') == Split(b, '/')
    ensures a == b
  {
    JoinSplit(a, '/');
    JoinSplit(b, '/');
  }

  lemma {:induction false} UniqueNamesChild(t: TreeNode, c: nat)
    requires UniqueNamePaths(t) && t.DirectoryNode? && c < |t.children|
    ensures UniqueNamePaths(t.children[c])
  {
    var child := t.children[c];
    forall p1, p2 | p1 != [] && p2 != [] && ValidPos(child, p1) && ValidPos(child, p2) &&
      PathNames(child, p1) == PathNames(child, p2)
      ensures p1 == p2
    {
      var r1, r2 := [c] + p1, [c] + p2;
      assert r1[0] == c && r1[1..] == p1;
      assert r2[0] == c && r2[1..] == p2;
      assert ValidPos(t, r1) && ValidPos(t, r2);
      assert PathNames(t, r1) == PathNames(t, r2);
    }
  }

  /** With unique name paths, the child with a given name is the first one with it. */
  lemma FirstNamedIsOnly(t: TreeNode, c: nat, name: string)
    requires UniqueNamePaths(t) && t.DirectoryNode? && c < |t.children| && t.children[c].name == name
    ensures FirstNamed(t.children, name) == c
  {
    var k := FirstNamed(t.children, name);
    assert ValidPos(t, [k]) && ValidPos(t, [c]);
    assert PathNames(t, [k]) == [name] && PathNames(t, [c]) == [name];
    assert [k] == [c];
  }

  /** With unique name paths, the names along a position are a chain of first-named children. */
  lemma {:induction false} NamesGiveChain(t: TreeNode, p: Position, parts: seq<string>)
    requires UniqueNamePaths(t) && ValidPos(t, p) && PathNames(t, p) == parts
    ensures Chain(t, parts, p)
    decreases p
  {
    PathNamesLength(t, p);
    if p != [] {
      var c := p[0];
      FirstNamedIsOnly(t, c, parts[0]);
      UniqueNamesChild(t, c);
      NamesGiveChain(t.children[c], p[1..], parts[1..]);
    }
  }

  // ---------------------------------------------------------------------------
  // One insertion keeps every entry at home

  /** Where InsertEntry attaches `e`: a directory whose names are `e`'s parent segments. */
  lemma ParentFound(t: TreeNode, done: seq<Entry>, e: Entry) returns (q: Position)
    requires Inv(t, done) && Consistent(e)
    requires e.depth > 0 ==> exists j :: 0 <= j < |done| && IsParentDir(done[j], e)
    ensures ValidPos(t, q) && NodeAt(t, q).DirectoryNode?
    ensures PathNames(t, q) == ParentSegments(e.path)
    ensures InsertEntry(t, e) == Success(AppendAt(t, q, NewNode(e)))
  {
    if e.depth > 0 {
      var j :| 0 <= j < |done| && IsParentDir(done[j], e);
      q :| Home(t, done[j], q);
      NamesGiveChain(t, q, ParentSegments(e.path));
      InsertAlongChain(t, e, q);
    } else {
      q := [];
    }
  }

  /** The push at `q`: the entry's node becomes the new last child there, named by its filename. */
  lemma AppendFacts(t: TreeNode, q: Position, e: Entry)
    requires ValidPos(t, q) && NodeAt(t, q).DirectoryNode?
    ensures var u := AppendAt(t, q, NewNode(e));
      var qn := q + [|NodeAt(t, q).children|];
      && Extends(t, u) && ValidPos(u, qn) && NodeAt(u, qn) == NewNode(e)
      && PathNames(u, qn) == PathNames(t, q) + [e.filename]
  {
    var u := AppendAt(t, q, NewNode(e));
    AppendAtGrows(t, q, NewNode(e));
    PathNamesExtends(t, u, q);
    PathNamesSnoc(u, q, |NodeAt(t, q).children|);
    NodeAtSnoc(u, q, |NodeAt(t, q).children|);
  }

  lemma StepUnique(t: TreeNode, done: seq<Entry>, e: Entry, q: Position)
    requires Inv(t, done) && ValidPos(t, q) && NodeAt(t, q).DirectoryNode?
    requires forall j :: 0 <= j < |done| ==> done[j].path != e.path
    requires PathNames(t, q) + [e.filename] == Split(e.path, '/')
    ensures UniqueNamePaths(AppendAt(t, q, NewNode(e)))
  {
    var n := NewNode(e);
    var u := AppendAt(t, q, n);
    AppendFacts(t, q, e);
    forall p1, p2 | p1 != [] && p2 != [] && ValidPos(u, p1) && ValidPos(u, p2) &&
      PathNames(u, p1) == PathNames(u, p2)
      ensures p1 == p2
    {
      AppendAtPositions(t, q, n, p1);
      AppendAtPositions(t, q, n, p2);
      if ValidPos(t, p1) { PathNamesExtends(t, u, p1); }
      if ValidPos(t, p2) { PathNamesExtends(t, u, p2); }
      if ValidPos(t, p1) && !ValidPos(t, p2) {
        OldNameDiffers(t, done, e, p1);
      } else if !ValidPos(t, p1) && ValidPos(t, p2) {
        OldNameDiffers(t, done, e, p2);
      }
    }
  }

  lemma StepFrom(t: TreeNode, done: seq<Entry>, e: Entry, q: Position)
    requires FromEntries(t, done) && ValidPos(t, q) && NodeAt(t, q).DirectoryNode?
    requires PathNames(t, q) + [e.filename] == Split(e.path, '/')
    ensures FromEntries(AppendAt(t, q, NewNode(e)), done + [e])
  {
    var n := NewNode(e);
    var u := AppendAt(t, q, n);
    var qn := q + [|NodeAt(t, q).children|];
    var all := done + [e];
    AppendFacts(t, q, e);
    assert Home(u, e, qn);
    forall p | p != [] && ValidPos(u, p) ensures exists j :: 0 <= j < |all| && Home(u, all[j], p) {
      AppendAtPositions(t, q, n, p);
      if ValidPos(t, p) {
        var j :| 0 <= j < |done| && Home(t, done[j], p);
        HomeExtends(t, u, done[j], p);
        assert all[j] == done[j];
      } else {
        assert all[|done|] == e;
      }
    }
  }

  lemma StepHome(t: TreeNode, done: seq<Entry>, e: Entry, q: Position)
    requires AllAtHome(t, done) && ValidPos(t, q) && NodeAt(t, q).DirectoryNode?
    requires PathNames(t, q) + [e.filename] == Split(e.path, '/')
    ensures AllAtHome(AppendAt(t, q, NewNode(e)), done + [e])
  {
    var u := AppendAt(t, q, NewNode(e));
    var qn := q + [|NodeAt(t, q).children|];
    var all := done + [e];
    AppendFacts(t, q, e);
    forall j | 0 <= j < |all| ensures Housed(u, all[j]) {
      if j < |done| {
        var p :| Home(t, done[j], p);
        HomeExtends(t, u, done[j], p);
        assert all[j] == done[j];
        assert Home(u, all[j], p);
      } else {
        assert all[j] == e;
        assert Home(u, all[j], qn);
      }
    }
  }

  lemma InsertStep(t: TreeNode, done: seq<Entry>, e: Entry)
    requires Inv(t, done) && Consistent(e)
    requires forall j :: 0 <= j < |done| ==> done[j].path != e.path
    requires e.depth > 0 ==> exists j :: 0 <= j < |done| && IsParentDir(done[j], e)
    ensures InsertEntry(t, e).Success?
    ensures Inv(InsertEntry(t, e).value, done + [e])
  {
    var q := ParentFound(t, done, e);
    AppendFacts(t, q, e);
    StepUnique(t, done, e, q);
    StepFrom(t, done, e, q);
    StepHome(t, done, e, q);
  }

  /** A node already in the tree is not reached by the names of a new entry's path. */
  lemma OldNameDiffers(t: TreeNode, done: seq<Entry>, e: Entry, p: Position)
    requires Inv(t, done) && p != [] && ValidPos(t, p)
    requires forall j :: 0 <= j < |done| ==> done[j].path != e.path
    ensures PathNames(t, p) != Split(e.path, '/')
  {
    var j :| 0 <= j < |done| && Home(t, done[j], p);
    if PathNames(t, p) == Split(e.path, '/') {
      SplitInjective(done[j].path, e.path);
    }
  }

  // ---------------------------------------------------------------------------
  // The whole build

  lemma {:induction false} InsertPrefix(root: TreeNode, order: seq<Entry>, m: nat)
    requires root.DirectoryNode? && root.children == []
    requires forall i :: 0 <= i < |order| ==> Consistent(order[i])
    requires DistinctPaths(order) && ParentsFirst(order)
    requires m <= |order|
    ensures InsertAll(root, order[..m]).Success?
    ensures Inv(InsertAll(root, order[..m]).value, order[..m])
    decreases m
  {
    if m == 0 {
      assert order[..0] == [];
      EmptyInv(root);
    } else {
      InsertPrefix(root, order, m - 1);
      var done, e := order[..m - 1], order[m - 1];
      NextReady(order, m, done, e);
      InsertStep(InsertAll(root, done).value, done, e);
      InsertSnoc(root, done, e);
      PrefixSnoc(order, m);
    }
  }

  lemma PrefixSnoc<T>(s: seq<T>, m: nat)
    requires 0 < m <= |s|
    ensures s[..m] == s[..m - 1] + [s[m - 1]]
  {
  }

  lemma EmptyInv(root: TreeNode)
    requires root.DirectoryNode? && root.children == []
    ensures Inv(root, [])
  {
  }

  /** The next entry of the order has a new path and its parent directory already inserted. */
  lemma NextReady(order: seq<Entry>, m: nat, done: seq<Entry>, e: Entry)
    requires DistinctPaths(order) && ParentsFirst(order) && 0 < m <= |order|
    requires done == order[..m - 1] && e == order[m - 1]
    ensures forall j :: 0 <= j < |done| ==> done[j].path != e.path
    ensures e.depth > 0 ==> exists j :: 0 <= j < |done| && IsParentDir(done[j], e)
  {
    forall j | 0 <= j < |done| ensures done[j].path != e.path {
      assert done[j] == order[j];
    }
    if e.depth > 0 {
      assert ParentBefore(order, m - 1);
      var j :| 0 <= j < m - 1 && IsParentDir(order[j], order[m - 1]);
      assert done[j] == order[j];
    }
  }

  lemma InsertSnoc(root: TreeNode, done: seq<Entry>, e: Entry)
    requires InsertAll(root, done).Success?
    requires InsertEntry(InsertAll(root, done).value, e).Success?
    ensures InsertAll(root, done + [e]) == InsertEntry(InsertAll(root, done).value, e)
  {
    InsertAllConcat(root, done, [e]);
    InsertOne(InsertAll(root, done).value, e);
  }

  lemma InsertOne(t: TreeNode, e: Entry)
    requires InsertEntry(t, e).Success?
    ensures InsertAll(t, [e]) == InsertEntry(t, e)
  {
    assert [e][0] == e && [e][1..] == [];
  }

  lemma DistinctMembers(s: seq<Entry>, x: Entry, y: Entry)
    requires DistinctPaths(s) && x in s && y in s && x != y
    ensures x.path != y.path
  {
    var i :| 0 <= i < |s| && s[i] == x;
    var j :| 0 <= j < |s| && s[j] == y;
  }

  lemma DistinctConcat(a: seq<Entry>, b: seq<Entry>)
    requires DistinctPaths(a) && DistinctPaths(b)
    requires forall x, y :: x in a && y in b ==> x.path != y.path
    ensures DistinctPaths(a + b)
  {
    forall i, j | 0 <= i < j < |a + b| ensures (a + b)[i].path != (a + b)[j].path {
      if j < |a| {
        assert (a + b)[i] == a[i] && (a + b)[j] == a[j];
      } else if i < |a| {
        assert (a + b)[i] in a && (a + b)[j] in b;
      } else {
        assert (a + b)[i] == b[i - |a|] && (a + b)[j] == b[j - |a|];
      }
    }
  }

  lemma {:induction false} AtDepthDistinct(s: seq<Entry>, d: int)
    requires DistinctPaths(s)
    ensures DistinctPaths(AtDepth(s, d))
  {
    if s != [] {
      AtDepthDistinct(s[1..], d);
      AtDepthMembers(s[1..], d);
      var head := if s[0].depth == d then [s[0]] else [];
      forall x, y | x in head && y in AtDepth(s[1..], d) ensures x.path != y.path {
        var j :| 0 <= j < |s[1..]| && s[1..][j] == y;
        assert s[j + 1] == y;
      }
      DistinctConcat(head, AtDepth(s[1..], d));
    }
  }

  lemma {:induction false} LevelsDistinct(s: seq<Entry>, lo: int, hi: int)
    requires DistinctPaths(s)
    ensures DistinctPaths(Levels(s, lo, hi))
    decreases hi - lo
  {
    if lo <= hi {
      var level, rest := AtDepth(s, lo), Levels(s, lo + 1, hi);
      AtDepthDistinct(s, lo);
      LevelsDistinct(s, lo + 1, hi);
      AtDepthMembers(s, lo);
      LevelsMembers(s, lo + 1, hi);
      LevelsBounds(s, lo + 1, hi);
      forall x, y | x in level && y in rest ensures x.path != y.path {
        DistinctMembers(s, x, y);
      }
      DistinctConcat(level, rest);
    }
  }

  /** The depth loop reaches every entry of a well-formed list, and nothing else. */
  lemma OrderMembers(entries: seq<Entry>)
    requires forall e :: e in entries ==> Consistent(e)
    ensures forall e :: e in entries ==> e in DepthOrder(entries)
    ensures forall e :: e in DepthOrder(entries) ==> e in entries
  {
    LevelsMembers(entries, 0, MaxDepth(entries));
    DepthOrderPermutation(entries);
    forall e | e in entries ensures e in DepthOrder(entries) {
      assert e in Visited(entries);
      assert e in multiset(DepthOrder(entries));
    }
  }

  lemma ParentDepth(d: Entry, e: Entry)
    requires Consistent(d) && Consistent(e) && IsParentDir(d, e)
    ensures d.depth == e.depth - 1
  {
  }

  /** In the visiting order of a well-formed list each parent directory comes first. */
  lemma OrderParentsFirst(entries: seq<Entry>)
    requires WellFormed(entries)
    ensures ParentsFirst(DepthOrder(entries))
  {
    var order := DepthOrder(entries);
    OrderMembers(entries);
    DepthOrderSorted(entries);
    forall i ensures ParentBefore(order, i) {
      if 0 <= i < |order| && order[i].depth > 0 {
        var e := order[i];
        assert e in order;
        assert ParentListed(entries, e);
        var d :| d in entries && IsParentDir(d, e);
        ParentEarlier(order, i, d);
      }
    }
  }

  /** In a depth-sorted order, an entry's parent directory comes before it. */
  lemma ParentEarlier(order: seq<Entry>, i: int, d: Entry)
    requires DepthSorted(order) && 0 <= i < |order| && d in order
    requires Consistent(d) && Consistent(order[i]) && IsParentDir(d, order[i])
    ensures exists j :: 0 <= j < i && IsParentDir(order[j], order[i])
  {
    ParentDepth(d, order[i]);
    var j :| 0 <= j < |order| && order[j] == d;
    SortedEarlier(order, i, j);
  }

  lemma SortedEarlier(order: seq<Entry>, i: int, j: int)
    requires DepthSorted(order) && 0 <= i < |order| && 0 <= j < |order|
    requires order[j].depth < order[i].depth
    ensures j < i
  {
  }

  /** Inserting the visiting order of a well-formed list keeps every entry at home. */
  lemma BuiltInv(versionId: string, entries: seq<Entry>)
    requires WellFormed(entries)
    ensures Built(versionId, entries).Success?
    ensures Inv(Built(versionId, entries).value, DepthOrder(entries))
  {
    var order := DepthOrder(entries);
    OrderMembers(entries);
    OrderParentsFirst(entries);
    LevelsDistinct(entries, 0, MaxDepth(entries));
    InsertPrefix(RootNode(versionId), order, |order|);
    assert order[..|order|] == order;
  }

  /**
   * For a well-formed entry list the build succeeds, and each entry's node
   * sits one level below the root per path segment, reached through children
   * named by those segments.
   */
  lemma BuiltPlacesEntries(versionId: string, entries: seq<Entry>)
    requires WellFormed(entries)
    ensures Built(versionId, entries).Success?
    ensures var t := Built(versionId, entries).value;
      forall e :: e in entries ==>
        exists p :: ValidPos(t, p) && |p| == e.depth + 1 && Shaped(NodeAt(t, p), e) &&
          PathNames(t, p) == Split(e.path, '/')
  {
    var order := DepthOrder(entries);
    BuiltInv(versionId, entries);
    OrderMembers(entries);
    var t := Built(versionId, entries).value;
    forall e | e in entries
      ensures exists p ::
                ValidPos(t, p) && |p| == e.depth + 1 && Shaped(NodeAt(t, p), e) &&
                PathNames(t, p) == Split(e.path, '/')
    {
      assert e in order;
      EntryPlacement(t, order, e);
    }
  }

  /**
   * Nothing else is built: every node below the root of a well-formed build
   * is one entry's node, at the position its path names, and no two nodes
   * are reached by the same names.
   */
  lemma BuiltHasNothingElse(versionId: string, entries: seq<Entry>)
    requires WellFormed(entries)
    ensures Built(versionId, entries).Success?
    ensures var t := Built(versionId, entries).value;
      forall p :: p != [] && ValidPos(t, p) ==>
        exists e :: e in entries && Shaped(NodeAt(t, p), e) && PathNames(t, p) == Split(e.path, '/')
    ensures UniqueNamePaths(Built(versionId, entries).value)
  {
    var order := DepthOrder(entries);
    BuiltInv(versionId, entries);
    LevelsMembers(entries, 0, MaxDepth(entries));
    var t := Built(versionId, entries).value;
    forall p | p != [] && ValidPos(t, p)
      ensures exists e :: e in entries && Shaped(NodeAt(t, p), e) && PathNames(t, p) == Split(e.path, '/')
    {
      NodeOrigin(t, order, entries, p);
    }
  }

  lemma EntryPlacement(t: TreeNode, order: seq<Entry>, e: Entry)
    requires AllAtHome(t, order) && e in order && Consistent(e)
    ensures exists p ::
      ValidPos(t, p) && |p| == e.depth + 1 && Shaped(NodeAt(t, p), e) && PathNames(t, p) == Split(e.path, '/')
  {
    var j :| 0 <= j < |order| && order[j] == e;
    assert Housed(t, order[j]);
    var p :| Home(t, e, p);
    PathNamesLength(t, p);
  }

  lemma NodeOrigin(t: TreeNode, order: seq<Entry>, entries: seq<Entry>, p: Position)
    requires FromEntries(t, order) && p != [] && ValidPos(t, p)
    requires forall e :: e in order ==> e in entries
    ensures exists e ::
      e in entries && Shaped(NodeAt(t, p), e) && PathNames(t, p) == Split(e.path, '/')
  {
    var j :| 0 <= j < |order| && Home(t, order[j], p);
    assert order[j] in order;
  }
}
