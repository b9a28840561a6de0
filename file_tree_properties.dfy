/**
 * What buildFileTree guarantees, proved about the specification function
 * FileTree.Built (which the method FileTree.BuildFileTree is proved to compute).
 */
module FileTreeProperties {

  import opened Wrappers
  import opened FileTree

  // ---------------------------------------------------------------------------
  // Measures and relations on trees

  function Size(t: TreeNode): nat
    decreases t
  {
    match t
    case FileNode(_, _) => 1
    case DirectoryNode(_, _, ch) => 1 + SizeSeq(ch)
  }

  function SizeSeq(ts: seq<TreeNode>): nat
    decreases ts
  {
    if ts == [] then 0 else Size(ts[0]) + SizeSeq(ts[1..])
  }

  /**
   * `u` is `t` grown by appending only: same id, name and kind at the top,
   * and each child list of `t` is a prefix (child by child) of the one in `u`.
   */
  predicate Extends(t: TreeNode, u: TreeNode)
    decreases t
  {
    t.id == u.id && t.name == u.name &&
    match t
    case FileNode(_, _) => u.FileNode?
    case DirectoryNode(_, _, c) =>
      u.DirectoryNode? && |c| <= |u.children| &&
      forall k :: 0 <= k < |c| ==> Extends(c[k], u.children[k])
  }

  /** The node made from entry `e` has its id, name and kind. */
  predicate Shaped(n: TreeNode, e: Entry)
  {
    n.id == e.path && n.name == e.filename && (n.DirectoryNode? <==> e.entryType == Directory)
  }

  /** Some node below the top of `t` has `e`'s id, name and kind. */
  ghost predicate Placed(t: TreeNode, e: Entry)
  {
    exists p :: p != [] && ValidPos(t, p) && Shaped(NodeAt(t, p), e)
  }

  ghost predicate AllPlaced(t: TreeNode, es: seq<Entry>)
  {
    forall i :: 0 <= i < |es| ==> Placed(t, es[i])
  }

  /** The entries the depth loop can reach: all those with a non-negative depth, in input order. */
  function Visited(entries: seq<Entry>): (r: seq<Entry>)
    ensures forall e :: e in r <==> e in entries && e.depth >= 0
  {
    if entries == [] then []
    else (if entries[0].depth >= 0 then [entries[0]] else []) + Visited(entries[1..])
  }

  function InRange(entries: seq<Entry>, lo: int, hi: int): seq<Entry>
  {
    if entries == [] then []
    else (if lo <= entries[0].depth <= hi then [entries[0]] else []) + InRange(entries[1..], lo, hi)
  }

  // ---------------------------------------------------------------------------
  // Extends is a preorder

  lemma {:induction false} ExtendsReflexive(t: TreeNode)
    ensures Extends(t, t)
    decreases t
  {
    if t.DirectoryNode? {
      forall k | 0 <= k < |t.children| ensures Extends(t.children[k], t.children[k]) {
        ExtendsReflexive(t.children[k]);
      }
    }
  }

  lemma {:induction false} ExtendsTransitive(a: TreeNode, b: TreeNode, c: TreeNode)
    requires Extends(a, b) && Extends(b, c)
    ensures Extends(a, c)
    decreases a
  {
    if a.DirectoryNode? {
      forall k | 0 <= k < |a.children| ensures Extends(a.children[k], c.children[k]) {
        ExtendsTransitive(a.children[k], b.children[k], c.children[k]);
      }
    }
  }

  /** Growing a tree keeps every existing position, and what is there only grows. */
  lemma {:induction false} ExtendsAt(t: TreeNode, u: TreeNode, p: Position)
    requires Extends(t, u) && ValidPos(t, p)
    ensures ValidPos(u, p) && Extends(NodeAt(t, p), NodeAt(u, p))
    decreases p
  {
    if p != [] {
      ExtendsAt(t.children[p[0]], u.children[p[0]], p[1..]);
    }
  }

  // ---------------------------------------------------------------------------
  // Appending one node

  lemma {:induction false} SizeSeqAppend(s: seq<TreeNode>, n: TreeNode)
    ensures SizeSeq(s + [n]) == SizeSeq(s) + Size(n)
  {
    if s != [] {
      assert (s + [n])[1..] == s[1..] + [n];
      SizeSeqAppend(s[1..], n);
    }
  }

  lemma {:induction false} SizeSeqUpdate(s: seq<TreeNode>, k: nat, x: TreeNode)
    requires k < |s|
    ensures SizeSeq(s[k := x]) == SizeSeq(s) - Size(s[k]) + Size(x)
  {
    if k > 0 {
      assert s[k := x][1..] == s[1..][k - 1 := x];
      SizeSeqUpdate(s[1..], k - 1, x);
    }
  }

  /**
   * `push` onto the children of the node at `p`: that node gains `n` as its
   * last child, nothing already in the tree moves, and the size grows by n's.
   */
  lemma {:induction false} AppendAtGrows(t: TreeNode, p: Position, n: TreeNode)
    requires ValidPos(t, p) && NodeAt(t, p).DirectoryNode?
    ensures var r := AppendAt(t, p, n);
      && ValidPos(r, p)
      && NodeAt(r, p) == NodeAt(t, p).(children := NodeAt(t, p).children + [n])
      && Extends(t, r)
      && Size(r) == Size(t) + Size(n)
    decreases p
  {
    var r := AppendAt(t, p, n);
    if p == [] {
      SizeSeqAppend(t.children, n);
      forall k | 0 <= k < |t.children| ensures Extends(t.children[k], r.children[k]) {
        ExtendsReflexive(t.children[k]);
      }
    } else {
      var c := t.children[p[0]];
      AppendAtGrows(c, p[1..], n);
      SizeSeqUpdate(t.children, p[0], AppendAt(c, p[1..], n));
      forall k | 0 <= k < |t.children| ensures Extends(t.children[k], r.children[k]) {
        if k != p[0] { ExtendsReflexive(t.children[k]); }
      }
    }
  }

  /**
   * Nothing else changes: every position that does not lie on the way to `p`
   * holds the same subtree after the append.
   */
  lemma {:induction false} AppendAtElsewhere(t: TreeNode, p: Position, n: TreeNode, q: Position)
    requires ValidPos(t, p) && NodeAt(t, p).DirectoryNode?
    requires ValidPos(t, q) && !(|q| <= |p| && q == p[..|q|])
    ensures ValidPos(AppendAt(t, p, n), q) && NodeAt(AppendAt(t, p, n), q) == NodeAt(t, q)
    decreases p
  {
    if p != [] && q[0] == p[0] {
      AppendAtElsewhere(t.children[p[0]], p[1..], n, q[1..]);
    }
  }

  // ---------------------------------------------------------------------------
  // Inserting entries

  lemma InsertEntryGrows(t: TreeNode, e: Entry)
    requires InsertEntry(t, e).Success?
    ensures var u := InsertEntry(t, e).value;
      && Extends(t, u)
      && Size(u) == Size(t) + 1
      && exists p :: p != [] && ValidPos(u, p) && NodeAt(u, p) == NewNode(e)
  {
    var q := ParentOf(t, e).value;
    var u := AppendAt(t, q, NewNode(e));
    AppendAtGrows(t, q, NewNode(e));
    var k := |NodeAt(t, q).children|;
    NodeAtSnoc(u, q, k);
  }

  /**
   * A successful run of insertions only appends, adds one node per entry, and
   * leaves, for each entry, a node with its id, name and kind somewhere below
   * the top.
   */
  lemma {:induction false} InsertAllGrows(t: TreeNode, es: seq<Entry>)
    requires InsertAll(t, es).Success?
    ensures var u := InsertAll(t, es).value;
      Extends(t, u) && Size(u) == Size(t) + |es| && AllPlaced(u, es)
    decreases |es|
  {
    if es == [] {
      ExtendsReflexive(t);
    } else {
      var t1 := InsertEntry(t, es[0]).value;
      var u := InsertAll(t, es).value;
      InsertEntryGrows(t, es[0]);
      InsertAllGrows(t1, es[1..]);
      ExtendsTransitive(t, t1, u);
      forall i | 0 <= i < |es| ensures Placed(u, es[i]) {
        if i == 0 {
          var p :| p != [] && ValidPos(t1, p) && NodeAt(t1, p) == NewNode(es[0]);
          ExtendsAt(t1, u, p);
          assert Shaped(NodeAt(u, p), es[0]);
        } else {
          assert es[1..][i - 1] == es[i];
        }
      }
      assert AllPlaced(u, es);
    }
  }

  // ---------------------------------------------------------------------------
  // The depth order

  lemma {:induction false} LevelsBounds(entries: seq<Entry>, lo: int, hi: int)
    ensures forall e :: e in Levels(entries, lo, hi) ==> lo <= e.depth <= hi
    decreases hi - lo
  {
    if lo <= hi {
      LevelsBounds(entries, lo + 1, hi);
    }
  }

  predicate DepthSorted(s: seq<Entry>)
  {
    forall i, j :: 0 <= i < j < |s| ==> s[i].depth <= s[j].depth
  }

  lemma {:induction false} LevelsSorted(entries: seq<Entry>, lo: int, hi: int)
    ensures DepthSorted(Levels(entries, lo, hi))
    decreases hi - lo
  {
    if lo <= hi {
      var a := AtDepth(entries, lo);
      var b := Levels(entries, lo + 1, hi);
      LevelsSorted(entries, lo + 1, hi);
      LevelsBounds(entries, lo + 1, hi);
      var s := a + b;
      assert Levels(entries, lo, hi) == s;
      forall i, j | 0 <= i < j < |s| ensures s[i].depth <= s[j].depth {
        if j < |a| {
          assert s[i] == a[i] && s[j] == a[j];
          assert a[i] in a && a[j] in a;
        } else if i < |a| {
          assert s[i] == a[i] && a[i] in a;
          assert s[j] == b[j - |a|] && b[j - |a|] in b;
        } else {
          assert s[i] == b[i - |a|] && s[j] == b[j - |a|];
        }
      }
    }
  }

  /**
   * Depth order beats input order: the loop visits the entries in
   * non-decreasing depth, whatever order they came in.
   */
  lemma DepthOrderSorted(entries: seq<Entry>)
    ensures DepthSorted(DepthOrder(entries))
  {
    LevelsSorted(entries, 0, MaxDepth(entries));
  }

  lemma {:induction false} AtDepthConcat(a: seq<Entry>, b: seq<Entry>, d: int)
    ensures AtDepth(a + b, d) == AtDepth(a, d) + AtDepth(b, d)
  {
    if a == [] {
      assert a + b == b;
    } else {
      assert (a + b)[0] == a[0] && (a + b)[1..] == a[1..] + b;
      AtDepthConcat(a[1..], b, d);
    }
  }

  lemma {:induction false} AtDepthTwice(entries: seq<Entry>, d: int, d': int)
    ensures AtDepth(AtDepth(entries, d), d') == if d == d' then AtDepth(entries, d) else []
  {
    if entries != [] {
      var head := if entries[0].depth == d then [entries[0]] else [];
      AtDepthTwice(entries[1..], d, d');
      AtDepthConcat(head, AtDepth(entries[1..], d), d');
    }
  }

  lemma {:induction false} AtDepthLevels(entries: seq<Entry>, lo: int, hi: int, d: int)
    ensures AtDepth(Levels(entries, lo, hi), d) == if lo <= d <= hi then AtDepth(entries, d) else []
    decreases hi - lo
  {
    if lo <= hi {
      AtDepthConcat(AtDepth(entries, lo), Levels(entries, lo + 1, hi), d);
      AtDepthTwice(entries, lo, d);
      AtDepthLevels(entries, lo + 1, hi, d);
    }
  }

  lemma {:induction false} AtDepthAbsent(entries: seq<Entry>, d: int)
    requires forall e :: e in entries ==> e.depth != d
    ensures AtDepth(entries, d) == []
  {
    if entries != [] {
      assert entries[0] in entries;
      assert forall e :: e in entries[1..] ==> e in entries;
      AtDepthAbsent(entries[1..], d);
    }
  }

  /**
   * Within one depth the input order is kept: the entries of depth d are
   * visited in exactly the order they have in the input.
   */
  lemma DepthOrderStable(entries: seq<Entry>, d: int)
    ensures AtDepth(DepthOrder(entries), d) == if d >= 0 then AtDepth(entries, d) else []
  {
    var m := MaxDepth(entries);
    AtDepthLevels(entries, 0, m, d);
    if d > m {
      AtDepthAbsent(entries, d);
    }
  }

  lemma {:induction false} InRangeSplit(entries: seq<Entry>, lo: int, hi: int)
    requires lo <= hi
    ensures multiset(InRange(entries, lo, hi)) == multiset(AtDepth(entries, lo)) + multiset(InRange(entries, lo + 1, hi))
  {
    if entries != [] {
      InRangeSplit(entries[1..], lo, hi);
    }
  }

  lemma {:induction false} LevelsInRange(entries: seq<Entry>, lo: int, hi: int)
    ensures multiset(Levels(entries, lo, hi)) == multiset(InRange(entries, lo, hi))
    decreases hi - lo
  {
    if lo <= hi {
      LevelsInRange(entries, lo + 1, hi);
      InRangeSplit(entries, lo, hi);
    } else {
      InRangeEmpty(entries, lo, hi);
    }
  }

  lemma {:induction false} InRangeEmpty(entries: seq<Entry>, lo: int, hi: int)
    requires lo > hi
    ensures InRange(entries, lo, hi) == []
  {
    if entries != [] { InRangeEmpty(entries[1..], lo, hi); }
  }

  lemma {:induction false} InRangeAll(entries: seq<Entry>, m: int)
    requires forall e :: e in entries ==> e.depth <= m
    ensures InRange(entries, 0, m) == Visited(entries)
  {
    if entries != [] {
      assert entries[0] in entries;
      assert forall e :: e in entries[1..] ==> e in entries;
      InRangeAll(entries[1..], m);
    }
  }

  /** The depth loop visits every entry of non-negative depth exactly once, and nothing else. */
  lemma DepthOrderPermutation(entries: seq<Entry>)
    ensures multiset(DepthOrder(entries)) == multiset(Visited(entries))
    ensures |DepthOrder(entries)| == |Visited(entries)|
  {
    LevelsInRange(entries, 0, MaxDepth(entries));
    InRangeAll(entries, MaxDepth(entries));
    assert |multiset(DepthOrder(entries))| == |multiset(Visited(entries))|;
  }

  predicate Within(es: seq<Entry>, lo: int, hi: int)
  {
    forall i :: 0 <= i < |es| ==> lo <= es[i].depth <= hi
  }

  lemma {:induction false} SortedAboveLowest(es: seq<Entry>, lo: int)
    requires DepthSorted(es) && es != [] && es[0].depth > lo
    ensures AtDepth(es, lo) == []
  {
    forall e | e in es ensures e.depth != lo {
      var i :| 0 <= i < |es| && es[i] == e;
      assert es[0].depth <= es[i].depth;
    }
    AtDepthAbsent(es, lo);
  }

  lemma {:induction false} SortedSplitsAtLowest(es: seq<Entry>, lo: int, hi: int)
    requires DepthSorted(es) && Within(es, lo, hi)
    ensures es == AtDepth(es, lo) + InRange(es, lo + 1, hi)
  {
    if es != [] {
      if es[0].depth == lo {
        var tail := es[1..];
        TailSortedWithin(es, lo, hi);
        SortedSplitsAtLowest(tail, lo, hi);
        HeadAtLowest(es, lo, hi);
      } else {
        SortedAboveLowest(es, lo);
        InRangeKeepsAll(es, lo + 1, hi);
      }
    }
  }

  lemma WithinEmptyRange(es: seq<Entry>, lo: int, hi: int)
    requires Within(es, lo, hi)
    ensures lo > hi ==> es == []
  {
    if es != [] {
      assert lo <= es[0].depth <= hi;
    }
  }

  lemma TailSortedWithin(es: seq<Entry>, lo: int, hi: int)
    requires es != [] && DepthSorted(es) && Within(es, lo, hi)
    ensures DepthSorted(es[1..]) && Within(es[1..], lo, hi)
  {
  }

  lemma HeadAtLowest(es: seq<Entry>, lo: int, hi: int)
    requires es != [] && es[0].depth == lo
    requires es[1..] == AtDepth(es[1..], lo) + InRange(es[1..], lo + 1, hi)
    ensures es == AtDepth(es, lo) + InRange(es, lo + 1, hi)
  {
    var tail := es[1..];
    var low := AtDepth(tail, lo);
    var high := InRange(tail, lo + 1, hi);
    assert AtDepth(es, lo) == [es[0]] + low;
    assert InRange(es, lo + 1, hi) == high;
    ConsConcat(es[0], low, high);
    assert es == [es[0]] + tail;
  }

  lemma ConsConcat<T>(x: T, a: seq<T>, b: seq<T>)
    ensures [x] + a + b == [x] + (a + b)
  {
  }

  lemma {:induction false} InRangeKeepsAll(es: seq<Entry>, lo: int, hi: int)
    requires Within(es, lo, hi)
    ensures InRange(es, lo, hi) == es
  {
    if es != [] {
      assert Within(es[1..], lo, hi);
      InRangeKeepsAll(es[1..], lo, hi);
      assert es == [es[0]] + es[1..];
    }
  }

  lemma {:induction false} AtDepthInRange(es: seq<Entry>, lo: int, hi: int, d: int)
    requires lo <= d <= hi
    ensures AtDepth(InRange(es, lo, hi), d) == AtDepth(es, d)
  {
    if es != [] {
      var head := if lo <= es[0].depth <= hi then [es[0]] else [];
      AtDepthConcat(head, InRange(es[1..], lo, hi), d);
      AtDepthInRange(es[1..], lo, hi, d);
    }
  }

  lemma {:induction false} LevelsOfInRange(es: seq<Entry>, lo: int, hi: int)
    ensures Levels(InRange(es, lo, hi), lo, hi) == Levels(es, lo, hi)
    decreases hi - lo
  {
    if lo <= hi {
      AtDepthInRange(es, lo, hi, lo);
      LevelsOfInRange(es, lo + 1, hi);
      LevelsOfInRangeShift(es, lo, hi);
    }
  }

  lemma {:induction false} LevelsOfInRangeShift(es: seq<Entry>, lo: int, hi: int)
    requires lo <= hi
    ensures Levels(InRange(es, lo, hi), lo + 1, hi) == Levels(InRange(es, lo + 1, hi), lo + 1, hi)
  {
    LevelsAgree(InRange(es, lo, hi), InRange(es, lo + 1, hi), lo + 1, hi, es, lo);
  }

  lemma {:induction false} LevelsAgree(a: seq<Entry>, b: seq<Entry>, lo: int, hi: int, es: seq<Entry>, base: int)
    requires a == InRange(es, base, hi) && b == InRange(es, base + 1, hi) && base < lo
    ensures Levels(a, lo, hi) == Levels(b, lo, hi)
    decreases hi - lo
  {
    if lo <= hi {
      AtDepthInRange(es, base, hi, lo);
      AtDepthInRange(es, base + 1, hi, lo);
      LevelsAgree(a, b, lo + 1, hi, es, base);
      assert Levels(a, lo, hi) == AtDepth(a, lo) + Levels(a, lo + 1, hi);
      assert Levels(b, lo, hi) == AtDepth(b, lo) + Levels(b, lo + 1, hi);
    }
  }

  lemma {:induction false} LevelsOfSorted(es: seq<Entry>, lo: int, hi: int)
    requires DepthSorted(es) && Within(es, lo, hi)
    ensures Levels(es, lo, hi) == es
    decreases hi - lo
  {
    if lo > hi {
      WithinEmptyRange(es, lo, hi);
    } else {
      var low := AtDepth(es, lo);
      var rest := InRange(es, lo + 1, hi);
      SortedSplitsAtLowest(es, lo, hi);
      SuffixSortedWithin(es, |low|, lo + 1, hi);
      assert rest == es[|low|..];
      LevelsOfSorted(rest, lo + 1, hi);
      LevelsOfInRange(es, lo + 1, hi);
    }
  }

  lemma SuffixSortedWithin(es: seq<Entry>, k: nat, lo: int, hi: int)
    requires k <= |es| && DepthSorted(es)
    requires InRange(es, lo, hi) == es[k..]
    ensures DepthSorted(es[k..]) && Within(es[k..], lo, hi)
  {
    var r := es[k..];
    forall i | 0 <= i < |r| ensures lo <= r[i].depth <= hi {
      InRangeMembers(es, lo, hi, r[i]);
    }
  }

  lemma {:induction false} InRangeMembers(es: seq<Entry>, lo: int, hi: int, e: Entry)
    requires e in InRange(es, lo, hi)
    ensures lo <= e.depth <= hi
  {
    if es != [] && !(e == es[0] && lo <= es[0].depth <= hi) {
      InRangeMembers(es[1..], lo, hi, e);
    }
  }

  /**
   * Entries that already arrive sorted by depth (as the versions reducer
   * sends them) are visited exactly in input order.
   */
  lemma DepthOrderOfSortedInput(entries: seq<Entry>)
    requires DepthSorted(entries)
    requires forall i :: 0 <= i < |entries| ==> entries[i].depth >= 0
    ensures DepthOrder(entries) == entries
  {
    var m := MaxDepth(entries);
    assert forall i :: 0 <= i < |entries| ==> entries[i] in entries;
    assert Within(entries, 0, m);
    LevelsOfSorted(entries, 0, m);
  }

  // ---------------------------------------------------------------------------
  // The built tree

  /** The root: id `root-<versionId>`, name `versionId`, a directory; bare when there are no entries. */
  lemma BuiltRoot(versionId: string, entries: seq<Entry>)
    requires Built(versionId, entries).Success?
    ensures var t := Built(versionId, entries).value;
      t.DirectoryNode? && t.id == "root-" + versionId && t.name == versionId
    ensures entries == [] ==> Built(versionId, entries).value == RootNode(versionId)
  {
    InsertAllGrows(RootNode(versionId), DepthOrder(entries));
  }

  /** One node per visited entry: the tree has exactly that many nodes below the root. */
  lemma NodeCount(versionId: string, entries: seq<Entry>)
    requires Built(versionId, entries).Success?
    ensures Size(Built(versionId, entries).value) == 1 + |Visited(entries)|
  {
    InsertAllGrows(RootNode(versionId), DepthOrder(entries));
    DepthOrderPermutation(entries);
  }

  /** Every visited entry has a node below the root with its path as id, its file name as name, and its kind. */
  lemma EveryEntryPlaced(versionId: string, entries: seq<Entry>, e: Entry)
    requires Built(versionId, entries).Success?
    requires e in entries && e.depth >= 0
    ensures Placed(Built(versionId, entries).value, e)
  {
    var order := DepthOrder(entries);
    var root := RootNode(versionId);
    assert Built(versionId, entries) == InsertAll(root, order);
    InsertAllGrows(root, order);
    DepthOrderPermutation(entries);
    assert e in Visited(entries);
    assert e in multiset(order);
    var i :| 0 <= i < |order| && order[i] == e;
    assert Placed(InsertAll(root, order).value, order[i]);
  }

  function NewNodes(es: seq<Entry>): seq<TreeNode>
  {
    if es == [] then [] else [NewNode(es[0])] + NewNodes(es[1..])
  }

  lemma {:induction false} NewNodesAt(es: seq<Entry>)
    ensures |NewNodes(es)| == |es|
    ensures forall i :: 0 <= i < |es| ==> NewNodes(es)[i] == NewNode(es[i])
  {
    if es != [] { NewNodesAt(es[1..]); }
  }

  lemma InsertAllCons(t: TreeNode, es: seq<Entry>, u: TreeNode)
    requires es != [] && InsertEntry(t, es[0]) == Success(u)
    ensures InsertAll(t, es) == InsertAll(u, es[1..])
  {
  }

  lemma InsertDepthZero(t: TreeNode, e: Entry)
    requires t.DirectoryNode? && e.depth == 0
    ensures InsertEntry(t, e) == Success(DirectoryNode(t.id, t.name, t.children + [NewNode(e)]))
  {
  }

  lemma {:induction false} InsertAtTop(t: TreeNode, zs: seq<Entry>)
    requires t.DirectoryNode?
    requires forall e :: e in zs ==> e.depth == 0
    ensures InsertAll(t, zs) == Success(DirectoryNode(t.id, t.name, t.children + NewNodes(zs)))
    decreases |zs|
  {
    if zs == [] {
      assert t.children + [] == t.children;
    } else {
      assert zs[0] in zs;
      assert forall e :: e in zs[1..] ==> e in zs;
      var t1 := DirectoryNode(t.id, t.name, t.children + [NewNode(zs[0])]);
      InsertDepthZero(t, zs[0]);
      InsertAllCons(t, zs, t1);
      InsertAtTop(t1, zs[1..]);
      assert NewNodes(zs) == [NewNode(zs[0])] + NewNodes(zs[1..]);
      assert t1.children + NewNodes(zs[1..]) == t.children + NewNodes(zs);
    }
  }

  /**
   * Depth-0 entries go to the root, whatever their path says: the root's first
   * children are their nodes, in input order.
   */
  lemma DepthZeroAtRoot(versionId: string, entries: seq<Entry>)
    requires Built(versionId, entries).Success?
    ensures var t := Built(versionId, entries).value;
      var zs := AtDepth(entries, 0);
      t.DirectoryNode? && |zs| <= |t.children| && forall i :: 0 <= i < |zs| ==> Shaped(t.children[i], zs[i])
  {
    var zs := AtDepth(entries, 0);
    var rest := Levels(entries, 1, MaxDepth(entries));
    var root := RootNode(versionId);
    var t0 := DirectoryNode(root.id, root.name, NewNodes(zs));
    assert DepthOrder(entries) == zs + rest;
    InsertAllConcat(root, zs, rest);
    InsertAtTop(root, zs);
    assert [] + NewNodes(zs) == NewNodes(zs);
    assert InsertAll(root, zs) == Success(t0);
    InsertAllGrows(t0, rest);
    ExtendedPrefixShaped(t0, InsertAll(t0, rest).value, zs);
  }

  /** A tree that extends one whose children are the nodes of `zs` starts with children shaped like `zs`. */
  lemma ExtendedPrefixShaped(t0: TreeNode, t: TreeNode, zs: seq<Entry>)
    requires t0.DirectoryNode? && t0.children == NewNodes(zs) && Extends(t0, t)
    ensures t.DirectoryNode? && |zs| <= |t.children|
    ensures forall i :: 0 <= i < |zs| ==> Shaped(t.children[i], zs[i])
  {
    NewNodesAt(zs);
    forall i | 0 <= i < |zs| ensures Shaped(t.children[i], zs[i]) {
      assert Extends(t0.children[i], t.children[i]);
    }
  }

  /** Append order is kept: the tree after any later insertion extends the tree before it. */
  lemma AppendOnly(t: TreeNode, a: seq<Entry>, b: seq<Entry>)
    requires InsertAll(t, a + b).Success?
    ensures InsertAll(t, a).Success? && Extends(InsertAll(t, a).value, InsertAll(t, a + b).value)
  {
    InsertAllConcat(t, a, b);
    InsertAllGrows(InsertAll(t, a).value, b);
  }

  // ---------------------------------------------------------------------------
  // The segment walk

  /** Names of the nodes met along `p`, top first (the start node excluded). */
  function PathNames(n: TreeNode, p: Position): seq<string>
    requires ValidPos(n, p)
    decreases p
  {
    if p == [] then [] else [n.children[p[0]].name] + PathNames(n.children[p[0]], p[1..])
  }

  predicate IsSubsequence(a: seq<string>, b: seq<string>)
    decreases |b|
  {
    if a == [] then true
    else if b == [] then false
    else (a[0] == b[0] && IsSubsequence(a[1..], b[1..])) || IsSubsequence(a, b[1..])
  }

  /**
   * The walk only ever steps into a child named by a segment, in segment
   * order; when no segment is missing it follows the segments exactly.
   */
  lemma {:induction false} WalkFollowsSegments(n: TreeNode, parts: seq<string>)
    requires Walk(n, parts).Some?
    ensures IsSubsequence(PathNames(n, Walk(n, parts).value), parts)
    ensures |Walk(n, parts).value| == |parts| ==> PathNames(n, Walk(n, parts).value) == parts
    decreases |parts|
  {
    if parts != [] {
      var k := FirstNamed(n.children, parts[0]);
      var p := Walk(n, parts).value;
      if k < |n.children| {
        WalkFollowsSegments(n.children[k], parts[1..]);
        assert p[0] == k && p[1..] == Walk(n.children[k], parts[1..]).value;
        if |p| == |parts| {
          assert parts == [parts[0]] + parts[1..];
        }
      } else {
        WalkFollowsSegments(n, parts[1..]);
      }
    }
  }

  /** A tree in which every node is a directory. */
  /**
   * `p` is the chain of first-named children for `parts`: each step goes to
   * the first child named by the next segment, and no segment is skipped.
   */
  predicate Chain(n: TreeNode, parts: seq<string>, p: Position)
    decreases p
  {
    |p| == |parts| &&
    (p == [] ||
     (n.DirectoryNode? && p[0] < |n.children| && p[0] == FirstNamed(n.children, parts[0]) &&
      Chain(n.children[p[0]], parts[1..], p[1..])))
  }

  /** When every segment names a child along the way, the walk follows exactly that chain. */
  lemma {:induction false} WalkFindsChain(n: TreeNode, parts: seq<string>, p: Position)
    requires Chain(n, parts, p)
    ensures Walk(n, parts) == Some(p)
    ensures PathNames(n, p) == parts
    decreases p
  {
    if p != [] {
      WalkFindsChain(n.children[p[0]], parts[1..], p[1..]);
      assert [p[0]] + p[1..] == p;
      assert parts == [parts[0]] + parts[1..];
    }
  }

  /** Conversely, a walk that used every segment went along the chain of first-named children. */
  lemma {:induction false} WalkFullIsChain(n: TreeNode, parts: seq<string>)
    requires Walk(n, parts).Some? && |Walk(n, parts).value| == |parts|
    ensures Chain(n, parts, Walk(n, parts).value)
    decreases |parts|
  {
    if parts != [] {
      var k := FirstNamed(n.children, parts[0]);
      var p := Walk(n, parts).value;
      if k < |n.children| {
        WalkFullIsChain(n.children[k], parts[1..]);
        assert p[0] == k && p[1..] == Walk(n.children[k], parts[1..]).value;
      }
    }
  }

  /**
   * An entry whose parent segments form a chain to a directory becomes the
   * last child of that directory, and nothing already in the tree moves.
   */
  lemma InsertAlongChain(t: TreeNode, e: Entry, p: Position)
    requires e.depth > 0 && Chain(t, ParentSegments(e.path), p)
    requires ValidPos(t, p) && NodeAt(t, p).DirectoryNode?
    ensures InsertEntry(t, e) == Success(AppendAt(t, p, NewNode(e)))
    ensures var u := AppendAt(t, p, NewNode(e));
      && ValidPos(u, p)
      && NodeAt(u, p) == NodeAt(t, p).(children := NodeAt(t, p).children + [NewNode(e)])
      && Extends(t, u)
  {
    WalkFindsChain(t, ParentSegments(e.path), p);
    AppendAtGrows(t, p, NewNode(e));
  }

  predicate AllDirectories(t: TreeNode)
    decreases t
  {
    t.DirectoryNode? && forall k :: 0 <= k < |t.children| ==> AllDirectories(t.children[k])
  }

  /**
   * A missing segment is skipped, never an error: through directories the
   * walk always ends somewhere, on a directory.
   */
  lemma {:induction false} WalkTotalOnDirectories(n: TreeNode, parts: seq<string>)
    requires AllDirectories(n)
    ensures Walk(n, parts).Some? && NodeAt(n, Walk(n, parts).value).DirectoryNode?
    decreases |parts|
  {
    if parts != [] {
      var k := FirstNamed(n.children, parts[0]);
      if k < |n.children| {
        WalkTotalOnDirectories(n.children[k], parts[1..]);
      } else {
        WalkTotalOnDirectories(n, parts[1..]);
      }
    }
  }

  /** No child of `n` carries any of the names in `parts`. */
  predicate NoneNamed(n: TreeNode, parts: seq<string>)
  {
    n.DirectoryNode? &&
    forall k, i :: 0 <= k < |n.children| && 0 <= i < |parts| ==> n.children[k].name != parts[i]
  }

  /** When no segment matches a child, the walk stays where it started. */
  lemma {:induction false} WalkNoMatch(n: TreeNode, parts: seq<string>)
    requires NoneNamed(n, parts)
    ensures Walk(n, parts) == Some([])
    decreases |parts|
  {
    if parts != [] {
      assert FirstNamed(n.children, parts[0]) == |n.children|;
      assert NoneNamed(n, parts[1..]) by {
        forall k, i | 0 <= k < |n.children| && 0 <= i < |parts[1..]|
          ensures n.children[k].name != parts[1..][i]
        {
          assert parts[1..][i] == parts[i + 1];
        }
      }
      WalkNoMatch(n, parts[1..]);
    }
  }

  /**
   * An entry whose parent directories are all missing is neither dropped nor
   * an error: it is appended to the node the walk started from.
   */
  lemma UnmatchedEntryStaysHigh(t: TreeNode, e: Entry)
    requires e.depth > 0 && NoneNamed(t, ParentSegments(e.path))
    ensures InsertEntry(t, e) == Success(t.(children := t.children + [NewNode(e)]))
  {
    WalkNoMatch(t, ParentSegments(e.path));
  }
}
