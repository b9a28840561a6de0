/**
 * The sibling order that the reducer tests (src/reducers/fileTree.spec.tsx)
 * expect of a newer buildFileTree: in every children list, directories come
 * before files and each group is in name order, recursively.  The shown
 * buildFileTree does not sort; SortTree is that ordering as a separate pass
 * over a built tree.  The comparison is case-sensitive, by character code.
 */
module TreeOrder {

  import opened Strings
  import opened FileTree
  import opened FileTreeProperties

  /** `a` sorts strictly before `b`: directories first, then by name. */
  predicate Before(a: TreeNode, b: TreeNode)
  {
    (a.DirectoryNode? && b.FileNode?) || (a.DirectoryNode? == b.DirectoryNode? && LexLess(a.name, b.name))
  }

  /** Directories precede files, and within each group names ascend. */
  predicate Ordered(l: seq<TreeNode>)
  {
    forall i, j :: 0 <= i < j < |l| ==> !Before(l[j], l[i])
  }

  /** Every children list in the tree is Ordered. */
  predicate FullySorted(t: TreeNode)
    decreases t
  {
    t.FileNode? ||
    (Ordered(t.children) && forall k :: 0 <= k < |t.children| ==> FullySorted(t.children[k]))
  }

  /** Insert `x` before the first element that does not sort before it (stable). */
  function InsertSorted(x: TreeNode, l: seq<TreeNode>): (r: seq<TreeNode>)
    ensures |r| == |l| + 1
  {
    if l == [] || !Before(l[0], x) then [x] + l else [l[0]] + InsertSorted(x, l[1..])
  }

  /** Insertion sort of a sibling list; it keeps the length. */
  function SortNodes(l: seq<TreeNode>): (r: seq<TreeNode>)
    ensures |r| == |l|
  {
    if l == [] then [] else InsertSorted(l[0], SortNodes(l[1..]))
  }

  /** Sort every children list of the tree; each node keeps its id, name, kind and child count. */
  function SortTree(t: TreeNode): (r: TreeNode)
    ensures r.id == t.id && r.name == t.name && r.DirectoryNode? == t.DirectoryNode?
    ensures t.DirectoryNode? ==> |r.children| == |t.children|
    decreases t
  {
    match t
    case FileNode(_, _) => t
    case DirectoryNode(id, name, ch) => DirectoryNode(id, name, SortNodes(SortAll(ch)))
  }

  function SortAll(ch: seq<TreeNode>): (r: seq<TreeNode>)
    ensures |r| == |ch|
    decreases ch
  {
    if ch == [] then [] else [SortTree(ch[0])] + SortAll(ch[1..])
  }

  // ---------------------------------------------------------------------------
  // Before is a strict weak order

  lemma BeforeAsymmetric(a: TreeNode, b: TreeNode)
    requires Before(a, b)
    ensures !Before(b, a)
  {
    if Before(b, a) {
      LexLessTransitive(a.name, b.name, a.name);
      LexLessIrreflexive(a.name);
    }
  }

  lemma NotBeforeTransitive(a: TreeNode, b: TreeNode, c: TreeNode)
    requires !Before(b, a) && !Before(c, b)
    ensures !Before(c, a)
  {
    if Before(c, a) && c.DirectoryNode? == a.DirectoryNode? && b.DirectoryNode? == a.DirectoryNode? {
      LexLessTrichotomy(a.name, b.name);
      LexLessTrichotomy(b.name, c.name);
      if LexLess(a.name, b.name) && LexLess(b.name, c.name) {
        LexLessTransitive(a.name, b.name, c.name);
        LexLessTransitive(a.name, c.name, a.name);
      } else if LexLess(a.name, b.name) {
        LexLessTransitive(a.name, b.name, a.name);
      } else if LexLess(b.name, c.name) {
        LexLessTransitive(b.name, c.name, b.name);
      }
      LexLessIrreflexive(a.name);
      LexLessIrreflexive(b.name);
    }
  }

  // ---------------------------------------------------------------------------
  // Sorting one children list

  lemma {:induction false} InsertSortedPermutes(x: TreeNode, l: seq<TreeNode>)
    ensures multiset(InsertSorted(x, l)) == multiset(l) + multiset{x}
    ensures SizeSeq(InsertSorted(x, l)) == SizeSeq(l) + Size(x)
  {
    InsertSortedMultiset(x, l);
    InsertSortedSize(x, l);
  }

  lemma {:induction false} InsertSortedMultiset(x: TreeNode, l: seq<TreeNode>)
    ensures multiset(InsertSorted(x, l)) == multiset(l) + multiset{x}
  {
    if l != [] && Before(l[0], x) {
      InsertSortedMultiset(x, l[1..]);
      assert InsertSorted(x, l) == [l[0]] + InsertSorted(x, l[1..]);
      assert l == [l[0]] + l[1..];
    }
  }

  lemma {:induction false} InsertSortedSize(x: TreeNode, l: seq<TreeNode>)
    ensures SizeSeq(InsertSorted(x, l)) == SizeSeq(l) + Size(x)
  {
    var r := InsertSorted(x, l);
    if l != [] && Before(l[0], x) {
      InsertSortedSize(x, l[1..]);
      assert r[1..] == InsertSorted(x, l[1..]);
    } else {
      assert r[1..] == l;
    }
  }

  lemma {:induction false} InsertSortedOrdered(x: TreeNode, l: seq<TreeNode>)
    requires Ordered(l)
    ensures Ordered(InsertSorted(x, l))
  {
    if l == [] || !Before(l[0], x) {
      forall k | 0 <= k < |l| ensures !Before(l[k], x) {
        if k > 0 {
          NotBeforeTransitive(x, l[0], l[k]);
        }
      }
      ConsOrdered(x, l);
    } else {
      var tail := InsertSorted(x, l[1..]);
      InsertSortedOrdered(x, l[1..]);
      BeforeAsymmetric(l[0], x);
      InsertSortedBounded(x, l[1..], l[0]);
      ConsOrdered(l[0], tail);
    }
  }

  /** When neither `x` nor any element of `l` sorts before `b`, nothing in the insertion does. */
  lemma {:induction false} InsertSortedBounded(x: TreeNode, l: seq<TreeNode>, b: TreeNode)
    requires !Before(x, b)
    requires forall k :: 0 <= k < |l| ==> !Before(l[k], b)
    ensures forall k :: 0 <= k < |InsertSorted(x, l)| ==> !Before(InsertSorted(x, l)[k], b)
  {
    if l != [] && Before(l[0], x) {
      InsertSortedBounded(x, l[1..], b);
      var r := InsertSorted(x, l);
      forall k | 0 <= k < |r| ensures !Before(r[k], b) {
        if k > 0 {
          assert r[k] == InsertSorted(x, l[1..])[k - 1];
        }
      }
    }
  }

  /** A list stays ordered under a new head that nothing in it sorts before. */
  lemma ConsOrdered(y: TreeNode, tail: seq<TreeNode>)
    requires Ordered(tail)
    requires forall k :: 0 <= k < |tail| ==> !Before(tail[k], y)
    ensures Ordered([y] + tail)
  {
    var r := [y] + tail;
    forall i, j | 0 <= i < j < |r| ensures !Before(r[j], r[i]) {
      assert r[j] == tail[j - 1];
      if i > 0 {
        assert r[i] == tail[i - 1];
      }
    }
  }

  /** Sorting a children list orders it and only reorders it. */
  lemma {:induction false} SortNodesCorrect(l: seq<TreeNode>)
    ensures Ordered(SortNodes(l))
    ensures multiset(SortNodes(l)) == multiset(l)
    ensures SizeSeq(SortNodes(l)) == SizeSeq(l)
  {
    if l != [] {
      SortNodesCorrect(l[1..]);
      InsertSortedOrdered(l[0], SortNodes(l[1..]));
      InsertSortedPermutes(l[0], SortNodes(l[1..]));
      assert l == [l[0]] + l[1..];
    }
  }

  /** A list already in order is left exactly as it is. */
  lemma {:induction false} SortNodesFixpoint(l: seq<TreeNode>)
    requires Ordered(l)
    ensures SortNodes(l) == l
  {
    if l != [] {
      assert Ordered(l[1..]);
      SortNodesFixpoint(l[1..]);
      assert [l[0]] + l[1..] == l;
    }
  }

  // ---------------------------------------------------------------------------
  // Sorting the whole tree

  lemma {:induction false} SortAllAt(ch: seq<TreeNode>)
    ensures |SortAll(ch)| == |ch|
    ensures forall k :: 0 <= k < |ch| ==> SortAll(ch)[k] == SortTree(ch[k])
  {
    if ch != [] { SortAllAt(ch[1..]); }
  }

  /**
   * SortTree sorts every level, keeps the root's id, name and kind, and keeps
   * the node count; each children list is a reordering of its sorted children.
   */
  lemma {:induction false} SortTreeCorrect(t: TreeNode)
    ensures FullySorted(SortTree(t))
    ensures SortTree(t).id == t.id && SortTree(t).name == t.name
    ensures SortTree(t).DirectoryNode? == t.DirectoryNode?
    ensures t.DirectoryNode? ==> multiset(SortTree(t).children) == multiset(SortAll(t.children))
    ensures Size(SortTree(t)) == Size(t)
    decreases t
  {
    if t.DirectoryNode? {
      var ch := t.children;
      var sorted := SortAll(ch);
      SortAllAt(ch);
      SortNodesCorrect(sorted);
      forall k | 0 <= k < |ch| ensures FullySorted(sorted[k]) {
        SortTreeCorrect(ch[k]);
      }
      var r := SortNodes(sorted);
      forall k | 0 <= k < |r| ensures FullySorted(r[k]) {
        assert r[k] in multiset(sorted);
        var m :| 0 <= m < |sorted| && sorted[m] == r[k];
      }
      SortAllSize(ch);
    }
  }

  lemma {:induction false} SortAllSize(ch: seq<TreeNode>)
    ensures SizeSeq(SortAll(ch)) == SizeSeq(ch)
    decreases ch
  {
    if ch != [] {
      SortTreeCorrect(ch[0]);
      SortAllSize(ch[1..]);
    }
  }

  /** A tree that is already sorted at every level is left exactly as it is. */
  lemma {:induction false} SortTreeFixpoint(t: TreeNode)
    requires FullySorted(t)
    ensures SortTree(t) == t
    decreases t
  {
    if t.DirectoryNode? {
      var ch := t.children;
      SortAllAt(ch);
      forall k | 0 <= k < |ch| ensures SortAll(ch)[k] == ch[k] {
        SortTreeFixpoint(ch[k]);
      }
      assert SortAll(ch) == ch;
      SortNodesFixpoint(ch);
    }
  }

  /** Sorting twice gives the same tree as sorting once. */
  lemma SortTreeIdempotent(t: TreeNode)
    ensures SortTree(SortTree(t)) == SortTree(t)
  {
    SortTreeCorrect(t);
    SortTreeFixpoint(SortTree(t));
  }
}
