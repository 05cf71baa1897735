/** `balanced_tree<T, Compare>` of util.h: an ordered set kept in a binary search tree
    whose nodes store their depth, rebalanced by single rotations on the way back up
    from an insertion or a removal. The tree is modelled as an inductive value over
    `int` elements compared by `default_comparer`. */
module BalancedTrees {

  /** A node stores its value, its depth (0 for a node without children) and its two
      subtrees; `Nil` is the null pointer. */
  datatype Tree = Nil | Node(value: int, depth: nat, left: Tree, right: Tree)

  /** The elements of a tree. */
  function Keys(t: Tree): set<int>
  {
    match t
    case Nil => {}
    case Node(v, _, l, r) => Keys(l) + {v} + Keys(r)
  }

  /** The elements in the order of an in-order walk (`forEach`). */
  function InOrder(t: Tree): seq<int>
  {
    match t
    case Nil => []
    case Node(v, _, l, r) => InOrder(l) + [v] + InOrder(r)
  }

  /** The search-tree order under `compare`: smaller elements on the left, larger on
      the right. */
  ghost predicate Ordered(t: Tree)
  {
    match t
    case Nil => true
    case Node(v, _, l, r) =>
      && Ordered(l) && Ordered(r)
      && (forall k :: k in Keys(l) ==> k < v)
      && (forall k :: k in Keys(r) ==> v < k)
  }

  predicate Ascending(s: seq<int>)
  {
    forall i, j :: 0 <= i < j < |s| ==> s[i] < s[j]
  }

  /** A search tree lists its elements in strictly ascending order, each once. */
  lemma {:induction false} OrderedInOrder(t: Tree)
    requires Ordered(t)
    ensures Ascending(InOrder(t))
    ensures forall k :: k in InOrder(t) <==> k in Keys(t)
  {
    if t.Node? {
      OrderedInOrder(t.left);
      OrderedInOrder(t.right);
      var s := InOrder(t);
      var a, b := InOrder(t.left), InOrder(t.right);
      assert s == a + [t.value] + b;
      forall i, j | 0 <= i < j < |s|
        ensures s[i] < s[j]
      {
        if j < |a| {
        } else if i < |a| {
          assert a[i] in Keys(t.left);
          if j > |a| {
            assert s[j] == b[j - |a| - 1] && b[j - |a| - 1] in Keys(t.right);
          }
        } else if i == |a| {
          assert s[j] == b[j - |a| - 1] && b[j - |a| - 1] in Keys(t.right);
        } else {
          assert s[i] == b[i - |a| - 1] && s[j] == b[j - |a| - 1];
        }
      }
    }
  }

  /** The number of levels of a tree: 0 for `Nil`. */
  function Levels(t: Tree): nat
  {
    match t
    case Nil => 0
    case Node(_, _, l, r) => 1 + (if Levels(l) < Levels(r) then Levels(r) else Levels(l))
  }

  /** Every stored depth is the node's height. */
  ghost predicate DepthsOk(t: Tree)
  {
    match t
    case Nil => true
    case Node(_, d, l, r) => d + 1 == Levels(t) && DepthsOk(l) && DepthsOk(r)
  }

  /** `Node::calcDepth`: one more than the deeper child's stored depth, 0 without
      children. */
  function CalcDepth(l: Tree, r: Tree): nat
  {
    var newDepth := if l.Node? then 1 + l.depth else 0;
    if r.Node? && r.depth >= newDepth then 1 + r.depth else newDepth
  }

  /** A node over `l` and `r` with its depth recomputed. */
  function Make(v: int, l: Tree, r: Tree): (t: Tree)
    ensures Keys(t) == Keys(l) + {v} + Keys(r)
    ensures InOrder(t) == InOrder(l) + [v] + InOrder(r)
  {
    Node(v, CalcDepth(l, r), l, r)
  }

  /** `calcDepth` stores the height when the children's depths are right. */
  lemma MakeDepthsOk(v: int, l: Tree, r: Tree)
    requires DepthsOk(l) && DepthsOk(r)
    ensures DepthsOk(Make(v, l, r))
  {
  }

  /** `rotateLeft`: the right child becomes the root; the elements and their
      in-order sequence stay as they were. */
  function RotateLeft(t: Tree): (r: Tree)
    requires t.Node? && t.right.Node?
    ensures InOrder(r) == InOrder(t) && Keys(r) == Keys(t)
  {
    var a, b, c := InOrder(t.left), InOrder(t.right.left), InOrder(t.right.right);
    assert (a + [t.value] + b) + [t.right.value] + c == a + [t.value] + (b + [t.right.value] + c);
    Make(t.right.value, Make(t.value, t.left, t.right.left), t.right.right)
  }

  /** `rotateRight`: the left child becomes the root, with the same guarantee. */
  function RotateRight(t: Tree): (r: Tree)
    requires t.Node? && t.left.Node?
    ensures InOrder(r) == InOrder(t) && Keys(r) == Keys(t)
  {
    var a, b, c := InOrder(t.left.left), InOrder(t.left.right), InOrder(t.right);
    assert a + [t.left.value] + (b + [t.value] + c) == (a + [t.left.value] + b) + [t.value] + c;
    Make(t.left.value, t.left.left, Make(t.value, t.left.right, t.right))
  }

  lemma RotateLeftOrdered(t: Tree)
    requires t.Node? && t.right.Node? && Ordered(t)
    ensures Ordered(RotateLeft(t))
  {
    assert t.right.value in Keys(t.right);
  }

  lemma RotateRightOrdered(t: Tree)
    requires t.Node? && t.left.Node? && Ordered(t)
    ensures Ordered(RotateRight(t))
  {
    assert t.left.value in Keys(t.left);
  }

  /** The depths a rotation recomputes are the heights of the rotated nodes. */
  lemma RotationsKeepDepths(t: Tree)
    requires t.Node? && DepthsOk(t)
    ensures t.right.Node? ==> DepthsOk(RotateLeft(t))
    ensures t.left.Node? ==> DepthsOk(RotateRight(t))
  {
    if t.right.Node? {
      MakeDepthsOk(t.value, t.left, t.right.left);
      MakeDepthsOk(t.right.value, Make(t.value, t.left, t.right.left), t.right.right);
    }
    if t.left.Node? {
      MakeDepthsOk(t.value, t.left.right, t.right);
      MakeDepthsOk(t.left.value, t.left.left, Make(t.value, t.left.right, t.right));
    }
  }

  /** `balanceNode`: a single rotation towards the shallower side when the children's
      levels differ by more than one. */
  function Balance(t: Tree): (r: Tree)
    requires t.Node?
    ensures InOrder(r) == InOrder(t) && Keys(r) == Keys(t)
  {
    var lDepth := if t.left.Node? then t.left.depth + 1 else 0;
    var rDepth := if t.right.Node? then t.right.depth + 1 else 0;
    if lDepth > rDepth + 1 then RotateRight(t)
    else if rDepth > lDepth + 1 then RotateLeft(t)
    else t
  }

  /** A node over `l` and `r`, its depth recomputed and then rebalanced: the step every
      recursive operation takes on the way back up. */
  function Rebuild(v: int, l: Tree, r: Tree): (t: Tree)
    ensures InOrder(t) == InOrder(l) + [v] + InOrder(r)
    ensures Keys(t) == Keys(l) + {v} + Keys(r)
  {
    Balance(Make(v, l, r))
  }

  /** Rebuilding keeps the search order ... */
  lemma RebuildOrdered(v: int, l: Tree, r: Tree)
    requires Ordered(l) && Ordered(r)
    requires forall k :: k in Keys(l) ==> k < v
    requires forall k :: k in Keys(r) ==> v < k
    ensures Ordered(Rebuild(v, l, r))
  {
    var t := Make(v, l, r);
    var lDepth := if l.Node? then l.depth + 1 else 0;
    var rDepth := if r.Node? then r.depth + 1 else 0;
    if lDepth > rDepth + 1 {
      RotateRightOrdered(t);
    } else if rDepth > lDepth + 1 {
      RotateLeftOrdered(t);
    }
  }

  /** ... and the stored depths. */
  lemma RebuildDepths(v: int, l: Tree, r: Tree)
    requires DepthsOk(l) && DepthsOk(r)
    ensures DepthsOk(Rebuild(v, l, r))
  {
    MakeDepthsOk(v, l, r);
    RotationsKeepDepths(Make(v, l, r));
  }

  /** `insertNode`: descends by `compare` to a null link and hangs a new node there; a
      value equal to an element already present is dropped. */
  function Insert(t: Tree, x: int): (r: Tree)
    ensures Keys(r) == Keys(t) + {x}
  {
    match t
    case Nil => Node(x, 0, Nil, Nil)
    case Node(v, _, l, rt) =>
      if v == x then t
      else if v < x then Rebuild(v, l, Insert(rt, x))
      else Rebuild(v, Insert(l, x), rt)
  }

  /** After `insert(x)` the tree is still a search tree ... */
  lemma {:induction false} InsertOrdered(t: Tree, x: int)
    requires Ordered(t)
    ensures Ordered(Insert(t, x))
  {
    match t
    case Nil =>
    case Node(v, _, l, rt) =>
      if v < x {
        InsertOrdered(rt, x);
        RebuildOrdered(v, l, Insert(rt, x));
      } else if x < v {
        InsertOrdered(l, x);
        RebuildOrdered(v, Insert(l, x), rt);
      }
  }

  /** ... whose stored depths are right. */
  lemma {:induction false} InsertDepths(t: Tree, x: int)
    requires DepthsOk(t)
    ensures DepthsOk(Insert(t, x))
  {
    match t
    case Nil =>
    case Node(v, _, l, rt) =>
      if v < x {
        InsertDepths(rt, x);
        RebuildDepths(v, l, Insert(rt, x));
      } else if x < v {
        InsertDepths(l, x);
        RebuildDepths(v, Insert(l, x), rt);
      }
  }

  /** Inserting a value already present leaves the in-order sequence as it was. */
  lemma {:induction false} InsertPresent(t: Tree, x: int)
    requires Ordered(t) && x in Keys(t)
    ensures InOrder(Insert(t, x)) == InOrder(t)
  {
    match t
    case Node(v, _, l, rt) =>
      if v < x {
        InsertPresent(rt, x);
      } else if x < v {
        InsertPresent(l, x);
      }
  }

  /** `find`: whether some element compares equal to `x`. */
  function Find(t: Tree, x: int): (found: bool)
    ensures found ==> x in Keys(t)
  {
    match t
    case Nil => false
    case Node(v, _, l, r) =>
      if v == x then true
      else if v < x then Find(r, x)
      else Find(l, x)
  }

  /** In a search tree, `find` succeeds exactly for the elements. */
  lemma {:induction false} FindCorrect(t: Tree, x: int)
    requires Ordered(t)
    ensures Find(t, x) <==> x in Keys(t)
  {
    match t
    case Nil =>
    case Node(v, _, l, r) =>
      if v < x {
        FindCorrect(r, x);
      } else if x < v {
        FindCorrect(l, x);
      }
  }

  /** `removeInorderPredecessorH`: detaches the rightmost node of a non-empty tree and
      returns the rest and that node's value. */
  function RemoveMax(t: Tree): (r: (Tree, int))
    requires t.Node?
    ensures InOrder(t) == InOrder(r.0) + [r.1]
    ensures Keys(t) == Keys(r.0) + {r.1}
  {
    if t.right.Nil? then
      (if t.left.Nil? then Nil else Rebuild(t.left.value, t.left.left, t.left.right), t.value)
    else
      var (rest, m) := RemoveMax(t.right);
      (Rebuild(t.value, t.left, rest), m)
  }

  /** In a search tree the detached value is the largest element. */
  lemma {:induction false} RemoveMaxOrdered(t: Tree)
    requires t.Node? && Ordered(t)
    ensures Ordered(RemoveMax(t).0)
    ensures forall k :: k in Keys(RemoveMax(t).0) ==> k < RemoveMax(t).1
  {
    if t.right.Nil? {
      if t.left.Node? {
        RebuildOrdered(t.left.value, t.left.left, t.left.right);
        assert Keys(RemoveMax(t).0) == Keys(t.left);
      }
    } else {
      RemoveMaxOrdered(t.right);
      var (rest, m) := RemoveMax(t.right);
      assert m in Keys(t.right);
      RebuildOrdered(t.value, t.left, rest);
    }
  }

  lemma {:induction false} RemoveMaxDepths(t: Tree)
    requires t.Node? && DepthsOk(t)
    ensures DepthsOk(RemoveMax(t).0)
  {
    if t.right.Nil? {
      if t.left.Node? {
        RebuildDepths(t.left.value, t.left.left, t.left.right);
      }
    } else {
      RemoveMaxDepths(t.right);
      RebuildDepths(t.value, t.left, RemoveMax(t.right).0);
    }
  }

  /** `removeNode`: the tree without the element equal to `x`, and whether there was
      one. A node with two children is replaced by its in-order predecessor. */
  function Remove(t: Tree, x: int): (r: (Tree, bool))
    ensures Keys(r.0) <= Keys(t)
  {
    match t
    case Nil => (Nil, false)
    case Node(v, _, l, rt) =>
      if v == x then
        if l.Nil? && rt.Nil? then (Nil, true)
        else if l.Nil? then (rt, true)
        else if rt.Nil? then (l, true)
        else
          var (rest, m) := RemoveMax(l);
          (Rebuild(m, rest, rt), true)
      else if v < x then
        var (rt', found) := Remove(rt, x);
        (Rebuild(v, l, rt'), found)
      else
        var (l', found) := Remove(l, x);
        (Rebuild(v, l', rt), found)
  }

  /** `erase(x)` reports whether `x` was there, removes exactly that element, and keeps
      the search order. */
  lemma {:induction false} RemoveCorrect(t: Tree, x: int)
    requires Ordered(t)
    ensures Remove(t, x).1 <==> x in Keys(t)
    ensures Keys(Remove(t, x).0) == Keys(t) - {x}
    ensures Ordered(Remove(t, x).0)
  {
    match t
    case Nil =>
    case Node(v, _, l, rt) =>
      if v == x {
        RemoveRootCorrect(t);
      } else if v < x {
        RemoveCorrect(rt, x);
        var rt' := Remove(rt, x).0;
        assert Remove(t, x) == (Rebuild(v, l, rt'), Remove(rt, x).1);
        RebuildOrdered(v, l, rt');
        assert x !in Keys(l);
      } else {
        RemoveCorrect(l, x);
        var l' := Remove(l, x).0;
        assert Remove(t, x) == (Rebuild(v, l', rt), Remove(l, x).1);
        RebuildOrdered(v, l', rt);
        assert x !in Keys(rt);
      }
  }

  /** Removing the value at the root. */
  lemma RemoveRootCorrect(t: Tree)
    requires t.Node? && Ordered(t)
    ensures Remove(t, t.value).1
    ensures Keys(Remove(t, t.value).0) == Keys(t) - {t.value}
    ensures Ordered(Remove(t, t.value).0)
  {
    assert t.value !in Keys(t.left) && t.value !in Keys(t.right);
    if t.left.Node? && t.right.Node? {
      RemoveInnerCorrect(t);
    }
  }

  /** Removing the value at a root with two children: its in-order predecessor takes
      its place. */
  lemma RemoveInnerCorrect(t: Tree)
    requires t.Node? && t.left.Node? && t.right.Node? && Ordered(t)
    ensures Keys(Remove(t, t.value).0) == Keys(t) - {t.value}
    ensures Ordered(Remove(t, t.value).0)
  {
    var v, l, rt := t.value, t.left, t.right;
    RemoveMaxOrdered(l);
    var (rest, m) := RemoveMax(l);
    assert Remove(t, v) == (Rebuild(m, rest, rt), true);
    assert m in Keys(l) && m < v;
    assert forall k :: k in Keys(rt) ==> m < k;
    RebuildOrdered(m, rest, rt);
    assert v !in Keys(l) && v !in Keys(rt);
    assert Keys(l) + Keys(rt) == Keys(t) - {v};
  }

  /** Removal keeps the stored depths right. */
  lemma {:induction false} RemoveDepths(t: Tree, x: int)
    requires DepthsOk(t)
    ensures DepthsOk(Remove(t, x).0)
  {
    match t
    case Nil =>
    case Node(v, _, l, rt) =>
      if v == x {
        if l.Node? && rt.Node? {
          RemoveMaxDepths(l);
          RebuildDepths(RemoveMax(l).1, RemoveMax(l).0, rt);
        }
      } else if v < x {
        RemoveDepths(rt, x);
        RebuildDepths(v, l, Remove(rt, x).0);
      } else {
        RemoveDepths(l, x);
        RebuildDepths(v, Remove(l, x).0, rt);
      }
  }

  /** After `erase(x)`, `find(x)` fails. */
  lemma EraseThenFind(t: Tree, x: int)
    requires Ordered(t)
    ensures !Find(Remove(t, x).0, x)
  {
    RemoveCorrect(t, x);
    FindCorrect(Remove(t, x).0, x);
  }

  /** The elements of `s` between `lo` and `hi` inclusive, in order. */
  function Between(s: seq<int>, lo: int, hi: int): seq<int>
  {
    if |s| == 0 then []
    else (if lo <= s[0] <= hi then [s[0]] else []) + Between(s[1..], lo, hi)
  }

  lemma {:induction false} BetweenConcat(a: seq<int>, b: seq<int>, lo: int, hi: int)
    ensures Between(a + b, lo, hi) == Between(a, lo, hi) + Between(b, lo, hi)
  {
    if |a| > 0 {
      assert (a + b)[1..] == a[1..] + b;
      BetweenConcat(a[1..], b, lo, hi);
    } else {
      assert a + b == b;
    }
  }

  lemma {:induction false} BetweenNone(s: seq<int>, lo: int, hi: int)
    requires forall i :: 0 <= i < |s| ==> !(lo <= s[i] <= hi)
    ensures Between(s, lo, hi) == []
  {
    if |s| > 0 {
      BetweenNone(s[1..], lo, hi);
    }
  }

  /** `forEachNodeInRange`: the values `fn` is called on, in call order. Subtrees that
      cannot hold values in range are skipped. */
  function ForEachInRange(t: Tree, lo: int, hi: int): (visited: seq<int>)
    ensures forall i :: 0 <= i < |visited| ==> lo <= visited[i] <= hi && visited[i] in Keys(t)
  {
    match t
    case Nil => []
    case Node(v, _, l, r) =>
      var fits := v >= lo;
      var before := if fits then ForEachInRange(l, lo, hi) else [];
      if v <= hi then before + (if fits then [v] else []) + ForEachInRange(r, lo, hi)
      else before
  }

  /** On a search tree, `forEachInRange(fn, lo, hi)` calls `fn` on exactly the elements
      between `lo` and `hi`, in ascending order. */
  lemma {:induction false} ForEachInRangeCorrect(t: Tree, lo: int, hi: int)
    requires Ordered(t)
    ensures ForEachInRange(t, lo, hi) == Between(InOrder(t), lo, hi)
  {
    match t
    case Nil =>
    case Node(v, _, l, r) =>
      ForEachInRangeCorrect(l, lo, hi);
      ForEachInRangeCorrect(r, lo, hi);
      OrderedInOrder(l);
      OrderedInOrder(r);
      BetweenConcat(InOrder(l) + [v], InOrder(r), lo, hi);
      BetweenConcat(InOrder(l), [v], lo, hi);
      assert Between([v], lo, hi) == (if lo <= v <= hi then [v] else []) by {
        assert [v][1..] == [];
      }
      if v < lo {
        forall i | 0 <= i < |InOrder(l)|
          ensures !(lo <= InOrder(l)[i] <= hi)
        {
          assert InOrder(l)[i] in Keys(l);
        }
        BetweenNone(InOrder(l), lo, hi);
      }
      if v > hi {
        forall i | 0 <= i < |InOrder(r)|
          ensures !(lo <= InOrder(r)[i] <= hi)
        {
          assert InOrder(r)[i] in Keys(r);
        }
        BetweenNone(InOrder(r), lo, hi);
      }
  }
}
