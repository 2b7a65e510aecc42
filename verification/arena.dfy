/** The arena representation of expressions (src/dsl/variables.rs).

    An `LpExpression` is a vector of nodes and a root index; an operation node
    refers to its operands by index. Building an expression only ever appends
    to the vector (or, in `simplify`, overwrites a slot), so the tree the root
    denotes is what every other operation depends on. `TreeAt` reads that tree
    back; all contracts here are stated against it.
 */
module Arena {
  import opened Wrappers
  import opened Vars
  import opened Tree

  /** `LpExprNode`: a leaf, or an operation whose operands are arena indices. */
  datatype LpExprNode =
    | LeafNode(leaf: Leaf)
    | LpCompExpr(op: Op, leftIndex: nat, rightIndex: nat)

  /** `LpExpression`: the arena and the index of its root. */
  datatype LpExpression = LpExpression(root: nat, arena: seq<LpExprNode>)

  const OutOfBound := "Requested index out of bound of LpExpression vector. This should not happen."

  /** The tree hanging from index `i`, following at most `fuel` nodes down any
      path. None when an index is out of range or the fuel runs out, which for
      a fuel of at least the arena's length means a cycle. */
  function TreeAt(a: seq<LpExprNode>, i: nat, fuel: nat): Option<Expr>
    decreases fuel
  {
    if fuel == 0 || i >= |a| then None
    else match a[i]
      case LeafNode(l) => Some(Leaf(l))
      case LpCompExpr(op, li, ri) =>
        var l := TreeAt(a, li, fuel - 1);
        var r := TreeAt(a, ri, fuel - 1);
        if l.Some? && r.Some? then Some(Comp(op, l.value, r.value)) else None
  }

  /** The tree an expression stands for. */
  function Denote(e: LpExpression): Option<Expr> {
    TreeAt(e.arena, e.root, |e.arena|)
  }

  predicate Valid(e: LpExpression) {
    Denote(e).Some?
  }

  /** A tree read with some fuel is no deeper than that fuel. */
  lemma {:induction false} DepthBound(a: seq<LpExprNode>, i: nat, f: nat)
    requires TreeAt(a, i, f).Some?
    ensures Depth(TreeAt(a, i, f).value) <= f
    decreases f
  {
    if a[i].LpCompExpr? {
      DepthBound(a, a[i].leftIndex, f - 1);
      DepthBound(a, a[i].rightIndex, f - 1);
    }
  }

  /** Any fuel of at least the depth reads the same tree. */
  lemma {:induction false} FuelMono(a: seq<LpExprNode>, i: nat, f: nat, g: nat)
    requires TreeAt(a, i, f).Some?
    requires g >= Depth(TreeAt(a, i, f).value)
    ensures TreeAt(a, i, g) == TreeAt(a, i, f)
    decreases f
  {
    if a[i].LpCompExpr? {
      FuelMono(a, a[i].leftIndex, f - 1, g - 1);
      FuelMono(a, a[i].rightIndex, f - 1, g - 1);
    }
  }

  /** Appending nodes does not change a tree that was already complete. */
  lemma {:induction false} TreeAtPrefix(a: seq<LpExprNode>, b: seq<LpExprNode>, i: nat, f: nat)
    requires TreeAt(a, i, f).Some?
    ensures TreeAt(a + b, i, f) == TreeAt(a, i, f)
    decreases f
  {
    assert (a + b)[i] == a[i];
    match a[i]
    case LeafNode(_) =>
    case LpCompExpr(op, li, ri) =>
      TreeAtPrefix(a, b, li, f - 1);
      TreeAtPrefix(a, b, ri, f - 1);
  }

  /** The children of a complete operation node are complete with full fuel. */
  lemma ChildrenComplete(a: seq<LpExprNode>, i: nat)
    requires TreeAt(a, i, |a|).Some? && a[i].LpCompExpr?
    ensures TreeAt(a, a[i].leftIndex, |a|) == Some(TreeAt(a, i, |a|).value.left)
    ensures TreeAt(a, a[i].rightIndex, |a|) == Some(TreeAt(a, i, |a|).value.right)
  {
    DepthBound(a, a[i].leftIndex, |a| - 1);
    DepthBound(a, a[i].rightIndex, |a| - 1);
    FuelMono(a, a[i].leftIndex, |a| - 1, |a|);
    FuelMono(a, a[i].rightIndex, |a| - 1, |a|);
  }

  /** `LpExpression::new`: an empty arena with root 0. It stands for no tree. */
  function New(): (e: LpExpression)
    ensures !Valid(e)
  {
    LpExpression(0, [])
  }

  /** The `From` conversions of a variable, a literal or a node: a one-node arena. */
  function FromNode(n: LpExprNode): (e: LpExpression)
    ensures n.LeafNode? ==> Denote(e) == Some(Leaf(n.leaf))
  {
    LpExpression(0, [n])
  }

  function FromLeaf(l: Leaf): (e: LpExpression)
    ensures Denote(e) == Some(Leaf(l))
  {
    FromNode(LeafNode(l))
  }

  /** `expr_ref_at`: the node at an index, panicking when it is out of range. */
  function ExprRefAt(e: LpExpression, i: nat): (r: Result<LpExprNode>)
    ensures r.Ok? <==> i < |e.arena|
    ensures r.Ok? ==> r.value == e.arena[i]
    ensures r.Panic? ==> r.reason == OutOfBound
  {
    if i < |e.arena| then Ok(e.arena[i]) else Panic(OutOfBound)
  }

  /** `push_as_expr`: appends a node and returns its index. */
  function PushAsExpr(e: LpExpression, n: LpExprNode): (r: (LpExpression, nat))
    ensures r.0.root == e.root && r.0.arena == e.arena + [n] && r.1 == |e.arena|
    ensures r.0.arena[r.1] == n
    ensures Valid(e) ==> Denote(r.0) == Denote(e)
  {
    AppendKeepsDenote(e, [n]);
    (LpExpression(e.root, e.arena + [n]), |e.arena|)
  }

  /** Appending nodes keeps the tree of a valid expression. */
  lemma AppendKeepsDenote(e: LpExpression, b: seq<LpExprNode>)
    ensures Valid(e) ==> Denote(LpExpression(e.root, e.arena + b)) == Denote(e)
  {
    if Valid(e) {
      TreeAtPrefix(e.arena, b, e.root, |e.arena|);
      DepthBound(e.arena, e.root, |e.arena|);
      FuelMono(e.arena + b, e.root, |e.arena|, |e.arena + b|);
    }
  }

  // ---------------------------------------------------------------------------
  // push_arena_at_root: the layout of the copy

  /** The node `push_arena_at_root` finally leaves for subtree `t` when the
      children of `t` were pushed at `base` and `base + 1`. */
  function CopyNode(t: Expr, base: nat): LpExprNode {
    match t
    case Leaf(l) => LeafNode(l)
    case Comp(op, _, _) => LpCompExpr(op, base, base + 1)
  }

  /** The nodes `push_arena_at_root` appends, from position `base` on, for the
      proper descendants of `t`: the pair of children, then everything below
      the right child (it is popped first), then everything below the left. */
  function CopyDescendants(t: Expr, base: nat): (r: seq<LpExprNode>)
    ensures |r| == Size(t) - 1
  {
    match t
    case Leaf(_) => []
    case Comp(_, l, r) =>
      var rb := base + 2;
      var lb := base + 1 + Size(r);
      [CopyNode(l, lb), CopyNode(r, rb)] + CopyDescendants(r, rb) + CopyDescendants(l, lb)
  }

  /** Where the descendants of the left operand of `t` start, when those of
      `t` start at `base`: after the two operands and the right operand's
      descendants. */
  function LeftBase(t: Expr, base: nat): nat
    requires t.Comp?
  {
    base + 1 + Size(t.right)
  }

  /** Subtree `t` sits at `pos` with its descendants laid out from `base`. */
  ghost predicate Placed(a: seq<LpExprNode>, t: Expr, pos: nat, base: nat) {
    pos < |a| && a[pos] == CopyNode(t, base)
    && base + Size(t) - 1 <= |a| && a[base .. base + Size(t) - 1] == CopyDescendants(t, base)
  }

  /** A window holding three consecutive runs holds each of them. */
  lemma SliceRuns<T>(a: seq<T>, i: nat, j: nat, k: nat, m: nat, x: seq<T>, y: seq<T>, z: seq<T>)
    requires j == i + |x| && k == j + |y| && m == k + |z| && m <= |a|
    requires a[i..m] == x + y + z
    ensures a[i..j] == x && a[j..k] == y && a[k..m] == z
  {
    var w := a[i..m];
    forall n | 0 <= n < |x|
      ensures a[i + n] == x[n]
    {
      assert w[n] == a[i + n];
    }
    forall n | 0 <= n < |y|
      ensures a[j + n] == y[n]
    {
      assert w[|x| + n] == a[j + n];
    }
    forall n | 0 <= n < |z|
      ensures a[k + n] == z[n]
    {
      assert w[|x| + |y| + n] == a[k + n];
    }
  }

  /** The pieces of a placed operation node are placed themselves. */
  lemma PlacedChildren(a: seq<LpExprNode>, t: Expr, pos: nat, base: nat)
    requires Placed(a, t, pos, base) && t.Comp?
    ensures Placed(a, t.left, base, LeftBase(t, base))
    ensures Placed(a, t.right, base + 1, base + 2)
  {
    var l, r := t.left, t.right;
    var rb, lb := base + 2, LeftBase(t, base);
    var pair := [CopyNode(l, lb), CopyNode(r, rb)];
    var d1, d2 := CopyDescendants(r, rb), CopyDescendants(l, lb);
    assert CopyDescendants(t, base) == pair + d1 + d2;
    SliceRuns(a, base, rb, lb, base + Size(t) - 1, pair, d1, d2);
    assert a[base] == pair[0] && a[base + 1] == pair[1];
  }

  /** The layout of Placed, stated node by node. */
  ghost predicate Laid(a: seq<LpExprNode>, t: Expr, pos: nat, base: nat)
    decreases t
  {
    pos < |a| && a[pos] == CopyNode(t, base)
    && (t.Comp? ==> Laid(a, t.left, base, LeftBase(t, base)) && Laid(a, t.right, base + 1, base + 2))
  }

  lemma {:induction false} PlacedLaid(a: seq<LpExprNode>, t: Expr, pos: nat, base: nat)
    requires Placed(a, t, pos, base)
    ensures Laid(a, t, pos, base)
    decreases t
  {
    if t.Comp? {
      PlacedChildren(a, t, pos, base);
      PlacedLaid(a, t.left, base, LeftBase(t, base));
      PlacedLaid(a, t.right, base + 1, base + 2);
    }
  }

  lemma {:induction false} LaidDenotes(a: seq<LpExprNode>, t: Expr, pos: nat, base: nat, f: nat)
    requires Laid(a, t, pos, base) && f >= Depth(t)
    ensures TreeAt(a, pos, f) == Some(t)
    decreases t
  {
    if t.Comp? {
      LaidDenotes(a, t.left, base, LeftBase(t, base), f - 1);
      LaidDenotes(a, t.right, base + 1, base + 2, f - 1);
    }
  }

  /** A placed subtree reads back as itself. */
  lemma PlacedDenotes(a: seq<LpExprNode>, t: Expr, pos: nat, base: nat, f: nat)
    requires Placed(a, t, pos, base) && f >= Depth(t)
    ensures TreeAt(a, pos, f) == Some(t)
  {
    PlacedLaid(a, t, pos, base);
    LaidDenotes(a, t, pos, base, f);
  }

  /** An operation node whose operands read back as `l` and `r` reads back
      as their combination. */
  lemma CompDenotes(a: seq<LpExprNode>, pos: nat, op: Op, li: nat, ri: nat, l: Expr, r: Expr, f: nat)
    requires pos < |a| && a[pos] == LpCompExpr(op, li, ri) && f > 0
    requires TreeAt(a, li, f - 1) == Some(l) && TreeAt(a, ri, f - 1) == Some(r)
    ensures TreeAt(a, pos, f) == Some(Comp(op, l, r))
  {
  }

  /** `push_arena_at_root`: appends a copy of the tree of `right` and returns
      the index of the copy's root. It panics when the tree of `right` runs
      into an index out of range (the root of an emptied arena, say) or into a
      cycle; on a cycle the source would copy without end. */
  function PushArenaAtRoot(e: LpExpression, right: LpExpression): (r: Result<(LpExpression, nat)>)
    ensures r.Ok? <==> Valid(right)
    ensures r.Ok? ==> r.value.0.root == e.root && r.value.1 == |e.arena|
    ensures r.Ok? ==> |r.value.0.arena| == |e.arena| + Size(Denote(right).value)
    ensures r.Ok? ==> r.value.0.arena[..|e.arena|] == e.arena
    ensures r.Ok? ==> TreeAt(r.value.0.arena, r.value.1, |r.value.0.arena|) == Denote(right)
    ensures r.Ok? && Valid(e) ==> Denote(r.value.0) == Denote(e)
  {
    match Denote(right)
    case None => Panic(OutOfBound)
    case Some(t) =>
      var n := |e.arena|;
      var a := CopyTarget(e.arena, t);
      assert a[n + 1 .. n + 1 + Size(t) - 1] == CopyDescendants(t, n + 1);
      PlacedDenotes(a, t, n, n + 1, |a|);
      assert a == e.arena + (a[n..]);
      AppendKeepsDenote(e, a[n..]);
      Ok((LpExpression(e.root, a), n))
  }

  // ---------------------------------------------------------------------------
  // push_arena_at_root: the stack loop

  /** Sum over pending subtrees of the slots their descendants still need. */
  function Need(trees: seq<Expr>): nat {
    if |trees| == 0 then 0 else Need(trees[..|trees| - 1]) + Size(trees[|trees| - 1]) - 1
  }

  lemma NeedLast(trees: seq<Expr>, t: Expr)
    ensures Need(trees + [t]) == Need(trees) + Size(t) - 1
  {
    assert (trees + [t])[..|trees|] == trees;
  }

  /** A node copied verbatim from the right arena, whose operands are still
      indices into the right arena, heads the tree `t` there. */
  ghost predicate RawHeads(ra: seq<LpExprNode>, n: LpExprNode, t: Expr) {
    match n
    case LeafNode(l) => t == Leaf(l)
    case LpCompExpr(op, li, ri) =>
      t.Comp? && t.op == op
      && TreeAt(ra, li, |ra|) == Some(t.left) && TreeAt(ra, ri, |ra|) == Some(t.right)
  }

  lemma RawHeadsAt(ra: seq<LpExprNode>, i: nat)
    requires TreeAt(ra, i, |ra|).Some?
    ensures RawHeads(ra, ra[i], TreeAt(ra, i, |ra|).value)
  {
    if ra[i].LpCompExpr? {
      ChildrenComplete(ra, i);
    }
  }

  /** Stack entry `k` still holds the verbatim right-arena node of its subtree. */
  ghost predicate RawAt(ra: seq<LpExprNode>, arena: seq<LpExprNode>, stack: seq<nat>, trees: seq<Expr>, k: nat) {
    k < |stack| == |trees| && stack[k] < |arena| && RawHeads(ra, arena[stack[k]], trees[k])
  }

  /** Stack entry `k` has its place in the final layout. */
  ghost predicate PlacedAt(target: seq<LpExprNode>, stack: seq<nat>, trees: seq<Expr>, bases: seq<nat>, k: nat) {
    k < |stack| == |trees| == |bases| && Placed(target, trees[k], stack[k], bases[k])
  }

  /** Index `j`, unless pending, already holds its final node. */
  ghost predicate DoneAt(arena: seq<LpExprNode>, stack: seq<nat>, target: seq<LpExprNode>, j: nat) {
    j < |arena| <= |target| && (j in stack || arena[j] == target[j])
  }

  /** The copy loop's invariant: the stack holds distinct indices past the
      left arena, each still holding a verbatim right-arena node; the places
      of the pending subtrees follow one another from the end of the arena
      down the stack; every other index holds its final node; and the nodes
      still to be appended are exactly what the pending subtrees need. */
  ghost predicate CopyInvariant(ra: seq<LpExprNode>, target: seq<LpExprNode>, n: nat, arena: seq<LpExprNode>,
                                stack: seq<nat>, trees: seq<Expr>, bases: seq<nat>)
  {
    |trees| == |stack| == |bases| && n < |arena| <= |target| && |arena| + Need(trees) == |target|
    && (forall k :: 0 <= k < |stack| ==> n <= stack[k] < |arena|)
    && (forall k, m :: 0 <= k < m < |stack| ==> stack[k] != stack[m])
    && (forall k :: 0 <= k < |stack| ==> RawAt(ra, arena, stack, trees, k))
    && (|bases| > 0 ==> bases[|bases| - 1] == |arena|)
    && (forall k :: 0 <= k < |stack| - 1 ==> bases[k] == bases[k + 1] + Size(trees[k + 1]) - 1)
    && (forall k :: 0 <= k < |stack| ==> PlacedAt(target, stack, trees, bases, k))
    && (forall j :: 0 <= j < |arena| ==> DoneAt(arena, stack, target, j))
  }

  /** The layout `push_arena_at_root` is to produce for tree `t` after `left`. */
  function CopyTarget(left: seq<LpExprNode>, t: Expr): (r: seq<LpExprNode>)
    ensures |r| == |left| + Size(t)
  {
    left + [CopyNode(t, |left| + 1)] + CopyDescendants(t, |left| + 1)
  }

  /** The invariant holds once the right root has been pushed. */
  lemma CopyInit(left: seq<LpExprNode>, right: LpExpression, target: seq<LpExprNode>, arena: seq<LpExprNode>,
                 trees: seq<Expr>)
    requires Valid(right) && target == CopyTarget(left, Denote(right).value)
    requires arena == left + [right.arena[right.root]] && trees == [Denote(right).value]
    ensures CopyInvariant(right.arena, target, |left|, arena, [|left|], trees, [|left| + 1])
  {
    var t := Denote(right).value;
    var n := |left|;
    assert target[n + 1 .. n + 1 + Size(t) - 1] == CopyDescendants(t, n + 1);
    assert PlacedAt(target, [n], trees, [n + 1], 0);
    RawHeadsAt(right.arena, right.root);
    assert RawAt(right.arena, arena, [n], trees, 0);
    NeedLast([], t);
    assert [] + [t] == trees;
    forall j | 0 <= j < |arena|
      ensures DoneAt(arena, [n], target, j)
    {
      if j < n {
        assert arena[j] == left[j] == target[j];
      }
    }
  }

  /** Working off a leaf at the top of the stack: it is popped. */
  lemma CopyStepLeaf(ra: seq<LpExprNode>, target: seq<LpExprNode>, n: nat,
                     arena: seq<LpExprNode>, stack: seq<nat>, trees: seq<Expr>, bases: seq<nat>,
                     stack': seq<nat>, trees': seq<Expr>, bases': seq<nat>)
    requires CopyInvariant(ra, target, n, arena, stack, trees, bases)
    requires |stack| > 0 && arena[stack[|stack| - 1]].LeafNode?
    requires stack' == stack[..|stack| - 1] && trees' == trees[..|trees| - 1] && bases' == bases[..|bases| - 1]
    ensures CopyInvariant(ra, target, n, arena, stack', trees', bases')
  {
    var last := |stack| - 1;
    var p := stack[last];
    var t := trees[last];
    assert RawAt(ra, arena, stack, trees, last);
    assert PlacedAt(target, stack, trees, bases, last);
    assert trees == trees' + [t];
    NeedLast(trees', t);
    forall k | 0 <= k < |stack'|
      ensures RawAt(ra, arena, stack', trees', k) && PlacedAt(target, stack', trees', bases', k)
    {
      assert RawAt(ra, arena, stack, trees, k);
      assert PlacedAt(target, stack, trees, bases, k);
    }
    forall j | 0 <= j < |arena|
      ensures DoneAt(arena, stack', target, j)
    {
      assert DoneAt(arena, stack, target, j);
      if j in stack && j != p {
        var k :| 0 <= k < |stack| && stack[k] == j;
        assert k < last && stack'[k] == j;
      }
    }
  }

  /** The state after working off the operation node `arena[p] == op(li, ri)`
      at the top of the stack, whose subtree is `s`: its operands are pushed
      at the end of the arena, the node is pointed at them, and they replace
      it on the stack. */
  ghost predicate Expanded(ra: seq<LpExprNode>, arena: seq<LpExprNode>, stack: seq<nat>, trees: seq<Expr>,
                           bases: seq<nat>, p: nat, op: Op, li: nat, ri: nat, s: Expr,
                           arena': seq<LpExprNode>, stack': seq<nat>, trees': seq<Expr>, bases': seq<nat>)
  {
    |stack| > 0 && |trees| == |stack| == |bases| && p == stack[|stack| - 1] && s == trees[|trees| - 1] && s.Comp?
    && p < |arena| && arena[p] == LpCompExpr(op, li, ri) && li < |ra| && ri < |ra|
    && arena' == (arena + [ra[li]] + [ra[ri]])[p := LpCompExpr(op, |arena|, |arena| + 1)]
    && stack' == stack[..|stack| - 1] + [|arena|, |arena| + 1]
    && trees' == trees[..|trees| - 1] + [s.left, s.right]
    && bases' == bases[..|bases| - 1] + [|arena| + 1 + Size(s.right), |arena| + 2]
  }

  /** The top operation node's operands are within the right arena. */
  lemma CompOperands(ra: seq<LpExprNode>, target: seq<LpExprNode>, n: nat,
                     arena: seq<LpExprNode>, stack: seq<nat>, trees: seq<Expr>, bases: seq<nat>,
                     p: nat, op: Op, li: nat, ri: nat)
    requires CopyInvariant(ra, target, n, arena, stack, trees, bases)
    requires |stack| > 0 && p == stack[|stack| - 1] && arena[p] == LpCompExpr(op, li, ri)
    ensures li < |ra| && ri < |ra| && trees[|trees| - 1].Comp?
    ensures TreeAt(ra, li, |ra|) == Some(trees[|trees| - 1].left)
    ensures TreeAt(ra, ri, |ra|) == Some(trees[|trees| - 1].right)
  {
    assert RawAt(ra, arena, stack, trees, |stack| - 1);
  }

  lemma CompShape(ra: seq<LpExprNode>, target: seq<LpExprNode>, n: nat,
                  arena: seq<LpExprNode>, stack: seq<nat>, trees: seq<Expr>, bases: seq<nat>,
                  p: nat, op: Op, li: nat, ri: nat, s: Expr,
                  arena': seq<LpExprNode>, stack': seq<nat>, trees': seq<Expr>, bases': seq<nat>)
    requires CopyInvariant(ra, target, n, arena, stack, trees, bases)
    requires Expanded(ra, arena, stack, trees, bases, p, op, li, ri, s, arena', stack', trees', bases')
    ensures |arena'| + Need(trees') == |target|
    ensures forall k :: 0 <= k < |stack'| ==> n <= stack'[k] < |arena'|
    ensures forall k, m :: 0 <= k < m < |stack'| ==> stack'[k] != stack'[m]
  {
    var last := |stack| - 1;
    assert trees == trees[..last] + [s];
    NeedLast(trees[..last], s);
    NeedLast(trees[..last], s.left);
    NeedLast(trees[..last] + [s.left], s.right);
    assert trees[..last] + [s.left] + [s.right] == trees';
    forall k, m | 0 <= k < m < |stack'|
      ensures stack'[k] != stack'[m]
    {
      if m < last {
        assert stack'[k] == stack[k] && stack'[m] == stack[m];
      }
    }
  }

  lemma CompRaw(ra: seq<LpExprNode>, target: seq<LpExprNode>, n: nat,
                arena: seq<LpExprNode>, stack: seq<nat>, trees: seq<Expr>, bases: seq<nat>,
                p: nat, op: Op, li: nat, ri: nat, s: Expr,
                arena': seq<LpExprNode>, stack': seq<nat>, trees': seq<Expr>, bases': seq<nat>)
    requires CopyInvariant(ra, target, n, arena, stack, trees, bases)
    requires Expanded(ra, arena, stack, trees, bases, p, op, li, ri, s, arena', stack', trees', bases')
    ensures forall k :: 0 <= k < |stack'| ==> RawAt(ra, arena', stack', trees', k)
  {
    var last := |stack| - 1;
    CompOperands(ra, target, n, arena, stack, trees, bases, p, op, li, ri);
    RawHeadsAt(ra, li);
    RawHeadsAt(ra, ri);
    forall k | 0 <= k < |stack'|
      ensures RawAt(ra, arena', stack', trees', k)
    {
      if k < last {
        assert RawAt(ra, arena, stack, trees, k);
        assert stack'[k] == stack[k] != p;
      }
    }
  }

  lemma CompPlaced(ra: seq<LpExprNode>, target: seq<LpExprNode>, n: nat,
                   arena: seq<LpExprNode>, stack: seq<nat>, trees: seq<Expr>, bases: seq<nat>,
                   p: nat, op: Op, li: nat, ri: nat, s: Expr,
                   arena': seq<LpExprNode>, stack': seq<nat>, trees': seq<Expr>, bases': seq<nat>)
    requires CopyInvariant(ra, target, n, arena, stack, trees, bases)
    requires Expanded(ra, arena, stack, trees, bases, p, op, li, ri, s, arena', stack', trees', bases')
    ensures bases'[|bases'| - 1] == |arena'|
    ensures forall k :: 0 <= k < |stack'| - 1 ==> bases'[k] == bases'[k + 1] + Size(trees'[k + 1]) - 1
    ensures forall k :: 0 <= k < |stack'| ==> PlacedAt(target, stack', trees', bases', k)
  {
    var last := |stack| - 1;
    assert PlacedAt(target, stack, trees, bases, last);
    PlacedChildren(target, s, p, |arena|);
    forall k | 0 <= k < |stack'|
      ensures PlacedAt(target, stack', trees', bases', k)
    {
      if k < last {
        assert PlacedAt(target, stack, trees, bases, k);
      }
    }
  }

  lemma CompDone(ra: seq<LpExprNode>, target: seq<LpExprNode>, n: nat,
                 arena: seq<LpExprNode>, stack: seq<nat>, trees: seq<Expr>, bases: seq<nat>,
                 p: nat, op: Op, li: nat, ri: nat, s: Expr,
                 arena': seq<LpExprNode>, stack': seq<nat>, trees': seq<Expr>, bases': seq<nat>)
    requires CopyInvariant(ra, target, n, arena, stack, trees, bases)
    requires Expanded(ra, arena, stack, trees, bases, p, op, li, ri, s, arena', stack', trees', bases')
    requires |arena'| <= |target|
    ensures forall j :: 0 <= j < |arena'| ==> DoneAt(arena', stack', target, j)
  {
    var last := |stack| - 1;
    var b := |arena|;
    assert PlacedAt(target, stack, trees, bases, last);
    assert RawAt(ra, arena, stack, trees, last);
    forall j | 0 <= j < |arena'|
      ensures DoneAt(arena', stack', target, j)
    {
      if j < b && j != p {
        assert DoneAt(arena, stack, target, j);
        if j in stack {
          var k :| 0 <= k < |stack| && stack[k] == j;
          assert k < last && stack'[k] == j;
        }
      } else if j >= b {
        assert stack'[j - b + last] == j;
      }
    }
  }

  /** Working off an operation node keeps the invariant. */
  lemma CopyStepComp(ra: seq<LpExprNode>, target: seq<LpExprNode>, n: nat,
                     arena: seq<LpExprNode>, stack: seq<nat>, trees: seq<Expr>, bases: seq<nat>,
                     p: nat, op: Op, li: nat, ri: nat, s: Expr,
                     arena': seq<LpExprNode>, stack': seq<nat>, trees': seq<Expr>, bases': seq<nat>)
    requires CopyInvariant(ra, target, n, arena, stack, trees, bases)
    requires Expanded(ra, arena, stack, trees, bases, p, op, li, ri, s, arena', stack', trees', bases')
    ensures CopyInvariant(ra, target, n, arena', stack', trees', bases')
  {
    CompShape(ra, target, n, arena, stack, trees, bases, p, op, li, ri, s, arena', stack', trees', bases');
    CompRaw(ra, target, n, arena, stack, trees, bases, p, op, li, ri, s, arena', stack', trees', bases');
    CompPlaced(ra, target, n, arena, stack, trees, bases, p, op, li, ri, s, arena', stack', trees', bases');
    CompDone(ra, target, n, arena, stack, trees, bases, p, op, li, ri, s, arena', stack', trees', bases');
  }

  /** With nothing left pending, the arena is the target layout. */
  lemma CopyDone(ra: seq<LpExprNode>, target: seq<LpExprNode>, n: nat,
                 arena: seq<LpExprNode>, trees: seq<Expr>, bases: seq<nat>)
    requires CopyInvariant(ra, target, n, arena, [], trees, bases)
    ensures arena == target
  {
    forall j | 0 <= j < |arena|
      ensures arena[j] == target[j]
    {
      assert DoneAt(arena, [], target, j);
    }
  }

  /** `push_arena_at_root` as the source writes it: a copy of the right root
      is pushed, and a stack of freshly pushed indices is worked off; an index
      holding an operation gets its two operands pushed after it and is
      rewritten to point at them. The arena it builds is exactly the layout
      of `PushArenaAtRoot`. */
  method PushArenaAtRootLoop(e: LpExpression, right: LpExpression) returns (r: Result<(LpExpression, nat)>)
    ensures r == PushArenaAtRoot(e, right)
    ensures r.Ok? ==> TreeAt(r.value.0.arena, r.value.1, |r.value.0.arena|) == Denote(right)
  {
    if Denote(right).None? {
      return Panic(OutOfBound);
    }
    ghost var t := Denote(right).value;
    var ra := right.arena;
    var n := |e.arena|;
    ghost var target := CopyTarget(e.arena, t);
    var arena := e.arena + [ra[right.root]];
    var stack: seq<nat> := [n];
    ghost var trees: seq<Expr> := [t];
    ghost var bases: seq<nat> := [n + 1];
    CopyInit(e.arena, right, target, arena, trees);
    while |stack| > 0
      invariant CopyInvariant(ra, target, n, arena, stack, trees, bases)
      decreases |target| - |arena| + |stack|
    {
      var p := stack[|stack| - 1];
      match arena[p]
      case LeafNode(_) =>
        ghost var stack0, trees0, bases0 := stack, trees, bases;
        stack := stack[..|stack| - 1];
        trees := trees[..|trees| - 1];
        bases := bases[..|bases| - 1];
        CopyStepLeaf(ra, target, n, arena, stack0, trees0, bases0, stack, trees, bases);
      case LpCompExpr(op, li, ri) =>
        ghost var arena0, stack0, trees0, bases0 := arena, stack, trees, bases;
        ghost var s := trees[|trees| - 1];
        CompOperands(ra, target, n, arena, stack, trees, bases, p, op, li, ri);
        var newLeft := |arena|;
        arena := arena + [ra[li]];
        var newRight := |arena|;
        arena := arena + [ra[ri]];
        arena := arena[p := LpCompExpr(op, newLeft, newRight)];
        stack := stack[..|stack| - 1] + [newLeft, newRight];
        trees := trees[..|trees| - 1] + [s.left, s.right];
        bases := bases[..|bases| - 1] + [newLeft + 1 + Size(s.right), newLeft + 2];
        CopyStepComp(ra, target, n, arena0, stack0, trees0, bases0, p, op, li, ri, s, arena, stack, trees, bases);
    }
    CopyDone(ra, target, n, arena, trees, bases);
    r := Ok((LpExpression(e.root, arena), n));
  }

  // ---------------------------------------------------------------------------
  // merging, cloning and splitting

  /** `merge_cloned_arenas`: a copy of `left` with the tree of `right` appended
      and a new root `op(left root, copied right root)`. Like
      `PushArenaAtRoot`, it panics when `right` holds no tree. */
  function MergeClonedArenas(left: LpExpression, right: LpExpression, op: Op): (r: Result<LpExpression>)
    ensures r.Ok? <==> Valid(right)
    ensures r.Ok? ==> |left.arena| < |r.value.arena| && r.value.arena[..|left.arena|] == left.arena
    ensures r.Ok? && Valid(left) ==> Denote(r.value) == Some(Comp(op, Denote(left).value, Denote(right).value))
  {
    var pushed :- PushArenaAtRoot(left, right);
    var withRoot := PushAsExpr(pushed.0, LpCompExpr(op, left.root, pushed.1));
    var merged := withRoot.0.(root := withRoot.1);
    MergeDenotes(left, right, op, pushed.0, pushed.1, merged);
    Ok(merged)
  }

  lemma MergeDenotes(left: LpExpression, right: LpExpression, op: Op,
                     pushed: LpExpression, k: nat, merged: LpExpression)
    requires Valid(right)
    requires PushArenaAtRoot(left, right) == Ok((pushed, k))
    requires merged == LpExpression(|pushed.arena|, pushed.arena + [LpCompExpr(op, left.root, k)])
    ensures merged.arena[..|left.arena|] == left.arena
    ensures Valid(left) ==> Denote(merged) == Some(Comp(op, Denote(left).value, Denote(right).value))
  {
    var a := merged.arena;
    assert a[..|left.arena|] == pushed.arena[..|left.arena|];
    var tr := Denote(right).value;
    TreeAtPrefix(pushed.arena, [LpCompExpr(op, left.root, k)], k, |pushed.arena|);
    if Valid(left) {
      var tl := Denote(left).value;
      assert left.arena + pushed.arena[|left.arena|..] == pushed.arena;
      TreeAtPrefix(left.arena, pushed.arena[|left.arena|..], left.root, |left.arena|);
      TreeAtPrefix(pushed.arena, [LpCompExpr(op, left.root, k)], left.root, |left.arena|);
      DepthBound(left.arena, left.root, |left.arena|);
      FuelMono(a, left.root, |left.arena|, |a| - 1);
      FuelMono(a, k, |pushed.arena|, |a| - 1);
    }
  }

  /** The arena `clone_subtree_at_index_and_push` builds for a subtree placed
      from `base` on: right operand first, then left, then the operation, so
      the subtree's root comes last. */
  function PostOrder(t: Expr, base: nat): (r: seq<LpExprNode>)
    ensures |r| == Size(t)
  {
    match t
    case Leaf(l) => [LeafNode(l)]
    case Comp(op, l, r) =>
      PostOrder(r, base) + PostOrder(l, base + Size(r))
      + [LpCompExpr(op, base + Size(r) + Size(l) - 1, base + Size(r) - 1)]
  }

  /** The layout of PostOrder, stated node by node: the root of the subtree
      placed from `base` is its last node. */
  ghost predicate PostLaid(a: seq<LpExprNode>, t: Expr, base: nat)
    decreases t
  {
    base + Size(t) <= |a| && a[base + Size(t) - 1] == PostRoot(t, base)
    && (t.Comp? ==> PostLaid(a, t.right, base) && PostLaid(a, t.left, base + Size(t.right)))
  }

  /** The last node PostOrder writes for `t`. */
  function PostRoot(t: Expr, base: nat): LpExprNode {
    match t
    case Leaf(l) => LeafNode(l)
    case Comp(op, l, r) => LpCompExpr(op, base + Size(r) + Size(l) - 1, base + Size(r) - 1)
  }

  lemma {:induction false} PostOrderLaid(a: seq<LpExprNode>, t: Expr, base: nat)
    requires base + Size(t) <= |a| && a[base .. base + Size(t)] == PostOrder(t, base)
    ensures PostLaid(a, t, base)
    decreases t
  {
    PostOrderParts(a, t, base);
    if t.Comp? {
      PostOrderLaid(a, t.right, base);
      PostOrderLaid(a, t.left, base + Size(t.right));
    }
  }

  /** The window PostOrder fills splits into the operands' windows and the
      root. */
  lemma PostOrderParts(a: seq<LpExprNode>, t: Expr, base: nat)
    requires base + Size(t) <= |a| && a[base .. base + Size(t)] == PostOrder(t, base)
    ensures a[base + Size(t) - 1] == PostRoot(t, base)
    ensures t.Comp? ==> a[base .. base + Size(t.right)] == PostOrder(t.right, base)
    ensures t.Comp? ==> var i1 := base + Size(t.right);
      a[i1 .. i1 + Size(t.left)] == PostOrder(t.left, i1)
  {
    if t.Comp? {
      var l, r := t.left, t.right;
      var i1 := base + Size(r);
      var i2 := i1 + Size(l);
      var top := PostRoot(t, base);
      assert PostOrder(t, base) == PostOrder(r, base) + PostOrder(l, i1) + [top];
      SliceRuns(a, base, i1, i2, base + Size(t), PostOrder(r, base), PostOrder(l, i1), [top]);
      assert a[i2] == a[i2 .. base + Size(t)][0];
      assert i2 == base + Size(t) - 1;
    } else {
      assert a[base] == a[base .. base + Size(t)][0];
    }
  }

  lemma {:induction false} PostLaidDenotes(a: seq<LpExprNode>, t: Expr, base: nat, f: nat)
    requires PostLaid(a, t, base) && f >= Depth(t)
    ensures TreeAt(a, base + Size(t) - 1, f) == Some(t)
    decreases t
  {
    if t.Comp? {
      PostLaidDenotes(a, t.right, base, f - 1);
      PostLaidDenotes(a, t.left, base + Size(t.right), f - 1);
    }
  }

  /** The post-order copy of a subtree reads back as the subtree. */
  lemma PostOrderDenotes(a: seq<LpExprNode>, t: Expr, base: nat, f: nat)
    requires base + Size(t) <= |a| && a[base .. base + Size(t)] == PostOrder(t, base)
    requires f >= Depth(t)
    ensures TreeAt(a, base + Size(t) - 1, f) == Some(t)
  {
    PostOrderLaid(a, t, base);
    PostLaidDenotes(a, t, base, f);
  }

  /** `clone_subtree_at_index_and_push`: a fresh, compact arena holding a
      copy of the subtree at `index`; the arena it is called on is unchanged.
      It panics when `index` holds no tree: an index out of range, or a cycle,
      on which the source would copy without end. */
  function CloneSubtreeAtIndexAndPush(e: LpExpression, index: nat): (r: Result<LpExpression>)
    ensures r.Ok? <==> TreeAt(e.arena, index, |e.arena|).Some?
    ensures r.Ok? ==> Denote(r.value) == TreeAt(e.arena, index, |e.arena|)
    ensures r.Ok? ==> |r.value.arena| == Size(Denote(r.value).value)
  {
    match TreeAt(e.arena, index, |e.arena|)
    case None => Panic(OutOfBound)
    case Some(t) =>
      var a := PostOrder(t, 0);
      assert a[0 .. Size(t)] == a;
      PostOrderDenotes(a, t, 0, |a|);
      Ok(LpExpression(Size(t) - 1, a))
  }

  /** The constant `split_off_constant` takes off a tree, and what remains:
      a literal root leaves nothing, and `e + c` or `e - c` with a literal `c`
      leaves `e`. */
  function SplitTree(t: Expr): (Option<Expr>, real) {
    match t
    case Leaf(LitVal(c)) => (None, c)
    case Comp(Addition, e1, Leaf(LitVal(c))) => (Some(e1), c)
    case Comp(Subtraction, e1, Leaf(LitVal(c))) => (Some(e1), -c)
    case _ => (Some(t), 0.0)
  }

  /** What remains plus the constant is the original value. */
  lemma SplitTreeValue(t: Expr, env: map<string, real>)
    ensures var (rest, c) := SplitTree(t);
            (if rest.Some? then Eval(rest.value, env) else 0.0) + c == Eval(t, env)
  {
  }

  /** `split_off_constant`: detaches a literal root, or the literal right
      operand of a root sum or difference, and returns its signed value. A
      literal root leaves an empty arena. */
  function SplitOffConstant(e: LpExpression): (r: Result<(LpExpression, real)>)
    ensures e.root >= |e.arena| ==> r.Panic?
    ensures Valid(e) ==> r.Ok?
    ensures r.Ok? ==> r.value.0 == New() || r.value.0.arena == e.arena
    ensures Valid(e) ==>
      var (rest, c) := SplitTree(Denote(e).value);
      r.value.1 == c
      && (rest.None? <==> r.value.0 == New())
      && (rest.Some? ==> Denote(r.value.0) == rest)
  {
    RootFacts(e);
    var top :- ExprRefAt(e, e.root);
    match top
    case LeafNode(LitVal(c)) => Ok((New(), c))
    case LpCompExpr(Addition, e1, e2) =>
      var n2 :- ExprRefAt(e, e2);
      if n2.LeafNode? && n2.leaf.LitVal? then
        SplitDenotes(e, e1);
        Ok((e.(root := e1), n2.leaf.lit))
      else Ok((e, 0.0))
    case LpCompExpr(Subtraction, e1, e2) =>
      var n2 :- ExprRefAt(e, e2);
      if n2.LeafNode? && n2.leaf.LitVal? then
        SplitDenotes(e, e1);
        Ok((e.(root := e1), -n2.leaf.lit))
      else Ok((e, 0.0))
    case _ => Ok((e, 0.0))
  }

  /** What validity says about the root of an expression and its operands. */
  lemma RootFacts(e: LpExpression)
    ensures Valid(e) ==> e.root < |e.arena|
    ensures Valid(e) && e.root < |e.arena| && e.arena[e.root].LpCompExpr? ==>
      var node := e.arena[e.root];
      var t := Denote(e).value;
      node.leftIndex < |e.arena| && node.rightIndex < |e.arena|
      && t == Comp(node.op, t.left, t.right)
      && TreeAt(e.arena, node.rightIndex, |e.arena|) == Some(t.right)
      && (e.arena[node.rightIndex].LeafNode? ==> t.right == Leaf(e.arena[node.rightIndex].leaf))
      && (e.arena[node.rightIndex].LpCompExpr? ==> t.right.Comp?)
  {
    if Valid(e) && e.arena[e.root].LpCompExpr? {
      ChildrenComplete(e.arena, e.root);
    }
  }

  lemma SplitDenotes(e: LpExpression, e1: nat)
    requires e.root < |e.arena| && e.arena[e.root].LpCompExpr? && e.arena[e.root].leftIndex == e1
    ensures Valid(e) ==> Denote(e.(root := e1)) == Some(Denote(e).value.left)
  {
    if Valid(e) {
      ChildrenComplete(e.arena, e.root);
    }
  }

  /** The arena of `a + b` built from two variables is the one the source's
      own unit test expects: both variables, then the sum of indices 0 and 1. */
  lemma MergeOfTwoVariables(a: LpInteger, b: LpInteger)
    ensures MergeClonedArenas(FromLeaf(ConsInt(a)), FromLeaf(ConsInt(b)), Addition)
         == Ok(LpExpression(2, [LeafNode(ConsInt(a)), LeafNode(ConsInt(b)), LpCompExpr(Addition, 0, 1)]))
  {
    var left := FromLeaf(ConsInt(a));
    var right := FromLeaf(ConsInt(b));
    assert Denote(right) == Some(Leaf(ConsInt(b)));
    assert CopyDescendants(Leaf(ConsInt(b)), 2) == [];
    assert CopyTarget(left.arena, Leaf(ConsInt(b))) == [LeafNode(ConsInt(a)), LeafNode(ConsInt(b))];
    var pushed := LpExpression(0, [LeafNode(ConsInt(a)), LeafNode(ConsInt(b))]);
    assert PushArenaAtRoot(left, right) == Ok((pushed, 1));
    assert pushed.arena + [LpCompExpr(Addition, 0, 1)]
        == [LeafNode(ConsInt(a)), LeafNode(ConsInt(b)), LpCompExpr(Addition, 0, 1)];
  }
}
