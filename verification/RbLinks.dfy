/** How the links in memory represent a shape: predicates over a snapshot of the nodes' fields. */
module RbLinks {
  import opened RbShape

  /** The fields of one node. */
  datatype Cell = Cell(key: int, left: Node?, right: Node?, parent: Node?, color: Color)

  type Store = map<Node, Cell>

  /** What a parent stores for a subtree: its top node, or the sentinel. */
  ghost function Ref(t: Shape, s: Node): Node
  {
    if t.Fork? then t.n else s
  }

  ghost function Below(t: Shape): set<Node>
  {
    if t.Leaf? then {} else Nodes(t.l) + Nodes(t.r)
  }

  /** Node n holds color c, key k and the subtrees l and r, whose parent links lead back. */
  ghost predicate Holds(m: Store, n: Node, c: Color, k: int, l: Node, r: Node, s: Node)
  {
    && n in m && n != s && m[n].color == c && m[n].key == k && m[n].left == l && m[n].right == r
    && (l != s ==> l in m && m[l].parent == n) && (r != s ==> r in m && m[r].parent == n)
  }

  /** The links under the top node of t look like t; the parent link of the top is not read. */
  ghost predicate Linked(m: Store, t: Shape, s: Node)
  {
    t.Fork? ==> Holds(m, t.n, t.c, t.k, Ref(t.l, s), Ref(t.r, s), s) && Linked(m, t.l, s) && Linked(m, t.r, s)
  }

  /** The links around the hole look like x, with `hole` stored in it. The parent link of the
      root is not read: it may be stale. */
  ghost predicate LinkedCtx(m: Store, x: Ctx, hole: Node, s: Node)
    decreases x
  {
    match x
    case Top => true
    case InLeft(c, n, k, r, up) => Holds(m, n, c, k, hole, Ref(r, s), s) && Linked(m, r, s) && LinkedCtx(m, up, n, s)
    case InRight(c, l, n, k, up) => Holds(m, n, c, k, Ref(l, s), hole, s) && Linked(m, l, s) && LinkedCtx(m, up, n, s)
  }

  ghost function RootOf(x: Ctx, hole: Node): Node
    decreases x
  {
    if x.Top? then hole else RootOf(x.up, x.n)
  }

  /** The tree as seen from the subtree t in context x. */
  ghost predicate View(m: Store, x: Ctx, t: Shape, root: Node, s: Node)
  {
    && Linked(m, t, s) && LinkedCtx(m, x, Ref(t, s), s) && root == RootOf(x, Ref(t, s))
    && Distinct(t) && DistinctCtx(x) && CtxNodes(x) !! Nodes(t) && s !in Nodes(t) && s !in CtxNodes(x)
  }

  /** Every subtree sees the same tree. */
  lemma {:induction false} ViewFill(m: Store, x: Ctx, t: Shape, root: Node, s: Node)
    ensures View(m, x, t, root, s) <==> View(m, Top, Fill(x, t), root, s)
    decreases x
  {
    match x
    case Top =>
    case InLeft(c, n, k, r, up) => ViewFill(m, up, Fork(c, t, n, k, r), root, s);
    case InRight(c, l, n, k, up) => ViewFill(m, up, Fork(c, l, n, k, t), root, s);
  }

  // ---------- Frames ----------

  /** The stores agree on the nodes of t, but for the parent link of its top. */
  ghost predicate Same(m: Store, m': Store, t: Shape)
  {
    && (forall n :: n in Nodes(t) && n in m ==> n in m' && m'[n].(parent := null) == m[n].(parent := null))
    && (forall n :: n in Below(t) && n in m ==> n in m' && m'[n] == m[n])
  }

  lemma {:induction false} LinkedKept(m: Store, m': Store, t: Shape, s: Node)
    requires Linked(m, t, s) && Distinct(t) && Same(m, m', t) && s !in Nodes(t)
    ensures Linked(m', t, s)
  {
    if t.Fork? {
      LinkedKept(m, m', t.l, s);
      LinkedKept(m, m', t.r, s);
    }
  }

  lemma {:induction false} LinkedCtxKept(m: Store, m': Store, x: Ctx, hole: Node, s: Node)
    requires LinkedCtx(m, x, hole, s) && DistinctCtx(x) && s !in CtxNodes(x)
    requires forall n :: n in CtxNodes(x) && n in m ==> n in m' && m'[n] == m[n]
    requires hole != s && !x.Top? ==> hole in m' && m'[hole].parent == x.n
    ensures LinkedCtx(m', x, hole, s)
    decreases x
  {
    match x
    case Top =>
    case InLeft(c, n, k, r, up) =>
      LinkedKept(m, m', r, s);
      LinkedCtxKept(m, m', up, n, s);
    case InRight(c, l, n, k, up) =>
      LinkedKept(m, m', l, s);
      LinkedCtxKept(m, m', up, n, s);
  }

  lemma {:induction false} RootInCtx(x: Ctx, hole: Node)
    ensures !x.Top? ==> RootOf(x, hole) in CtxNodes(x) && x.n in CtxNodes(x)
    decreases x
  {
    if !x.Top? {
      RootInCtx(x.up, x.n);
    }
  }

  // ---------- Local changes ----------

  /** Cell c with its link on the hole's side set to h. */
  ghost function Rehung(c: Cell, x: Ctx, h: Node): Cell
  {
    if x.InLeft? then c.(left := h) else c.(right := h)
  }

  /** Outside the nodes in `changed`, the stores agree; the hole of x now stores h. */
  ghost predicate OnlyChanged(m: Store, m': Store, x: Ctx, h: Node, changed: set<Node>)
  {
    && (forall n :: n in m && n !in changed && (x.Top? || n != x.n) ==> n in m' && m'[n] == m[n])
    && (!x.Top? && x.n in m ==> x.n in m' && m'[x.n] == Rehung(m[x.n], x, h))
  }

  lemma CtxRehung(m: Store, m': Store, x: Ctx, h: Node, h': Node, s: Node, changed: set<Node>)
    requires LinkedCtx(m, x, h, s) && DistinctCtx(x) && s !in CtxNodes(x)
    requires OnlyChanged(m, m', x, h', changed) && changed !! CtxNodes(x)
    requires h' != s && !x.Top? ==> h' in m' && m'[h'].parent == x.n
    ensures LinkedCtx(m', x, h', s) && RootOf(x, h') == if x.Top? then h' else RootOf(x, h)
  {
    if !x.Top? {
      SideKept(m, m', x, h, h', s, changed);
    }
  }

  lemma SideKept(m: Store, m': Store, x: Ctx, h: Node, h': Node, s: Node, changed: set<Node>)
    requires LinkedCtx(m, x, h, s) && DistinctCtx(x) && s !in CtxNodes(x) && !x.Top?
    requires OnlyChanged(m, m', x, h', changed) && changed !! CtxNodes(x)
    ensures var b := if x.InLeft? then x.r else x.l;
            && Linked(m', b, s) && LinkedCtx(m', x.up, x.n, s)
               && (b.Fork? ==> b.n in m' && b.n != s && m'[b.n].parent == x.n)
  {
    var b := if x.InLeft? then x.r else x.l;
    assert b.Fork? ==> b.n in Nodes(b);
    assert Linked(m', b, s) by { LinkedKept(m, m', b, s); }
    assert LinkedCtx(m', x.up, x.n, s) by { LinkedCtxKept(m, m', x.up, x.n, s); }
  }

  // ---------- Rotations ----------

  ghost predicate CanRotateLeft(t: Shape)
  {
    t.Fork? && t.r.Fork?
  }

  ghost function RotatedLeft(t: Shape): Shape
    requires CanRotateLeft(t)
  {
    Fork(t.r.c, Fork(t.c, t.l, t.n, t.k, t.r.l), t.r.n, t.r.k, t.r.r)
  }

  ghost predicate CanRotateRight(t: Shape)
  {
    t.Fork? && t.l.Fork?
  }

  ghost function RotatedRight(t: Shape): Shape
    requires CanRotateRight(t)
  {
    Fork(t.l.c, t.l.l, t.l.n, t.l.k, Fork(t.c, t.l.r, t.n, t.k, t.r))
  }

  lemma RotatedInorder(t: Shape)
    ensures CanRotateLeft(t) ==> Inorder(RotatedLeft(t)) == Inorder(t)
    ensures CanRotateRight(t) ==> Inorder(RotatedRight(t)) == Inorder(t)
  {
    if CanRotateLeft(t) {
      Regroup(Inorder(t.l) + [Entry(t.n, t.k)], Inorder(t.r.l), [Entry(t.r.n, t.r.k)], Inorder(t.r.r), []);
    }
    if CanRotateRight(t) {
      Regroup([], Inorder(t.l.l), [Entry(t.l.n, t.l.k)], Inorder(t.l.r), [Entry(t.n, t.k)] + Inorder(t.r));
    }
  }

  lemma RotatedContents(x: Ctx, t: Shape)
    requires Distinct(t)
    ensures CanRotateLeft(t) ==> Inorder(Fill(x, RotatedLeft(t))) == Inorder(Fill(x, t))
                                 && Nodes(Fill(x, RotatedLeft(t))) == Nodes(Fill(x, t))
    ensures CanRotateRight(t) ==> Inorder(Fill(x, RotatedRight(t))) == Inorder(Fill(x, t))
                                  && Nodes(Fill(x, RotatedRight(t))) == Nodes(Fill(x, t))
  {
    RotatedInorder(t);
    if CanRotateLeft(t) {
      PartsLeft(t);
      SameContents(x, t, RotatedLeft(t));
    }
    if CanRotateRight(t) {
      PartsRight(t);
      SameContents(x, t, RotatedRight(t));
    }
  }

  /** The parts a, m, b, n, d of a rotation, left to right, are disjoint. */
  ghost predicate Parts(a: Shape, m: Node, b: Shape, n: Node, d: Shape, all: set<Node>)
  {
    && Distinct(a) && Distinct(b) && Distinct(d) && m != n
    && m !in Nodes(a) && m !in Nodes(b) && m !in Nodes(d) && n !in Nodes(a) && n !in Nodes(b) && n !in Nodes(d)
    && Nodes(a) !! Nodes(b) && Nodes(a) !! Nodes(d) && Nodes(b) !! Nodes(d)
    && all == Nodes(a) + {m} + Nodes(b) + {n} + Nodes(d)
    && (b.Leaf? ==> Below(b) == {})
    && (b.Fork? ==> b.n in Nodes(b) && b.n !in Below(b) && b.n != m && b.n != n && b.n !in Nodes(a) && b.n !in Nodes(d)
                    && m !in Below(b) && n !in Below(b))
  }

  lemma PartsLeft(t: Shape)
    requires Distinct(t) && CanRotateLeft(t)
    ensures Parts(t.l, t.n, t.r.l, t.r.n, t.r.r, Nodes(t))
    ensures var t' := RotatedLeft(t); Nodes(t') == Nodes(t) && Distinct(t')
  {
    var u := t.r;
    assert Distinct(u) && Nodes(u) == Nodes(u.l) + {u.n} + Nodes(u.r);
    var b := u.l;
    assert Distinct(b);
    var v := RotatedLeft(t).l;
    assert Nodes(v) == Nodes(t.l) + {t.n} + Nodes(b) && Distinct(v);
  }

  lemma PartsRight(t: Shape)
    requires Distinct(t) && CanRotateRight(t)
    ensures Parts(t.l.l, t.l.n, t.l.r, t.n, t.r, Nodes(t))
    ensures var t' := RotatedRight(t); Nodes(t') == Nodes(t) && Distinct(t')
  {
    var u := t.l;
    assert Distinct(u) && Nodes(u) == Nodes(u.l) + {u.n} + Nodes(u.r);
    var b := u.r;
    assert Distinct(b);
    var v := RotatedRight(t).r;
    assert Nodes(v) == Nodes(b) + {t.n} + Nodes(t.r) && Distinct(v);
  }

  /** What a rotation changes: `node` comes under `temp`, the middle subtree b moves between them,
      and the context holds `temp`. */
  ghost predicate Turned(m: Store, m': Store, x: Ctx, node: Node, temp: Node, b: Shape, s: Node)
  {
    && OnlyChanged(m, m', x, temp, {node, temp} + (if b.Fork? then {b.n} else {}))
    && node in m && temp in m && node in m' && temp in m'
       && (b.Fork? ==> b.n in m && b.n in m' && m'[b.n] == m[b.n].(parent := node))
    && m'[node].parent == temp && m'[temp].parent == m[node].parent
    && m'[node].key == m[node].key && m'[node].color == m[node].color && m'[temp].key == m[temp].key
       && m'[temp].color == m[temp].color
  }

  lemma TurnedParts(m: Store, m': Store, x: Ctx, a: Shape, b: Shape, d: Shape, node: Node, temp: Node,
                    all: set<Node>, s: Node)
    requires Parts(a, node, b, temp, d, all) || Parts(a, temp, b, node, d, all)
    requires Linked(m, a, s) && Linked(m, b, s) && Linked(m, d, s) && LinkedCtx(m, x, node, s)
    requires DistinctCtx(x) && CtxNodes(x) !! all && s !in all && s !in CtxNodes(x)
    requires Turned(m, m', x, node, temp, b, s) && (!x.Top? ==> m[node].parent == x.n)
    ensures Linked(m', a, s) && Linked(m', b, s) && Linked(m', d, s) && LinkedCtx(m', x, temp, s)
    ensures RootOf(x, temp) == if x.Top? then temp else RootOf(x, node)
  {
    hide Linked, LinkedCtx, Nodes, CtxNodes, Distinct, DistinctCtx, OnlyChanged, Below;
    var changed := {node, temp} + (if b.Fork? then {b.n} else {});
    OuterKept(m, m', x, a, b, d, node, temp, all, s);
    assert Linked(m', b, s) by { MiddleKept(m, m', x, b, temp, changed, s); }
    assert LinkedCtx(m', x, temp, s) && RootOf(x, temp) == (if x.Top? then temp else RootOf(x, node)) by {
      assert changed !! CtxNodes(x);
      CtxRehung(m, m', x, node, temp, s, changed);
    }
  }

  lemma PartKept(m: Store, m': Store, x: Ctx, t: Shape, h: Node, changed: set<Node>, s: Node)
    requires Linked(m, t, s) && Distinct(t) && s !in Nodes(t) && CtxNodes(x) !! Nodes(t)
             && OnlyChanged(m, m', x, h, changed)
    requires changed !! Nodes(t)
    ensures Linked(m', t, s)
  {
    RootInCtx(x, h);
    LinkedKept(m, m', t, s);
  }

  lemma OuterKept(m: Store, m': Store, x: Ctx, a: Shape, b: Shape, d: Shape, node: Node, temp: Node, all: set<Node>,
                  s: Node)
    requires Parts(a, node, b, temp, d, all) || Parts(a, temp, b, node, d, all)
    requires Linked(m, a, s) && Linked(m, d, s) && CtxNodes(x) !! all && s !in all && Turned(m, m', x, node, temp, b, s)
    ensures Linked(m', a, s) && Linked(m', d, s)
  {
    hide Linked, Nodes, CtxNodes, Distinct, DistinctCtx, OnlyChanged, Below;
    var changed := {node, temp} + (if b.Fork? then {b.n} else {});
    assert Linked(m', a, s) by { assert changed !! Nodes(a); PartKept(m, m', x, a, temp, changed, s); }
    assert Linked(m', d, s) by { assert changed !! Nodes(d); PartKept(m, m', x, d, temp, changed, s); }
  }

  /** The middle subtree changes only its top's parent link. */
  lemma MiddleKept(m: Store, m': Store, x: Ctx, t: Shape, h: Node, changed: set<Node>, s: Node)
    requires Linked(m, t, s) && Distinct(t) && s !in Nodes(t) && CtxNodes(x) !! Nodes(t)
             && OnlyChanged(m, m', x, h, changed)
    requires changed !! Below(t)
    requires t.Fork? ==> t.n in m && t.n in m' && m'[t.n].(parent := null) == m[t.n].(parent := null)
    ensures Linked(m', t, s)
  {
    RootInCtx(x, h);
    if t.Fork? {
      assert Nodes(t) == Below(t) + {t.n};
    }
    LinkedKept(m, m', t, s);
  }

  lemma ParentOfTop(m: Store, x: Ctx, t: Shape, s: Node)
    requires LinkedCtx(m, x, Ref(t, s), s) && t.Fork? && t.n != s && !x.Top?
    ensures t.n in m && m[t.n].parent == x.n
  {
  }

  lemma RotatedLeftView(m: Store, m': Store, x: Ctx, t: Shape, root: Node, root': Node, s: Node)
    requires View(m, x, t, root, s) && CanRotateLeft(t)
    requires var node, temp, b := t.n, t.r.n, t.r.l;
             && Turned(m, m', x, node, temp, b, s) && root' == (if x.Top? then temp else root)
             && m'[node].left == m[node].left && m'[node].right == Ref(b, s)
             && m'[temp].left == node && m'[temp].right == m[temp].right
    ensures View(m', x, RotatedLeft(t), root', s)
  {
    hide LinkedCtx, Nodes, CtxNodes, Distinct, DistinctCtx, OnlyChanged, Parts;
    var u := t.r;
    assert Linked(m, u, s);
    PartsLeft(t);
    if !x.Top? {
      ParentOfTop(m, x, t, s);
    }
    TurnedParts(m, m', x, t.l, u.l, u.r, t.n, u.n, Nodes(t), s);
    TopsKept(m, m', x, t.l, t.n, u.l, u.n, u.r, t.n, u.n, Nodes(t), s);
    RotatedLeftLinked(m, m', t, s);
    hide Linked, Turned;
  }

  lemma RotatedLeftLinked(m: Store, m': Store, t: Shape, s: Node)
    requires Linked(m, t, s) && CanRotateLeft(t) && t.n in m' && t.r.n in m'
    requires Linked(m', t.l, s) && Linked(m', t.r.l, s) && Linked(m', t.r.r, s)
    requires var node, temp, a, b, d := m'[t.n], m'[t.r.n], t.l, t.r.l, t.r.r;
             && node.key == t.k && node.color == t.c && temp.key == t.r.k && temp.color == t.r.c && node.parent == t.r.n
             && node.left == Ref(a, s) && node.right == Ref(b, s) && temp.left == t.n && temp.right == Ref(d, s)
             && (a.Fork? && a.n in m ==> a.n in m' && m'[a.n] == m[a.n])
             && (d.Fork? && d.n in m ==> d.n in m' && m'[d.n] == m[d.n])
             && (b.Fork? ==> b.n in m' && m'[b.n].parent == t.n)
    ensures Linked(m', RotatedLeft(t), s)
  {
    assert Linked(m, t.r, s);
    assert Linked(m', Fork(t.c, t.l, t.n, t.k, t.r.l), s);
  }

  lemma RotatedRightView(m: Store, m': Store, x: Ctx, t: Shape, root: Node, root': Node, s: Node)
    requires View(m, x, t, root, s) && CanRotateRight(t)
    requires var node, temp, b := t.n, t.l.n, t.l.r;
             && Turned(m, m', x, node, temp, b, s) && root' == (if x.Top? then temp else root)
             && m'[node].right == m[node].right && m'[node].left == Ref(b, s)
             && m'[temp].right == node && m'[temp].left == m[temp].left
    ensures View(m', x, RotatedRight(t), root', s)
  {
    hide LinkedCtx, Nodes, CtxNodes, Distinct, DistinctCtx, OnlyChanged, Parts;
    var u := t.l;
    assert Linked(m, u, s);
    PartsRight(t);
    if !x.Top? {
      ParentOfTop(m, x, t, s);
    }
    TurnedParts(m, m', x, u.l, u.r, t.r, t.n, u.n, Nodes(t), s);
    TopsKept(m, m', x, u.l, u.n, u.r, t.n, t.r, t.n, u.n, Nodes(t), s);
    RotatedRightLinked(m, m', t, s);
    hide Linked, Turned;
  }

  lemma RotatedRightLinked(m: Store, m': Store, t: Shape, s: Node)
    requires Linked(m, t, s) && CanRotateRight(t) && t.n in m' && t.l.n in m'
    requires Linked(m', t.r, s) && Linked(m', t.l.l, s) && Linked(m', t.l.r, s)
    requires var node, temp, a, b, d := m'[t.n], m'[t.l.n], t.r, t.l.r, t.l.l;
             && node.key == t.k && node.color == t.c && temp.key == t.l.k && temp.color == t.l.c && node.parent == t.l.n
             && node.right == Ref(a, s) && node.left == Ref(b, s) && temp.right == t.n && temp.left == Ref(d, s)
             && (a.Fork? && a.n in m ==> a.n in m' && m'[a.n] == m[a.n])
             && (d.Fork? && d.n in m ==> d.n in m' && m'[d.n] == m[d.n])
             && (b.Fork? ==> b.n in m' && m'[b.n].parent == t.n)
    ensures Linked(m', RotatedRight(t), s)
  {
    assert Linked(m, t.l, s);
    assert Linked(m', Fork(t.c, t.l.r, t.n, t.k, t.r), s);
  }

  /** The outer subtrees keep their tops' cells. */
  lemma TopsKept(m: Store, m': Store, x: Ctx, a: Shape, p: Node, b: Shape, q: Node, d: Shape, node: Node, temp: Node,
                 all: set<Node>, s: Node)
    requires Parts(a, p, b, q, d, all) && CtxNodes(x) !! all && s !in all && Turned(m, m', x, node, temp, b, s)
    requires {p, q} == {node, temp}
    ensures a.Fork? && a.n in m ==> a.n in m' && m'[a.n] == m[a.n]
    ensures d.Fork? && d.n in m ==> d.n in m' && m'[d.n] == m[d.n]
    ensures b.Fork? ==> b.n in m' && m'[b.n].parent == node
  {
    RootInCtx(x, p);
    assert a.Fork? ==> a.n in Nodes(a);
    assert d.Fork? ==> d.n in Nodes(d);
  }

  // ---------- Colours ----------

  lemma PaintedView(m: Store, m': Store, x: Ctx, t: Shape, root: Node, s: Node, c: Color)
    requires View(m, x, t, root, s) && t.Fork?
    requires t.n in m && m' == m[t.n := m[t.n].(color := c)]
    ensures View(m', x, t.(c := c), root, s)
  {
    assert Linked(m', t.l, s) && Linked(m', t.r, s) by {
      LinkedKept(m, m', t.l, s);
      LinkedKept(m, m', t.r, s);
    }
    assert LinkedCtx(m', x, t.n, s) by { LinkedCtxKept(m, m', x, t.n, s); }
  }

  // ---------- Assignments, one field at a time ----------

  ghost function Rehang(m: Store, x: Ctx, h: Node): Store
  {
    if !x.Top? && x.n in m then m[x.n := Rehung(m[x.n], x, h)] else m
  }

  ghost function WithLeft(m: Store, n: Node, v: Node?): Store
  {
    if n in m then m[n := m[n].(left := v)] else m
  }

  ghost function WithRight(m: Store, n: Node, v: Node?): Store
  {
    if n in m then m[n := m[n].(right := v)] else m
  }

  ghost function WithParent(m: Store, n: Node, v: Node?): Store
  {
    if n in m then m[n := m[n].(parent := v)] else m
  }

  /** The cells after a left rotation of `node` under `temp`, with the middle subtree at b. */
  ghost function TurnedLeft(m: Store, x: Ctx, node: Node, temp: Node, b: Node, s: Node): Store
    requires node in m
  {
    var m1 := WithRight(m, node, b);
    var m2 := if b != s then WithParent(m1, b, node) else m1;
    var m3 := Rehang(WithParent(m2, temp, m[node].parent), x, temp);
    WithParent(WithLeft(m3, temp, node), node, temp)
  }

  /** What the tests and reads of a left rotation find. */
  lemma LeftReads(m: Store, x: Ctx, t: Shape, root: Node, s: Node)
    requires View(m, Top, Fill(x, t), root, s) && CanRotateLeft(t)
    ensures var node, temp, b := t.n, t.r.n, Ref(t.r.l, s);
            && node in m && temp in m && node != temp && node != s && temp != s
            && m[node].right == temp && m[temp].left == b && b != node && b != temp && (b != s ==> b in m)
            && (x.Top? <==> node == root)
            && (!x.Top? ==> m[node].parent == x.n && x.n in m && x.n !in {node, temp, s} && (b != s ==> x.n != b)
                            && (m[x.n].left == node <==> x.InLeft?))
  {
    ViewFill(m, x, t, root, s);
    RootInCtx(x, t.n);
    PartsLeft(t);
    assert Linked(m, t.r, s);
  }

  /** The rotated cells show the rotated shape. */
  lemma LeftDone(m: Store, x: Ctx, t: Shape, root: Node, root': Node, s: Node)
    requires View(m, Top, Fill(x, t), root, s) && CanRotateLeft(t) && s in m && t.n in m
    requires root' == if x.Top? then t.r.n else root
    ensures var m' := TurnedLeft(m, x, t.n, t.r.n, Ref(t.r.l, s), s);
            && View(m', Top, Fill(x, RotatedLeft(t)), root', s) && s in m' && m'[s] == m[s] && m'.Keys == m.Keys
    ensures Nodes(Fill(x, RotatedLeft(t))) == Nodes(Fill(x, t)) && Distinct(t)
  {
    ViewFill(m, x, t, root, s);
    hide Linked, LinkedCtx, Nodes, CtxNodes, Distinct, DistinctCtx, Fill, TurnedLeft;
    LeftReads(m, x, t, root, s);
    TurnedLeftFrame(m, x, t.n, t.r.n, Ref(t.r.l, s), s);
    PartsLeft(t);
    TurnedLeftView(m, x, t, root, root', s);
    ViewFill(TurnedLeft(m, x, t.n, t.r.n, Ref(t.r.l, s), s), x, RotatedLeft(t), root', s);
    FillNodes(x, t);
    FillNodes(x, RotatedLeft(t));
  }

  lemma TurnedLeftFrame(m: Store, x: Ctx, node: Node, temp: Node, b: Node, s: Node)
    requires node in m && s in m && s !in {node, temp} && (!x.Top? ==> x.n != s)
    ensures var m' := TurnedLeft(m, x, node, temp, b, s); m'.Keys == m.Keys && m'[s] == m[s]
  {
  }

  lemma TurnedLeftView(m: Store, x: Ctx, t: Shape, root: Node, root': Node, s: Node)
    requires View(m, x, t, root, s) && CanRotateLeft(t) && s in m
    requires var node, temp, b := t.n, t.r.n, Ref(t.r.l, s);
             && node in m && temp in m && b in m && node != temp && b != node && b != temp
             && (!x.Top? ==> x.n in m && x.n != node && x.n != temp && (b != s ==> x.n != b))
             && m[node].right == temp && m[temp].left == b && (b == s <==> t.r.l.Leaf?)
             && root' == (if x.Top? then temp else root)
    ensures View(TurnedLeft(m, x, t.n, t.r.n, Ref(t.r.l, s), s), x, RotatedLeft(t), root', s)
  {
    hide View, Linked, Nodes, Distinct, Turned, TurnedLeft;
    TurnsLeft(m, x, t.n, t.r.n, t.r.l, s);
    RotatedLeftView(m, TurnedLeft(m, x, t.n, t.r.n, Ref(t.r.l, s), s), x, t, root, root', s);
  }

  lemma TurnsLeft(m: Store, x: Ctx, node: Node, temp: Node, b: Shape, s: Node)
    requires node in m && temp in m && Ref(b, s) in m && node != temp && Ref(b, s) !in {node, temp}
             && (b.Fork? ==> b.n != s)
    requires !x.Top? ==> x.n in m && x.n !in {node, temp} && (b.Fork? ==> x.n != b.n)
    ensures var m' := TurnedLeft(m, x, node, temp, Ref(b, s), s);
            && Turned(m, m', x, node, temp, b, s)
            && m'[node].left == m[node].left && m'[node].right == Ref(b, s)
            && m'[temp].left == node && m'[temp].right == m[temp].right
  {
  }

  /** The cells after a right rotation of `node` under `temp`, with the middle subtree at b. */
  ghost function TurnedRight(m: Store, x: Ctx, node: Node, temp: Node, b: Node, s: Node): Store
    requires node in m
  {
    var m1 := WithLeft(m, node, b);
    var m2 := if b != s then WithParent(m1, b, node) else m1;
    var m3 := Rehang(WithParent(m2, temp, m[node].parent), x, temp);
    WithParent(WithRight(m3, temp, node), node, temp)
  }

  /** What the tests and reads of a right rotation find. */
  lemma RightReads(m: Store, x: Ctx, t: Shape, root: Node, s: Node)
    requires View(m, Top, Fill(x, t), root, s) && CanRotateRight(t)
    ensures var node, temp, b := t.n, t.l.n, Ref(t.l.r, s);
            && node in m && temp in m && node != temp && node != s && temp != s
            && m[node].left == temp && m[temp].right == b && b != node && b != temp && (b != s ==> b in m)
            && (x.Top? <==> node == root)
            && (!x.Top? ==> m[node].parent == x.n && x.n in m && x.n !in {node, temp, s} && (b != s ==> x.n != b)
                            && (m[x.n].left == node <==> x.InLeft?))
  {
    ViewFill(m, x, t, root, s);
    RootInCtx(x, t.n);
    PartsRight(t);
    assert Linked(m, t.l, s);
  }

  /** The rotated cells show the rotated shape. */
  lemma RightDone(m: Store, x: Ctx, t: Shape, root: Node, root': Node, s: Node)
    requires View(m, Top, Fill(x, t), root, s) && CanRotateRight(t) && s in m && t.n in m
    requires root' == if x.Top? then t.l.n else root
    ensures var m' := TurnedRight(m, x, t.n, t.l.n, Ref(t.l.r, s), s);
            && View(m', Top, Fill(x, RotatedRight(t)), root', s) && s in m' && m'[s] == m[s] && m'.Keys == m.Keys
    ensures Nodes(Fill(x, RotatedRight(t))) == Nodes(Fill(x, t)) && Distinct(t)
  {
    ViewFill(m, x, t, root, s);
    hide Linked, LinkedCtx, Nodes, CtxNodes, Distinct, DistinctCtx, Fill, TurnedRight;
    RightReads(m, x, t, root, s);
    TurnedRightFrame(m, x, t.n, t.l.n, Ref(t.l.r, s), s);
    PartsRight(t);
    TurnedRightView(m, x, t, root, root', s);
    ViewFill(TurnedRight(m, x, t.n, t.l.n, Ref(t.l.r, s), s), x, RotatedRight(t), root', s);
    FillNodes(x, t);
    FillNodes(x, RotatedRight(t));
  }

  lemma TurnedRightFrame(m: Store, x: Ctx, node: Node, temp: Node, b: Node, s: Node)
    requires node in m && s in m && s !in {node, temp} && (!x.Top? ==> x.n != s)
    ensures var m' := TurnedRight(m, x, node, temp, b, s); m'.Keys == m.Keys && m'[s] == m[s]
  {
  }

  lemma TurnedRightView(m: Store, x: Ctx, t: Shape, root: Node, root': Node, s: Node)
    requires View(m, x, t, root, s) && CanRotateRight(t) && s in m
    requires var node, temp, b := t.n, t.l.n, Ref(t.l.r, s);
             && node in m && temp in m && b in m && node != temp && b != node && b != temp
             && (!x.Top? ==> x.n in m && x.n != node && x.n != temp && (b != s ==> x.n != b))
             && m[node].left == temp && m[temp].right == b && (b == s <==> t.l.r.Leaf?)
             && root' == (if x.Top? then temp else root)
    ensures View(TurnedRight(m, x, t.n, t.l.n, Ref(t.l.r, s), s), x, RotatedRight(t), root', s)
  {
    hide View, Linked, Nodes, Distinct, Turned, TurnedRight;
    TurnsRight(m, x, t.n, t.l.n, t.l.r, s);
    RotatedRightView(m, TurnedRight(m, x, t.n, t.l.n, Ref(t.l.r, s), s), x, t, root, root', s);
  }

  lemma TurnsRight(m: Store, x: Ctx, node: Node, temp: Node, b: Shape, s: Node)
    requires node in m && temp in m && Ref(b, s) in m && node != temp && Ref(b, s) !in {node, temp}
             && (b.Fork? ==> b.n != s)
    requires !x.Top? ==> x.n in m && x.n !in {node, temp} && (b.Fork? ==> x.n != b.n)
    ensures var m' := TurnedRight(m, x, node, temp, Ref(b, s), s);
            && Turned(m, m', x, node, temp, b, s)
            && m'[node].right == m[node].right && m'[node].left == Ref(b, s)
            && m'[temp].right == node && m'[temp].left == m[temp].left
  {
  }

  // ---------- Reading upwards ----------

  /** What the hole's parent, grandparent and their other children look like in memory. */
  lemma ReadUp(m: Store, x: Ctx, t: Shape, root: Node, s: Node)
    requires View(m, Top, Fill(x, t), root, s)
    ensures t.Fork? ==> t.n in m && t.n != s && m[t.n] == Cell(t.k, Ref(t.l, s), Ref(t.r, s), m[t.n].parent, t.c)
    ensures (x.Top? <==> Ref(t, s) == root) || t.Leaf?
    ensures x.Top? ==> Ref(t, s) == root
    ensures !x.Top? ==>
              && root != s && x.n in m && x.n != s && m[x.n].color == x.c && m[x.n].key == x.k
              && (t.Fork? ==> m[t.n].parent == x.n && (m[x.n].left == t.n <==> x.InLeft?)
                              && (m[x.n].right == t.n <==> x.InRight?))
              && (x.InLeft? ==> m[x.n].left == Ref(t, s) && m[x.n].right == Ref(x.r, s)
                                && (x.r.Fork? ==> x.r.n in m && m[x.r.n].color == x.r.c))
              && (x.InRight? ==> m[x.n].right == Ref(t, s) && m[x.n].left == Ref(x.l, s)
                                 && (x.l.Fork? ==> x.l.n in m && m[x.l.n].color == x.l.c))
    ensures root == s ==> x.Top? && t.Leaf?
  {
    ViewFill(m, x, t, root, s);
    RootInCtx(x, Ref(t, s));
  }

  // ---------- A new leaf ----------

  /** A red node without children takes an empty place. */
  lemma PluggedView(m: Store, m': Store, x: Ctx, root: Node, s: Node, n: Node, k: int)
    requires View(m, Top, Fill(x, Leaf), root, s) && !x.Top? && n !in CtxNodes(x) && n != s
    requires n in m' && m'[n] == Cell(k, s, s, x.n, Red)
    requires OnlyChanged(m, m', x, n, {n})
    ensures View(m', Top, Fill(x, Fork(Red, Leaf, n, k, Leaf)), root, s)
  {
    var t := Fork(Red, Leaf, n, k, Leaf);
    ViewFill(m, x, Leaf, root, s);
    CtxRehung(m, m', x, s, n, s, {n});
    assert Nodes(t) == {n};
    assert Linked(m', t, s);
    ViewFill(m', x, t, root, s);
  }

  ghost function WithColor(m: Store, n: Node, c: Color): Store
  {
    if n in m then m[n := m[n].(color := c)] else m
  }

  /** The assignments of gfs_rbtree_insert_value after the walk. */
  ghost function Plugged(m: Store, x: Ctx, n: Node, temp: Node, s: Node): Store
  {
    var m1 := if x.InLeft? then WithLeft(m, temp, n) else WithRight(m, temp, n);
    WithColor(WithRight(WithLeft(WithParent(m1, n, temp), n, s), n, s), n, Red)
  }

  lemma PluggedSteps(m: Store, x: Ctx, root: Node, s: Node, n: Node, c: Cell)
    requires View(m, Top, Fill(x, Leaf), root, s) && !x.Top? && n !in CtxNodes(x) && n != s && n !in m
    ensures View(Plugged(m[n := c], x, n, x.n, s), Top, Fill(x, Fork(Red, Leaf, n, c.key, Leaf)), root, s)
  {
    ReadUp(m, x, Leaf, root, s);
    PluggedView(m, Plugged(m[n := c], x, n, x.n, s), x, root, s, n, c.key);
  }
}
