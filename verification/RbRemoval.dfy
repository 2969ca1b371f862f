/** Taking a node out of a red-black tree: what the unhooking and the replacement show in memory,
    and why the fix-up restores the red-black conditions. */
module RbRemoval {
  import opened RbShape
  import opened RbLinks

  // ---------- Finding the place ----------

  /** Every node of a tree is the top of a subtree somewhere. */
  lemma {:induction false} Locate(t: Shape, n: Node, w: Ctx) returns (x: Ctx, u: Shape)
    requires n in Nodes(t)
    ensures Fill(w, t) == Fill(x, u) && u.Fork? && u.n == n
    decreases t
  {
    if t.n == n {
      x, u := w, t;
    } else if n in Nodes(t.l) {
      x, u := Locate(t.l, n, InLeft(t.c, t.n, t.k, t.r, w));
    } else {
      x, u := Locate(t.r, n, InRight(t.c, t.l, t.n, t.k, w));
    }
  }

  /** The context z hung inside w. */
  ghost function Append(z: Ctx, w: Ctx): Ctx
  {
    match z
    case Top => w
    case InLeft(c, n, k, r, up) => InLeft(c, n, k, r, Append(up, w))
    case InRight(c, l, n, k, up) => InRight(c, l, n, k, Append(up, w))
  }

  lemma {:induction false} FillAppend(z: Ctx, w: Ctx, t: Shape)
    ensures Fill(Append(z, w), t) == Fill(w, Fill(z, t))
    decreases z
  {
    if !z.Top? {
      FillAppend(z.up, w, Up(z, t));
    }
  }

  /** The hole is reached by left links alone. */
  ghost predicate LeftSpine(z: Ctx)
  {
    !z.Top? ==> z.InLeft? && LeftSpine(z.up)
  }

  lemma {:induction false} SpineContents(z: Ctx, w: Ctx)
    requires LeftSpine(z)
    ensures Before(Append(z, w)) == Before(w) && After(Append(z, w)) == After(z) + After(w)
  {
    if !z.Top? {
      SpineContents(z.up, w);
    }
  }

  /** Which node sits at the bottom of w does not matter to the colours. */
  lemma {:induction false} SwapFits(z: Ctx, w: Ctx, w': Ctx, h: nat)
    requires w.InRight? && w'.InRight? && w.c == w'.c && w.l == w'.l && w.up == w'.up
    requires CtxRedBlack(Append(z, w), h)
    ensures CtxRedBlack(Append(z, w'), h) && !Append(z, w').Top? && Append(z, w').c == Append(z, w).c
    decreases z
  {
    if z.InLeft? {
      SwapFits(z.up, w, w', if z.c.Black? then h + 1 else h);
    }
    if z.InRight? {
      SwapFits(z.up, w, w', if z.c.Black? then h + 1 else h);
    }
  }

  // ---------- Unhooking ----------

  /** sub has at most the child u. */
  ghost predicate OneChild(sub: Shape, u: Shape)
  {
    sub.Fork? && ((sub.l.Leaf? && u == sub.r) || (sub.r.Leaf? && u == sub.l))
  }

  ghost function Blackened(t: Shape): Shape
  {
    if t.Leaf? then t else t.(c := Black)
  }

  /** The child fits where sub was, one black short if sub was black. */
  lemma UnhookFits(z: Ctx, sub: Shape, u: Shape)
    requires RedBlack(Fill(z, sub)) && IsBlack(Fill(z, sub)) && OneChild(sub, u)
    ensures RedBlack(u) && RedBlack(Blackened(u))
    ensures CtxRedBlack(z, BlackHeight(u) + if sub.c.Black? then 1 else 0)
    ensures sub.c.Red? ==> IsBlack(u)
  {
    HoleRedBlack(z, sub);
    assert RedBlack(sub.l) && RedBlack(sub.r) && BlackHeight(sub.l) == BlackHeight(sub.r);
  }

  lemma UnhookContents(z: Ctx, sub: Shape, u: Shape)
    requires OneChild(sub, u)
    ensures Inorder(Fill(z, u)) == Before(z) + Inorder(u) + After(z)
    ensures sub.l.Leaf? ==> Inorder(Fill(z, sub)) == Before(z) + [Entry(sub.n, sub.k)] + Inorder(u) + After(z)
    ensures sub.r.Leaf? ==> Inorder(Fill(z, sub)) == Before(z) + Inorder(u) + [Entry(sub.n, sub.k)] + After(z)
  {
    hide Inorder, Before, After, Fill;
    FillInorder(z, sub);
    FillInorder(z, u);
    InorderParts(sub);
    var a, b, c := Before(z), Inorder(u), After(z);
    if sub.l.Leaf? {
      assert Inorder(sub) == [Entry(sub.n, sub.k)] + b;
    }
    if sub.r.Leaf? {
      assert Inorder(sub) == b + [Entry(sub.n, sub.k)];
    }
  }

  /** The stored links after the parent's link skips sub's top and the child points to the parent. */
  lemma UnhookedView(m: Store, m': Store, z: Ctx, sub: Shape, u: Shape, root: Node, s: Node)
    requires View(m, z, sub, root, s) && OneChild(sub, u) && !z.Top? && s in m
    requires m' == WithParent(Rehang(m, z, Ref(u, s)), Ref(u, s), z.n)
    ensures View(m', z, u, root, s) && (u.Leaf? ==> m'[s].parent == z.n)
  {
    RootInCtx(z, sub.n);
    assert Linked(m, u, s) && Distinct(u) && Nodes(u) <= Nodes(sub);
    assert u.Fork? ==> u.n in Nodes(u) && u.n !in Below(u);
    var changed := {Ref(u, s)};
    hide LinkedCtx;
    assert Linked(m', u, s) by {
      hide Linked;
      assert Ref(u, s) in m && Below(u) <= Nodes(u);
      LinkedKept(m, m', u, s);
    }
    hide Linked;
    CtxRehung(m, m', z, sub.n, Ref(u, s), s, changed);
  }

  // ---------- One node takes another's place ----------

  /** b takes the colour, the children and the parent of the top of t. */
  lemma ReplacedView(m: Store, m': Store, x: Ctx, t: Shape, root: Node, b: Node, kb: int, s: Node)
    requires View(m, x, t, root, s) && t.Fork? && b != s && b !in Nodes(t) && b !in CtxNodes(x)
    requires t.n in m && b in m' && m'[b] == Cell(kb, Ref(t.l, s), Ref(t.r, s), m[t.n].parent, t.c)
    requires OnlyChanged(m, m', x, b, {t.n, b, s, Ref(t.l, s), Ref(t.r, s)})
    requires t.l.Fork? ==> t.l.n in m && t.l.n in m' && m'[t.l.n] == m[t.l.n].(parent := b)
    requires t.r.Fork? ==> t.r.n in m && t.r.n in m' && m'[t.r.n] == m[t.r.n].(parent := b)
    ensures View(m', x, Fork(t.c, t.l, b, kb, t.r), if x.Top? then b else root, s)
  {
    var changed := {t.n, b, s, Ref(t.l, s), Ref(t.r, s)};
    ReplacedParts(x, t, b, s);
    assert Linked(m', t.l, s) && Linked(m', t.r, s) by {
      hide LinkedCtx, OnlyChanged, Nodes, CtxNodes, Distinct;
      MiddleKept(m, m', x, t.l, b, changed, s);
      MiddleKept(m, m', x, t.r, b, changed, s);
    }
    assert x.Top? || m[t.n].parent == x.n;
    hide LinkedCtx, Linked;
    assert LinkedCtx(m', x, b, s) && RootOf(x, b) == (if x.Top? then b else RootOf(x, t.n)) by {
      CtxRehung(m, m', x, t.n, b, s, changed);
    }
    assert Linked(m', Fork(t.c, t.l, b, kb, t.r), s) by { Assembled(m', Fork(t.c, t.l, b, kb, t.r), s); }
  }

  lemma ReplacedParts(x: Ctx, t: Shape, b: Node, s: Node)
    requires Distinct(t) && DistinctCtx(x) && CtxNodes(x) !! Nodes(t) && t.Fork? && s !in Nodes(t) && s !in CtxNodes(x)
    requires b != s && b !in Nodes(t) && b !in CtxNodes(x)
    ensures var changed := {t.n, b, s, Ref(t.l, s), Ref(t.r, s)};
            && changed !! Below(t.l) && changed !! Below(t.r) && changed !! CtxNodes(x)
            && (forall u :: u in [t.l, t.r] ==> Distinct(u) && s !in Nodes(u) && CtxNodes(x) !! Nodes(u))
    ensures var t' := Fork(t.c, t.l, b, 0, t.r); Distinct(t') && CtxNodes(x) !! Nodes(t') && s !in Nodes(t')
  {
    hide Nodes, CtxNodes, Distinct, DistinctCtx, Below;
    ForkParts(t);
    TopApart(t.l);
    TopApart(t.r);
    ForkParts(Fork(t.c, t.l, b, 0, t.r));
  }

  lemma ForkParts(t: Shape)
    requires t.Fork?
    ensures Nodes(t) == Nodes(t.l) + {t.n} + Nodes(t.r)
    ensures Distinct(t) <==> t.n !in Nodes(t.l) && t.n !in Nodes(t.r) && Nodes(t.l) !! Nodes(t.r) && Distinct(t.l)
                             && Distinct(t.r)
  {
  }

  lemma TopApart(t: Shape)
    requires Distinct(t)
    ensures Below(t) <= Nodes(t) && (t.Fork? ==> t.n in Nodes(t) && t.n !in Below(t))
  {
  }

  lemma Assembled(m: Store, t: Shape, s: Node)
    requires t.Fork? && Holds(m, t.n, t.c, t.k, Ref(t.l, s), Ref(t.r, s), s) && Linked(m, t.l, s) && Linked(m, t.r, s)
    ensures Linked(m, t, s)
  {
  }

  /** Nodes outside the tree may change, or go. */
  lemma ViewKept(m: Store, m': Store, t: Shape, root: Node, s: Node)
    requires View(m, Top, t, root, s) && forall n :: n in Nodes(t) && n in m ==> n in m' && m'[n] == m[n]
    ensures View(m', Top, t, root, s)
  {
    assert Below(t) <= Nodes(t);
    LinkedKept(m, m', t, s);
  }

  /** The stores of gfs_rbtree_delete when `sub`, the successor of `node`, is hooked out under z
      and then takes the place of `node` under x: first the link to sub and the child's parent, */
  ghost function Skipped(m: Store, z: Ctx, node: Node, sub: Node, u: Node): Store
  {
    WithParent(Rehang(m, z, u), u, if z.Top? || z.n == node then sub else z.n)
  }

  /** then the fields of node, */
  ghost function Copied(m: Store, node: Node, sub: Node): Store
    requires node in m
  {
    var m1 := WithLeft(m, sub, m[node].left);
    var m2 := if node in m1 then WithRight(m1, sub, m1[node].right) else m1;
    var m3 := if node in m2 then WithParent(m2, sub, m2[node].parent) else m2;
    if node in m3 then WithColor(m3, sub, m3[node].color) else m3
  }

  /** then the link to node and the parents of its children. */
  ghost function Adopted(m: Store, x: Ctx, sub: Node, l: Node, r: Node, s: Node): Store
  {
    var m1 := Rehang(m, x, sub);
    var m2 := if l != s then WithParent(m1, l, sub) else m1;
    if r != s then WithParent(m2, r, sub) else m2
  }

  /** All of them together. */
  ghost function Moved(m: Store, x: Ctx, z: Ctx, node: Node, sub: Node, u: Node, l: Node, r: Node, s: Node): Store
  {
    var m1 := Skipped(m, z, node, sub, u);
    if node in m1 then Adopted(Copied(m1, node, sub), x, sub, l, r, s) else m1
  }

  /** The nodes at play are different ones, as far as they are. */
  ghost predicate Apart(m: Store, x: Ctx, z: Ctx, node: Node, sub: Node, u: Node, l: Node, r: Node, s: Node)
  {
    && node in m && sub in m && s in m && u in m && l in m && r in m && !z.Top? && z.n in m && (!x.Top? ==> x.n in m)
    && node != sub && node != s && sub != s && u != node && u != sub && z.n != sub && z.n != s && z.n != u
    && l != s && l !in {node, sub, u, z.n} && r !in {node, sub} && l != r && (z.n == node ==> r == u && z.InRight?)
    && (z.n != node && u != s ==> u != r)
    && (!x.Top? ==> x.n !in {node, sub, u, l, r, s, z.n})
  }

  lemma MovedCells(m: Store, x: Ctx, z: Ctx, node: Node, sub: Node, u: Node, l: Node, r: Node, s: Node)
    requires Apart(m, x, z, node, sub, u, l, r, s)
    requires var m1 := WithParent(Rehang(m, z, u), u, z.n); m1[node].left == l && m1[node].right == r
    ensures var m1 := WithParent(Rehang(m, z, u), u, z.n);
            var m' := Moved(m, x, z, node, sub, u, l, r, s);
            && node in m1 && sub in m' && m'[sub] == Cell(m[sub].key, l, r, m1[node].parent, m1[node].color)
            && OnlyChanged(m1, m', x, sub, {node, sub, s, l, r})
            && l in m1 && l in m' && m'[l] == m1[l].(parent := sub)
            && (r != s ==> r in m1 && r in m' && m'[r] == m1[r].(parent := sub))
            && (u == s ==> m'[s].parent == if z.n == node then sub else z.n)
            && m'.Keys == m.Keys && m'[s].color == m[s].color
  {
    var m1 := WithParent(Rehang(m, z, u), u, z.n);
    assert m1.Keys == m.Keys && m1[sub] == m[sub] && m1[s].color == m[s].color && (u == s ==> m1[s].parent == z.n);
    assert Skipped(m, z, node, sub, u) == if z.n == node then WithParent(m1, u, sub) else m1;
    hide Skipped, Rehang;
    AdoptedCells(m, m1, x, z, node, sub, u, l, r, s);
    AdoptedOthers(m, m1, x, z, node, sub, u, l, r, s);
  }

  lemma AdoptedCells(m: Store, m1: Store, x: Ctx, z: Ctx, node: Node, sub: Node, u: Node, l: Node, r: Node, s: Node)
    requires Apart(m, x, z, node, sub, u, l, r, s) && m1.Keys == m.Keys && m1[node].left == l && m1[node].right == r
    ensures var m2 := if z.n == node then WithParent(m1, u, sub) else m1;
            var m' := Adopted(Copied(m2, node, sub), x, sub, l, r, s);
            && sub in m' && m'[sub] == Cell(m1[sub].key, l, r, m1[node].parent, m1[node].color)
            && l in m' && m'[l] == m1[l].(parent := sub)
            && (r != s ==> r in m' && r in m1 && m'[r] == m1[r].(parent := sub))
            && m'.Keys == m.Keys && m'[s].color == m1[s].color
            && m'[s].parent == if u == s && z.n == node then sub else m1[s].parent
  {
    CopiedCell(if z.n == node then WithParent(m1, u, sub) else m1, node, sub);
    hide Copied;
  }

  lemma AdoptedOthers(m: Store, m1: Store, x: Ctx, z: Ctx, node: Node, sub: Node, u: Node, l: Node, r: Node, s: Node)
    requires Apart(m, x, z, node, sub, u, l, r, s) && m1.Keys == m.Keys && m1[node].left == l && m1[node].right == r
    ensures var m2 := if z.n == node then WithParent(m1, u, sub) else m1;
            var m' := Adopted(Copied(m2, node, sub), x, sub, l, r, s);
            OnlyChanged(m1, m', x, sub, {node, sub, s, l, r})
  {
    var m2 := if z.n == node then WithParent(m1, u, sub) else m1;
    CopiedCell(m2, node, sub);
    var m3 := Copied(m2, node, sub);
    assert forall n :: n in m && n != sub && n != u ==> m3[n] == m1[n];
    assert u == s || z.n != node || u == r;
    assert u != s && z.n != node ==> m3[u] == m1[u];
    hide Copied;
    OthersKept(m1, m3, x, sub, l, r, s, {node, sub, s, l, r});
  }

  lemma OthersKept(m: Store, m': Store, x: Ctx, sub: Node, l: Node, r: Node, s: Node, changed: set<Node>)
    requires forall n :: n in m && n !in changed ==> n in m' && m'[n] == m[n]
    requires {sub, l, r, s} <= changed && (!x.Top? ==> x.n !in changed)
    requires !x.Top? ==> x.n in m
    ensures OnlyChanged(m, Adopted(m', x, sub, l, r, s), x, sub, changed)
  {
  }

  lemma CopiedCell(m: Store, node: Node, sub: Node)
    requires node in m && sub in m && node != sub
    ensures Copied(m, node, sub) == m[sub := Cell(m[sub].key, m[node].left, m[node].right, m[node].parent,
                                                  m[node].color)]
  {
  }

  /** The successor `sub` of the top of t, at the bottom of the right subtree, and where it goes. */
  ghost predicate Successor(t: Shape, zr: Ctx, sub: Shape)
  {
    t.Fork? && t.l.Fork? && sub.Fork? && sub.l.Leaf? && LeftSpine(zr) && t.r == Fill(zr, sub)
  }

  /** The bottom of t's right subtree, seen from outside, under node n with key k. */
  ghost function Inner(x: Ctx, t: Shape, n: Node, k: int, zr: Ctx): Ctx
    requires t.Fork?
  {
    Append(zr, InRight(t.c, t.l, n, k, x))
  }

  lemma InnerFill(x: Ctx, t: Shape, n: Node, k: int, zr: Ctx, v: Shape)
    requires t.Fork?
    ensures Fill(Inner(x, t, n, k, zr), v) == Fill(x, Fork(t.c, t.l, n, k, Fill(zr, v)))
    ensures !Inner(x, t, n, k, zr).Top? && Inner(x, t, n, k, zr).n == if zr.Top? then n else zr.n
  {
    FillAppend(zr, InRight(t.c, t.l, n, k, x), v);
  }

  lemma MovedView(m: Store, x: Ctx, t: Shape, zr: Ctx, sub: Shape, root: Node, s: Node)
    requires View(m, Top, Fill(x, t), root, s) && Successor(t, zr, sub) && s in m
    ensures var z := Inner(x, t, t.n, t.k, zr);
            var z' := Inner(x, t, sub.n, sub.k, zr);
            var m' := Moved(m, x, z, t.n, sub.n, Ref(sub.r, s), Ref(t.l, s), Ref(Fill(zr, sub.r), s), s);
            && View(m', Top, Fill(z', sub.r), if x.Top? then sub.n else root, s)
            && (sub.r.Leaf? ==> s in m' && m'[s].parent == z'.n) && m'.Keys == m.Keys && m'[s].color == m[s].color
  {
    var z, z' := Inner(x, t, t.n, t.k, zr), Inner(x, t, sub.n, sub.k, zr);
    var u := sub.r;
    InnerFill(x, t, t.n, t.k, zr, sub);
    InnerFill(x, t, t.n, t.k, zr, u);
    InnerFill(x, t, sub.n, sub.k, zr, u);
    ViewFill(m, z, sub, root, s);
    var m1 := WithParent(Rehang(m, z, Ref(u, s)), Ref(u, s), z.n);
    UnhookedView(m, m1, z, sub, u, root, s);
    ViewFill(m1, z, u, root, s);
    var t1 := Fork(t.c, t.l, t.n, t.k, Fill(zr, u));
    ViewFill(m1, x, t1, root, s);
    MovedApart(m, x, t, zr, sub, root, s);
    var l, r := Ref(t.l, s), Ref(Fill(zr, u), s);
    var m' := Moved(m, x, z, t.n, sub.n, Ref(u, s), l, r, s);
    TopCell(m1, x, t1, root, s);
    SubApart(x, t, zr, sub);
    assert m[sub.n].key == sub.k by { TopCell(m, z, sub, root, s); }
    hide View, Nodes, CtxNodes, Distinct, DistinctCtx, Moved, Rehang, WithParent, Inner;
    MovedCells(m, x, z, t.n, sub.n, Ref(u, s), l, r, s);
    ReplacedView(m1, m', x, t1, root, sub.n, sub.k, s);
    ViewFill(m', x, Fork(t.c, t.l, sub.n, sub.k, Fill(zr, u)), if x.Top? then sub.n else root, s);
  }

  lemma TopCell(m: Store, x: Ctx, t: Shape, root: Node, s: Node)
    requires View(m, x, t, root, s) && t.Fork?
    ensures t.n in m && t.n != s && m[t.n] == Cell(t.k, Ref(t.l, s), Ref(t.r, s), m[t.n].parent, t.c)
  {
  }

  lemma SubApart(x: Ctx, t: Shape, zr: Ctx, sub: Shape)
    requires Distinct(Fill(x, t)) && Successor(t, zr, sub)
    ensures sub.n !in CtxNodes(x) && sub.n !in Nodes(Fork(t.c, t.l, t.n, t.k, Fill(zr, sub.r)))
  {
    hide Nodes, CtxNodes, Distinct, DistinctCtx, Fill, LeftSpine;
    FillNodes(x, t);
    FillNodes(zr, sub);
    FillNodes(zr, sub.r);
    ForkParts(t);
    ForkParts(sub);
    ForkParts(Fork(t.c, t.l, t.n, t.k, Fill(zr, sub.r)));
  }

  lemma MovedApart(m: Store, x: Ctx, t: Shape, zr: Ctx, sub: Shape, root: Node, s: Node)
    requires View(m, Top, Fill(x, t), root, s) && Successor(t, zr, sub) && s in m
    ensures Apart(m, x, Inner(x, t, t.n, t.k, zr), t.n, sub.n, Ref(sub.r, s), Ref(t.l, s), Ref(Fill(zr, sub.r), s), s)
  {
    var u := sub.r;
    InnerFill(x, t, t.n, t.k, zr, sub);
    FillTop(zr, u);
    FillTop(x, t);
    NodesHeld(m, Fill(x, t), s);
    RegionsApart(x, t, zr, sub);
    assert t.l.n in Nodes(t.l) && (u.Fork? ==> u.n in Nodes(u)) && (zr.Top? ==> Inner(x, t, t.n, t.k, zr).InRight?);
    hide View, Linked, LinkedCtx, Nodes, CtxNodes, Distinct, Inner, Fill;
  }

  /** The regions of the tree that a removal tells apart. */
  lemma RegionsApart(x: Ctx, t: Shape, zr: Ctx, sub: Shape)
    requires Distinct(Fill(x, t)) && Successor(t, zr, sub)
    ensures Separate(CtxNodes(x), t.n, Nodes(t.l), CtxNodes(zr), sub.n, Nodes(sub.r))
    ensures CtxNodes(x) <= Nodes(Fill(x, t)) && t.n in Nodes(Fill(x, t)) && Nodes(t.l) <= Nodes(Fill(x, t))
    ensures CtxNodes(zr) <= Nodes(Fill(x, t)) && sub.n in Nodes(Fill(x, t)) && Nodes(sub.r) <= Nodes(Fill(x, t))
  {
    hide Nodes, CtxNodes, Distinct, DistinctCtx, Fill, LeftSpine;
    FillNodes(x, t);
    FillNodes(zr, sub);
    TopParts(t);
    TopParts(sub);
    Layers(CtxNodes(x), t.n, Nodes(t.l), Nodes(t.r), CtxNodes(zr), Nodes(sub), sub.n, Nodes(sub.r), Nodes(t),
           Nodes(Fill(x, t)));
  }

  lemma TopParts(t: Shape)
    requires Distinct(t) && t.Fork?
    ensures t.n !in Nodes(t.l) && t.n !in Nodes(t.r) && Nodes(t.l) !! Nodes(t.r) && Distinct(t.l) && Distinct(t.r)
    ensures t.n in Nodes(t) && Nodes(t.l) <= Nodes(t) && Nodes(t.r) <= Nodes(t)
  {
  }

  lemma Layers(a: set<Node>, n: Node, l: set<Node>, r: set<Node>, z: set<Node>, d: set<Node>, b: Node, u: set<Node>,
               t: set<Node>, w: set<Node>)
    requires a !! t && n !in l && n !in r && l !! r && z !! d && b !in u
    requires a <= w && t <= w && n in t && l <= t && r <= t && z <= r && d <= r && b in d && u <= d
    ensures Separate(a, n, l, z, b, u)
    ensures a <= w && n in w && l <= w && z <= w && b in w && u <= w
  {
    assert r !! a && b in r && u <= r && b in t;
  }

  ghost predicate Separate(a: set<Node>, n: Node, l: set<Node>, z: set<Node>, b: Node, u: set<Node>)
  {
    && n !in a && a !! l && a !! z && b !in a && a !! u
    && n !in l && n !in z && n != b && n !in u
    && l !! z && b !in l && l !! u && b !in z && z !! u && b !in u
  }

  lemma {:induction false} FillTop(z: Ctx, u: Shape)
    ensures !z.Top? ==> Fill(z, u).Fork? && Fill(z, u).n in CtxNodes(z) && z.n in CtxNodes(z)
    ensures z.Top? ==> Fill(z, u) == u
    decreases z
  {
    if !z.Top? {
      FillTop(z.up, Up(z, u));
    }
  }

  lemma {:induction false} NodesHeld(m: Store, t: Shape, s: Node)
    requires Linked(m, t, s)
    ensures Nodes(t) <= m.Keys && s !in Nodes(t)
  {
    if t.Fork? {
      NodesHeld(m, t.l, s);
      NodesHeld(m, t.r, s);
    }
  }

  /** What the tree holds before and after: the entry of the node is gone, nothing else. */
  lemma MovedContents(x: Ctx, t: Shape, zr: Ctx, sub: Shape)
    requires Successor(t, zr, sub) && Distinct(Fill(x, t))
    ensures var before := Before(x) + Inorder(t.l);
            var after := [Entry(sub.n, sub.k)] + Inorder(sub.r) + After(zr) + After(x);
            && Inorder(Fill(x, t)) == before + [Entry(t.n, t.k)] + after
            && Inorder(Fill(Inner(x, t, sub.n, sub.k, zr), sub.r)) == before + after
    ensures Nodes(Fill(Inner(x, t, sub.n, sub.k, zr), sub.r)) == Nodes(Fill(x, t)) - {t.n}
  {
    MovedInorder(x, t, zr, sub);
    MovedNodes(x, t, zr, sub);
  }

  lemma MovedInorder(x: Ctx, t: Shape, zr: Ctx, sub: Shape)
    requires Successor(t, zr, sub)
    ensures var before := Before(x) + Inorder(t.l);
            var after := [Entry(sub.n, sub.k)] + Inorder(sub.r) + After(zr) + After(x);
            && Inorder(Fill(x, t)) == before + [Entry(t.n, t.k)] + after
            && Inorder(Fill(Inner(x, t, sub.n, sub.k, zr), sub.r)) == before + after
  {
    hide Inorder, Before, After, Fill, Inner, Append;
    FillInorder(x, t);
    SpineContents(zr, Top);
    FillInorder(zr, sub);
    FillInorder(zr, sub.r);
    var t' := Fork(t.c, t.l, sub.n, sub.k, Fill(zr, sub.r));
    InnerFill(x, t, sub.n, sub.k, zr, sub.r);
    FillInorder(x, t');
    AppendTop(zr);
    InorderParts(sub);
    InorderParts(t);
    InorderParts(t');
    SpliceOut(Inorder(Fill(x, t)), Inorder(Fill(x, t')), Inorder(t), Inorder(t'), Inorder(t.r), Inorder(t'.r),
              Inorder(sub),
              Before(x), Inorder(t.l), [Entry(t.n, t.k)], [Entry(sub.n, sub.k)], Inorder(sub.r), After(zr), After(x));
  }

  lemma InorderParts(t: Shape)
    requires t.Fork?
    ensures Inorder(t) == Inorder(t.l) + [Entry(t.n, t.k)] + Inorder(t.r) && (t.l.Leaf? ==> Inorder(t.l) == [])
            && (t.r.Leaf? ==> Inorder(t.r) == []) && Before(Top) == After(Top) == []
  {
  }

  lemma SpliceOut<T>(w: seq<T>, w': seq<T>, t: seq<T>, t': seq<T>, r: seq<T>, r': seq<T>, s: seq<T>,
                     a: seq<T>, l: seq<T>, n: seq<T>, b: seq<T>, u: seq<T>, z: seq<T>, c: seq<T>)
    requires w == a + t + c && t == l + n + r && r == [] + s + (z + []) && s == [] + b + u
    requires w' == a + t' + c && t' == l + b + r' && r' == [] + u + (z + [])
    ensures w == (a + l) + n + (b + u + z + c) && w' == (a + l) + (b + u + z + c)
  {
    assert r == b + u + z && r' == u + z;
  }

  lemma {:induction false} AppendTop(z: Ctx)
    ensures Append(z, Top) == z
  {
    if !z.Top? {
      AppendTop(z.up);
    }
  }

  lemma MovedNodes(x: Ctx, t: Shape, zr: Ctx, sub: Shape)
    requires Successor(t, zr, sub) && Distinct(Fill(x, t))
    ensures Nodes(Fill(Inner(x, t, sub.n, sub.k, zr), sub.r)) == Nodes(Fill(x, t)) - {t.n}
  {
    var t' := Fork(t.c, t.l, sub.n, sub.k, Fill(zr, sub.r));
    InnerFill(x, t, sub.n, sub.k, zr, sub.r);
    FillNodes(x, t);
    FillNodes(x, t');
    FillNodes(zr, sub);
    FillNodes(zr, sub.r);
    assert Nodes(sub) == {sub.n} + Nodes(sub.r) by { assert Nodes(sub.l) == {}; }
    assert Nodes(t') == Nodes(t.l) + {sub.n} + Nodes(t'.r);
    assert Nodes(t) == Nodes(t.l) + {t.n} + Nodes(t.r) && t.n !in Nodes(t.l) && t.n !in Nodes(t.r);
    hide Nodes, CtxNodes, Distinct, Fill, Inner, Successor;
  }

  lemma UnhookNodes(z: Ctx, sub: Shape, u: Shape)
    requires OneChild(sub, u) && Distinct(Fill(z, sub))
    ensures Nodes(Fill(z, u)) == Nodes(Fill(z, sub)) - {sub.n}
  {
    FillNodes(z, sub);
    FillNodes(z, u);
    assert Nodes(sub) == {sub.n} + Nodes(u) && sub.n !in Nodes(u);
    hide Nodes, CtxNodes, Distinct, Fill;
  }

  lemma SortedWithout(a: seq<Entry>, e: Entry, b: seq<Entry>)
    requires Sorted(a + [e] + b)
    ensures Sorted(a + b)
  {
    var s := a + [e] + b;
    var o := a + b;
    assert forall i :: 0 <= i < |o| ==> o[i] == s[if i < |a| then i else i + 1];
  }

  // ---------- The fix-up ----------

  /** What the fix-up of a deletion maintains: the subtree t, were its top black, would be short by
      one black node unless it is red. */
  ghost predicate MendFits(x: Ctx, t: Shape)
  {
    RedBlack(Blackened(t)) && CtxRedBlack(x, BlackHeight(t) + 1)
  }

  ghost function MendMeasure(x: Ctx, t: Shape): nat
  {
    if x.Top? || !IsBlack(t) then 0 else Depth(x)
  }

  /** A short subtree has a real sibling, and real nephews if that is red. */
  lemma SiblingReal(x: Ctx, t: Shape)
    requires MendFits(x, t) && !x.Top?
    ensures Sibling(x).Fork? && (IsBlack(t) ==> RedBlack(t))
    ensures Sibling(x).c.Red? ==> Sibling(x).l.Fork? && Sibling(x).r.Fork?
  {
  }

  /** Done: painting the top black makes everything right. */
  lemma MendedFits(x: Ctx, t: Shape)
    requires MendFits(x, t) && (x.Top? || !IsBlack(t))
    ensures RedBlack(Fill(x, Blackened(t))) && IsBlack(Fill(x, Blackened(t)))
  {
    FillRedBlack(x, Blackened(t));
  }

  lemma RedBlackParts(t: Shape)
    requires RedBlack(t) && t.Fork?
    ensures RedBlack(t.l) && RedBlack(t.r) && BlackHeight(t.l) == BlackHeight(t.r)
            && (t.c.Red? ==> IsBlack(t.l) && IsBlack(t.r))
    ensures BlackHeight(t) == BlackHeight(t.l) + if t.c.Black? then 1 else 0
  {
  }

  lemma RedBlackOf(t: Shape)
    requires t.Fork? && RedBlack(t.l) && RedBlack(t.r) && BlackHeight(t.l) == BlackHeight(t.r)
             && (t.c.Red? ==> IsBlack(t.l) && IsBlack(t.r))
    ensures RedBlack(t) && BlackHeight(t) == BlackHeight(t.l) + if t.c.Black? then 1 else 0
  {
  }

  ghost function Sibling(x: Ctx): Shape
    requires !x.Top?
  {
    if x.InLeft? then x.r else x.l
  }

  // ---------- The hole on the left ----------

  /** Red sibling: a rotation makes the sibling black. */
  ghost function SunkLeft(x: Ctx): Ctx
    requires x.InLeft? && x.r.Fork?
  {
    InLeft(Red, x.n, x.k, x.r.l, InLeft(Black, x.r.n, x.r.k, x.r.r, x.up))
  }

  lemma SunkLeftFits(x: Ctx, t: Shape)
    requires MendFits(x, t) && x.InLeft? && x.r.Fork? && x.r.c.Red?
    ensures MendFits(SunkLeft(x), t) && SunkLeft(x).r.Fork? && SunkLeft(x).r.c.Black?
  {
  }

  /** Black nephews: the sibling turns red and the trouble moves up. */
  ghost function PaledLeft(x: Ctx, t: Shape): Shape
    requires x.InLeft? && x.r.Fork?
  {
    Fork(x.c, t, x.n, x.k, x.r.(c := Red))
  }

  lemma PaledLeftFits(x: Ctx, t: Shape)
    requires MendFits(x, t) && IsBlack(t) && x.InLeft? && x.r.Fork? && x.r.c.Black? && IsBlack(x.r.l) && IsBlack(x.r.r)
    ensures MendFits(x.up, PaledLeft(x, t))
  {
    assert RedBlack(x.r.(c := Red)) && RedBlack(t);
  }

  /** Red inner nephew: it becomes the sibling, with a red outer child. */
  ghost function NephewedLeft(x: Ctx): Ctx
    requires x.InLeft? && x.r.Fork? && x.r.l.Fork?
  {
    var w := x.r;
    x.(r := Fork(Black, w.l.l, w.l.n, w.l.k, Fork(Red, w.l.r, w.n, w.k, w.r)))
  }

  lemma NephewedLeftFits(x: Ctx, t: Shape)
    requires MendFits(x, t) && x.InLeft? && x.r.Fork? && x.r.c.Black? && x.r.l.Fork? && x.r.l.c.Red? && IsBlack(x.r.r)
    ensures MendFits(NephewedLeft(x), t)
  {
    RedBlackParts(x.r);
    RedBlackParts(x.r.l);
    RedBlackOf(NephewedLeft(x).r.r);
    RedBlackOf(NephewedLeft(x).r);
    hide RedBlack, BlackHeight;
  }

  /** Red outer nephew: a last rotation, and the whole tree is right. */
  ghost function FinalLeft(x: Ctx, t: Shape): Shape
    requires x.InLeft? && x.r.Fork? && x.r.r.Fork?
  {
    var w := x.r;
    Fork(x.c, Fork(Black, t, x.n, x.k, w.l), w.n, w.k, w.r.(c := Black))
  }

  lemma FinalLeftFits(x: Ctx, t: Shape)
    requires MendFits(x, t) && IsBlack(t) && x.InLeft? && x.r.Fork? && x.r.c.Black? && x.r.r.Fork? && x.r.r.c.Red?
    ensures var s := Fill(x.up, FinalLeft(x, t)); RedBlack(s) && IsBlack(s) && MendFits(Top, s)
  {
    var f := FinalLeft(x, t);
    RedBlackParts(x.r);
    RedBlackParts(x.r.r);
    assert IsBlack(t) ==> Blackened(t) == t;
    hide RedBlack, BlackHeight;
    RedBlackOf(f.l);
    RedBlackOf(f.r);
    RedBlackOf(f);
    hide Fill;
    FillRedBlack(x.up, f);
    assert Blackened(Fill(x.up, f)) == Fill(x.up, f);
  }

  // ---------- The hole on the right ----------

  /** Red sibling: a rotation makes the sibling black. */
  ghost function SunkRight(x: Ctx): Ctx
    requires x.InRight? && x.l.Fork?
  {
    InRight(Red, x.l.r, x.n, x.k, InRight(Black, x.l.l, x.l.n, x.l.k, x.up))
  }

  lemma SunkRightFits(x: Ctx, t: Shape)
    requires MendFits(x, t) && x.InRight? && x.l.Fork? && x.l.c.Red?
    ensures MendFits(SunkRight(x), t) && SunkRight(x).l.Fork? && SunkRight(x).l.c.Black?
  {
  }

  /** Black nephews: the sibling turns red and the trouble moves up. */
  ghost function PaledRight(x: Ctx, t: Shape): Shape
    requires x.InRight? && x.l.Fork?
  {
    Fork(x.c, x.l.(c := Red), x.n, x.k, t)
  }

  lemma PaledRightFits(x: Ctx, t: Shape)
    requires MendFits(x, t) && IsBlack(t) && x.InRight? && x.l.Fork? && x.l.c.Black? && IsBlack(x.l.l) && IsBlack(x.l.r)
    ensures MendFits(x.up, PaledRight(x, t))
  {
    assert RedBlack(x.l.(c := Red)) && RedBlack(t);
  }

  /** Red inner nephew: it becomes the sibling, with a red outer child. */
  ghost function NephewedRight(x: Ctx): Ctx
    requires x.InRight? && x.l.Fork? && x.l.r.Fork?
  {
    var w := x.l;
    x.(l := Fork(Black, Fork(Red, w.l, w.n, w.k, w.r.l), w.r.n, w.r.k, w.r.r))
  }

  lemma NephewedRightFits(x: Ctx, t: Shape)
    requires MendFits(x, t) && x.InRight? && x.l.Fork? && x.l.c.Black? && x.l.r.Fork? && x.l.r.c.Red? && IsBlack(x.l.l)
    ensures MendFits(NephewedRight(x), t)
  {
    RedBlackParts(x.l);
    RedBlackParts(x.l.r);
    RedBlackOf(NephewedRight(x).l.l);
    RedBlackOf(NephewedRight(x).l);
    hide RedBlack, BlackHeight;
  }

  /** Red outer nephew: a last rotation, and the whole tree is right. */
  ghost function FinalRight(x: Ctx, t: Shape): Shape
    requires x.InRight? && x.l.Fork? && x.l.l.Fork?
  {
    var w := x.l;
    Fork(x.c, w.l.(c := Black), w.n, w.k, Fork(Black, w.r, x.n, x.k, t))
  }

  lemma FinalRightFits(x: Ctx, t: Shape)
    requires MendFits(x, t) && IsBlack(t) && x.InRight? && x.l.Fork? && x.l.c.Black? && x.l.l.Fork? && x.l.l.c.Red?
    ensures var s := Fill(x.up, FinalRight(x, t)); RedBlack(s) && IsBlack(s) && MendFits(Top, s)
  {
    var f := FinalRight(x, t);
    RedBlackParts(x.l);
    RedBlackParts(x.l.l);
    assert IsBlack(t) ==> Blackened(t) == t;
    hide RedBlack, BlackHeight;
    RedBlackOf(f.r);
    RedBlackOf(f.l);
    RedBlackOf(f);
    hide Fill;
    FillRedBlack(x.up, f);
    assert Blackened(Fill(x.up, f)) == Fill(x.up, f);
  }

  // ---------- What a deletion hands to the fix-up ----------

  /** The child u hangs under z where a red or a black node was. */
  ghost predicate Handed(z: Ctx, u: Shape, red: bool)
  {
    if red then RedBlack(u) && IsBlack(u) && CtxRedBlack(z, BlackHeight(u)) else MendFits(z, u)
  }

  lemma HandedSelf(z: Ctx, sub: Shape, u: Shape)
    requires RedBlack(Fill(z, sub)) && IsBlack(Fill(z, sub)) && OneChild(sub, u)
    ensures Handed(z, u, sub.c.Red?) && MendFits(Top, u)
  {
    UnhookFits(z, sub, u);
  }

  lemma HandedSuccessor(x: Ctx, t: Shape, zr: Ctx, sub: Shape)
    requires RedBlack(Fill(x, t)) && IsBlack(Fill(x, t)) && Successor(t, zr, sub)
    ensures Handed(Inner(x, t, sub.n, sub.k, zr), sub.r, sub.c.Red?)
  {
    var z := Inner(x, t, t.n, t.k, zr);
    InnerFill(x, t, t.n, t.k, zr, sub);
    UnhookFits(z, sub, sub.r);
    SwapFits(zr, InRight(t.c, t.l, t.n, t.k, x), InRight(t.c, t.l, sub.n, sub.k, x),
             BlackHeight(sub.r) + if sub.c.Black? then 1 else 0);
  }

  // ---------- What the assignments of a deletion find ----------

  /** The successor's own fields; it is not the root. */
  lemma AtSuccessor(m: Store, x: Ctx, t: Shape, zr: Ctx, sub: Shape, root: Node, s: Node)
    requires View(m, Top, Fill(x, t), root, s) && Successor(t, zr, sub) && s in m
    ensures var z := Inner(x, t, t.n, t.k, zr);
            && sub.n in m && sub.n != root && sub.n != t.n && Distinct(Fill(x, t)) && !z.Top? && z.n in m
               && m[sub.n].left == s && m[sub.n].right == Ref(sub.r, s)
            && m[sub.n].color == sub.c && m[sub.n].parent == z.n && (m[z.n].left == sub.n <==> z.InLeft?)
  {
    var z := Inner(x, t, t.n, t.k, zr);
    InnerFill(x, t, t.n, t.k, zr, sub);
    MovedApart(m, x, t, zr, sub, root, s);
    hide Successor, Inner, Apart, View;
    assert View(m, Top, Fill(z, sub), root, s);
    ReadUp(m, z, sub, root, s);
  }

  /** The fields read between the assignments. */
  lemma MovedReads(m: Store, x: Ctx, t: Shape, zr: Ctx, sub: Shape, root: Node, s: Node)
    requires View(m, Top, Fill(x, t), root, s) && Successor(t, zr, sub) && s in m
    ensures var z, u := Inner(x, t, t.n, t.k, zr), Ref(sub.r, s);
            var m2 := Skipped(m, z, t.n, sub.n, u);
            && {t.n, sub.n, u, z.n, Ref(t.l, s), Ref(Fill(zr, sub.r), s)} <= m.Keys && m2.Keys == m.Keys && t.n != sub.n
            && m2[t.n].left == Ref(t.l, s) && m2[t.n].right == Ref(Fill(zr, sub.r), s)
  {
    var z, u := Inner(x, t, t.n, t.k, zr), Ref(sub.r, s);
    var m1 := WithParent(Rehang(m, z, u), u, z.n);
    assert m1.Keys == m.Keys;
    InnerFill(x, t, t.n, t.k, zr, sub);
    hide View, Successor, Inner, Rehang, WithParent, Skipped, Fill;
    UnhookedReads(m, m1, x, t, zr, sub, root, s);
    MovedApart(m, x, t, zr, sub, root, s);
    SkippedReads(m, m1, z, t.n, sub.n, u);
  }

  lemma MovedReadsUp(m: Store, x: Ctx, t: Shape, zr: Ctx, sub: Shape, root: Node, s: Node)
    requires View(m, Top, Fill(x, t), root, s) && Successor(t, zr, sub) && s in m
    ensures var z := Inner(x, t, t.n, t.k, zr);
            var m2 := Skipped(m, z, t.n, sub.n, Ref(sub.r, s));
            && (x.Top? <==> t.n == root)
            && (!x.Top? ==> t.n in m2 && x.n in m2 && m2[t.n].parent == x.n && x.n != sub.n
                            && (m2[x.n].left == t.n <==> x.InLeft?))
  {
    var z, u := Inner(x, t, t.n, t.k, zr), Ref(sub.r, s);
    var m1 := WithParent(Rehang(m, z, u), u, z.n);
    assert m1.Keys == m.Keys;
    InnerFill(x, t, t.n, t.k, zr, sub);
    hide View, Successor, Inner, Rehang, WithParent, Skipped, Fill;
    UnhookedReads(m, m1, x, t, zr, sub, root, s);
    MovedApart(m, x, t, zr, sub, root, s);
    SkippedReads(m, m1, z, t.n, sub.n, u);
  }

  lemma SkippedReads(m: Store, m1: Store, z: Ctx, node: Node, sub: Node, u: Node)
    requires !z.Top? && node != u && m1 == WithParent(Rehang(m, z, u), u, z.n)
    ensures var m2 := Skipped(m, z, node, sub, u);
            && m2.Keys == m1.Keys && (forall n :: n in m1 ==> m2[n].left == m1[n].left && m2[n].right == m1[n].right)
            && (node in m1 ==> m2[node].parent == m1[node].parent)
  {
    assert Skipped(m, z, node, sub, u) == if z.n == node then WithParent(m1, u, sub) else m1;
  }

  lemma UnhookedReads(m: Store, m1: Store, x: Ctx, t: Shape, zr: Ctx, sub: Shape, root: Node, s: Node)
    requires View(m, Top, Fill(x, t), root, s) && Successor(t, zr, sub) && s in m
    requires var z, u := Inner(x, t, t.n, t.k, zr), Ref(sub.r, s); !z.Top? && m1 == WithParent(Rehang(m, z, u), u, z.n)
    ensures t.n in m1 && m1[t.n].left == Ref(t.l, s) && m1[t.n].right == Ref(Fill(zr, sub.r), s)
    ensures x.Top? <==> t.n == root
    ensures !x.Top? ==> m1[t.n].parent == x.n && x.n in m1 && (m1[x.n].left == t.n <==> x.InLeft?)
  {
    var t1 := Fork(t.c, t.l, t.n, t.k, Fill(zr, sub.r));
    UnhookedWhole(m, x, t, zr, sub, root, s);
    assert View(m1, Top, Fill(x, t1), root, s);
    hide *;
    ReadUp(m1, x, t1, root, s);
    assert Ref(t1, s) == t1.n by { RefFork(t1, s); }
  }

  lemma RefFork(t: Shape, s: Node)
    requires t.Fork?
    ensures Ref(t, s) == t.n
  {
  }

  /** The tree between the unhooking and the replacement. */
  lemma UnhookedWhole(m: Store, x: Ctx, t: Shape, zr: Ctx, sub: Shape, root: Node, s: Node)
    requires View(m, Top, Fill(x, t), root, s) && Successor(t, zr, sub) && s in m
    ensures var z, u := Inner(x, t, t.n, t.k, zr), Ref(sub.r, s);
            && !z.Top? && View(WithParent(Rehang(m, z, u), u, z.n), Top,
                               Fill(x, Fork(t.c, t.l, t.n, t.k, Fill(zr, sub.r))), root, s)
  {
    var z, u := Inner(x, t, t.n, t.k, zr), sub.r;
    var m1 := WithParent(Rehang(m, z, Ref(u, s)), Ref(u, s), z.n);
    assert OneChild(sub, u);
    InnerFill(x, t, t.n, t.k, zr, sub);
    InnerFill(x, t, t.n, t.k, zr, u);
    hide Successor, Inner, View, Rehang, WithParent, OneChild, Fill;
    ViewFill(m, z, sub, root, s);
    UnhookedView(m, m1, z, sub, u, root, s);
    ViewFill(m1, z, u, root, s);
  }

  lemma OneContents(z: Ctx, sub: Shape, u: Shape) returns (before: seq<Entry>, after: seq<Entry>)
    requires OneChild(sub, u)
    ensures Inorder(Fill(z, sub)) == before + [Entry(sub.n, sub.k)] + after && Inorder(Fill(z, u)) == before + after
  {
    UnhookContents(z, sub, u);
    if sub.l.Leaf? {
      before, after := Before(z), Inorder(u) + After(z);
    } else {
      before, after := Before(z) + Inorder(u), After(z);
    }
  }

  /** All that the successor's move achieves. */
  lemma SuccessorTaken(m: Store, x: Ctx, t: Shape, zr: Ctx, sub: Shape, root: Node,
                       s: Node) returns (before: seq<Entry>, after: seq<Entry>)
    requires View(m, Top, Fill(x, t), root, s) && Successor(t, zr, sub) && s in m && RedBlack(Fill(x, t))
             && IsBlack(Fill(x, t))
    ensures var z, z' := Inner(x, t, t.n, t.k, zr), Inner(x, t, sub.n, sub.k, zr);
            var m' := Moved(m, x, z, t.n, sub.n, Ref(sub.r, s), Ref(t.l, s), Ref(Fill(zr, sub.r), s), s);
            && View(m', Top, Fill(z', sub.r), if x.Top? then sub.n else root, s)
            && s in m' && m'[s].color == m[s].color && (sub.r.Leaf? ==> m'[s].parent == z'.n)
            && !z'.Top? && Handed(z', sub.r, sub.c.Red?) && Nodes(Fill(z', sub.r)) == Nodes(Fill(x, t)) - {t.n}
            && Inorder(Fill(x, t)) == before + [Entry(t.n, t.k)] + after && Inorder(Fill(z', sub.r)) == before + after
  {
    AtSuccessor(m, x, t, zr, sub, root, s);
    MovedView(m, x, t, zr, sub, root, s);
    InnerFill(x, t, sub.n, sub.k, zr, sub.r);
    before, after := Before(x) + Inorder(t.l), [Entry(sub.n, sub.k)] + Inorder(sub.r) + After(zr) + After(x);
    MovedContents(x, t, zr, sub);
    HandedSuccessor(x, t, zr, sub);
  }

  lemma OneChildReads(m: Store, x: Ctx, t: Shape, u: Shape, root: Node, s: Node)
    requires View(m, Top, Fill(x, t), root, s) && OneChild(t, u) && s in m
    ensures t.n in m && Ref(u, s) in m && Ref(u, s) != t.n && Distinct(Fill(x, t))
    ensures u.Fork? ==> u.n in m && u.n != s
  {
    ViewFill(m, x, t, root, s);
  }

  /** With a red node gone nothing is short. */
  lemma RedHanded(z: Ctx, u: Shape)
    requires Handed(z, u, true)
    ensures RedBlack(Fill(z, u)) && IsBlack(Fill(z, u))
  {
    FillRedBlack(z, u);
  }

  lemma BlackHanded(z: Ctx, u: Shape)
    requires Handed(z, u, false)
    ensures MendFits(z, u)
  {
  }

  /** The last child of the root becomes the root. */
  lemma DroppedView(m: Store, t: Shape, u: Shape, root: Node, s: Node)
    requires View(m, Top, t, root, s) && OneChild(t, u)
    ensures View(m, Top, u, Ref(u, s), s)
  {
  }
}
