/** The intrusive red-black tree of the name server: insert, delete, lookup, and both rotations. */
module RbTree {
  import opened Sequences
  import opened RbShape
  import opened RbLinks
  import opened RbRemoval

  ghost function Snap(ns: set<Node>): Store
    reads ns
  {
    map n | n in ns :: Cell(n.key, n.left, n.right, n.parent, n.color)
  }

  class Tree {
    var root: Node
    const sentinel: Node
    // the shape of the tree, and the nodes whose fields the operations may touch
    ghost var shape: Shape
    ghost var repr: set<Node>

    ghost predicate Good()
      reads this, repr
    {
      && sentinel in repr && Nodes(shape) <= repr && sentinel.color == Black
      && View(Snap(repr), Top, shape, root, sentinel)
    }

    ghost predicate Valid()
      reads this, repr
    {
      Good() && RedBlack(shape) && IsBlack(shape) && Sorted(Inorder(shape))
    }

    /** gfs_rbtree_init. */
    constructor (sentinel: Node)
      modifies sentinel
      ensures Valid() && this.sentinel == sentinel && shape == Leaf && repr == {sentinel}
    {
      this.sentinel := sentinel;
      root, shape, repr := sentinel, Leaf, {sentinel};
      new;
      sentinel.color := Black;
    }

    /** gfs_rbt_red, gfs_rbt_black and gfs_rbt_copy_color on a tree node. */
    method Paint(n: Node, c: Color, ghost x: Ctx, ghost t: Shape)
      requires Good() && shape == Fill(x, t) && t.Fork? && t.n == n
      modifies n`color, this`shape
      ensures Good() && shape == Fill(x, t.(c := c)) && Holdings(shape) == old(Holdings(shape))
    {
      hide Linked, LinkedCtx;
      FillNodes(x, t);
      ViewFill(Snap(repr), x, t, root, sentinel);
      ghost var m := Snap(repr);
      n.color := c;
      ghost var t' := t.(c := c);
      FillNodes(x, t');
      assert Snap(repr) == m[n := m[n].(color := c)];
      PaintedView(m, Snap(repr), x, t, root, sentinel, c);
      ViewFill(Snap(repr), x, t', root, sentinel);
      shape := Fill(x, t');
      SameContents(x, t, t');
    }

    method RotateLeft(node: Node, ghost x: Ctx, ghost t: Shape)
      requires Good() && shape == Fill(x, t) && CanRotateLeft(t) && t.n == node
      modifies this`root, this`shape, repr`left, repr`right, repr`parent
      ensures Good() && shape == Fill(x, RotatedLeft(t)) && sentinel.parent == old(sentinel.parent)
      ensures Holdings(shape) == old(Holdings(shape))
    {
      hide View, Fill, Nodes, TurnedLeft, RotatedLeft, Linked, LinkedCtx, Inorder;
      ghost var m := Snap(repr);
      LeftReads(m, x, t, root, sentinel);
      TurnLeft(node, x, t.r.n, Ref(t.r.l, sentinel));
      LeftDone(m, x, t, old(root), root, sentinel);
      assert Snap(repr)[sentinel].parent == m[sentinel].parent;
      shape := Fill(x, RotatedLeft(t));
      RotatedContents(x, t);
    }

    /** The assignments of gfs_rbtree_left_rotate. */
    method TurnLeft(node: Node, ghost x: Ctx, ghost temp0: Node, ghost b: Node)
      requires {node, temp0, b, sentinel} <= repr && node != temp0 && node != sentinel && temp0 != sentinel
      requires node.right == temp0 && temp0.left == b && b != node && b != temp0 && (x.Top? <==> node == root)
      requires !x.Top? ==> node.parent == x.n && x.n in repr && x.n !in {node, temp0, sentinel}
                           && (b != sentinel ==> x.n != b)
                           && (x.n.left == node <==> x.InLeft?)
      modifies this`root, repr`left, repr`right, repr`parent
      ensures Snap(repr) == TurnedLeft(old(Snap(repr)), x, node, temp0, b, sentinel)
      ensures root == (if x.Top? then temp0 else old(root)) && sentinel.color == old(sentinel.color)
    {
      hide WithLeft, WithRight, WithParent, Rehang;
      var temp := node.right;
      SetRight(node, temp.left);
      if temp.left != sentinel {
        SetParent(temp.left, node);
      }
      SetParent(temp, node.parent);
      Replace(node, temp, x);
      SetLeft(temp, node);
      SetParent(node, temp);
    }

    method RotateRight(node: Node, ghost x: Ctx, ghost t: Shape)
      requires Good() && shape == Fill(x, t) && CanRotateRight(t) && t.n == node
      modifies this`root, this`shape, repr`left, repr`right, repr`parent
      ensures Good() && shape == Fill(x, RotatedRight(t)) && sentinel.parent == old(sentinel.parent)
      ensures Holdings(shape) == old(Holdings(shape))
    {
      hide View, Fill, Nodes, TurnedRight, RotatedRight, Linked, LinkedCtx, Inorder;
      ghost var m := Snap(repr);
      RightReads(m, x, t, root, sentinel);
      TurnRight(node, x, t.l.n, Ref(t.l.r, sentinel));
      RightDone(m, x, t, old(root), root, sentinel);
      assert Snap(repr)[sentinel].parent == m[sentinel].parent;
      shape := Fill(x, RotatedRight(t));
      RotatedContents(x, t);
    }

    /** The assignments of gfs_rbtree_right_rotate. */
    method TurnRight(node: Node, ghost x: Ctx, ghost temp0: Node, ghost b: Node)
      requires {node, temp0, b, sentinel} <= repr && node != temp0 && node != sentinel && temp0 != sentinel
      requires node.left == temp0 && temp0.right == b && b != node && b != temp0 && (x.Top? <==> node == root)
      requires !x.Top? ==> node.parent == x.n && x.n in repr && x.n !in {node, temp0, sentinel}
                           && (b != sentinel ==> x.n != b)
                           && (x.n.left == node <==> x.InLeft?)
      modifies this`root, repr`left, repr`right, repr`parent
      ensures Snap(repr) == TurnedRight(old(Snap(repr)), x, node, temp0, b, sentinel)
      ensures root == (if x.Top? then temp0 else old(root)) && sentinel.color == old(sentinel.color)
    {
      hide WithLeft, WithRight, WithParent, Rehang;
      var temp := node.left;
      SetLeft(node, temp.right);
      if temp.right != sentinel {
        SetParent(temp.right, node);
      }
      SetParent(temp, node.parent);
      Replace(node, temp, x);
      SetRight(temp, node);
      SetParent(node, temp);
    }

    method SetLeft(n: Node, v: Node?)
      requires n in repr
      modifies n`left
      ensures Snap(repr) == WithLeft(old(Snap(repr)), n, v)
    {
      n.left := v;
    }

    method SetRight(n: Node, v: Node?)
      requires n in repr
      modifies n`right
      ensures Snap(repr) == WithRight(old(Snap(repr)), n, v)
    {
      n.right := v;
    }

    method SetColor(n: Node, c: Color)
      requires n in repr
      modifies n`color
      ensures Snap(repr) == WithColor(old(Snap(repr)), n, c)
    {
      n.color := c;
    }

    method SetParent(n: Node, v: Node?)
      requires n in repr
      modifies n`parent
      ensures Snap(repr) == WithParent(old(Snap(repr)), n, v)
    {
      n.parent := v;
    }

    /** What hung at `node` is now at `temp`: the root, or the parent's link on the right side. */
    method Replace(node: Node, temp: Node, ghost x: Ctx)
      requires x.Top? <==> node == root
      requires !x.Top? ==> node.parent == x.n && x.n in repr && (x.n.left == node <==> x.InLeft?)
      modifies this`root, repr`left, repr`right
      ensures Snap(repr) == Rehang(old(Snap(repr)), x, temp) && root == if x.Top? then temp else old(root)
    {
      if node == root {
        root := temp;
      } else if node == node.parent.left {
        node.parent.left := temp;
      } else {
        node.parent.right := temp;
      }
    }

    // ---------- What the links say about the entries ----------

    lemma NotThere(n: Node)
      requires Valid() && n !in repr
      ensures forall i :: 0 <= i < |Inorder(shape)| ==> Inorder(shape)[i].n != n
    {
      forall i | 0 <= i < |Inorder(shape)|
        ensures Inorder(shape)[i].n != n
      {
        EntryNode(shape, Inorder(shape)[i]);
      }
    }

    lemma EntriesUnique()
      requires Valid()
      ensures var s := Inorder(shape); forall i, j :: 0 <= i < j < |s| ==> s[i].n != s[j].n
    {
      forall i, j | 0 <= i < j < |Inorder(shape)|
        ensures Inorder(shape)[i].n != Inorder(shape)[j].n
      {
        EntriesApart(shape, i, j);
      }
    }

    lemma KeyIs(e: Entry)
      requires Valid() && e in Inorder(shape)
      ensures e.n in repr && e.n.key == e.k
    {
      EntryKey(Snap(repr), shape, sentinel, e);
    }

    // ---------- Insertion ----------

    /** The tree as the fix-up of an insertion sees it: t is red at its top and may hang under a
        red parent; everything else is in order. */
    ghost predicate Fixing(x: Ctx, t: Shape)
      reads this, repr
    {
      && Good() && shape == Fill(x, t) && t.Fork? && t.c.Red? && RedBlack(t) && CtxRedBlack(x, BlackHeight(t))
    }

    /** The loop of gfs_rbtree_insert_value: down to an empty place, which hangs under `temp`. */
    method Descend(start: Node, key: int) returns (temp: Node, left: bool, ghost x: Ctx)
      requires Valid() && start == root && root != sentinel
      ensures shape == Fill(x, Leaf) && !x.Top? && x.n == temp && (left <==> x.InLeft?) && PlaceFor(x, key)
    {
      hide View, RedBlack, CtxRedBlack, Linked, LinkedCtx, Nodes, Distinct, Inorder, Sorted;
      assert PlaceFor(Top, key);
      hide PlaceFor;
      temp := start;
      x := Top;
      ghost var t := shape;
      ReadUp(Snap(repr), Top, shape, root, sentinel);
      while true
        invariant shape == Fill(x, t) && t.Fork? && t.n == temp && temp in repr && PlaceFor(x, key)
        decreases t
      {
        ReadUp(Snap(repr), x, t, root, sentinel);
        StepDown(x, t, key);
        left := key < temp.key;
        x := if left then InLeft(t.c, t.n, t.k, t.r, x) else InRight(t.c, t.l, t.n, t.k, x);
        var next := if left then temp.left else temp.right;
        t := if left then t.l else t.r;
        if next == sentinel {
          ReadUp(Snap(repr), x, t, root, sentinel);
          return;
        }
        ReadUp(Snap(repr), x, t, root, sentinel);
        temp := next;
      }
    }

    /** The assignments of gfs_rbtree_insert_value. */
    method Hang(node: Node, temp: Node, left: bool, ghost x: Ctx)
      requires {node, temp} <= repr && node != sentinel && (left <==> x.InLeft?)
      modifies node`left, node`right, node`parent, node`color, temp`left, temp`right
      ensures Snap(repr) == Plugged(old(Snap(repr)), x, node, temp, sentinel)
    {
      hide WithLeft, WithRight, WithParent, WithColor;
      if left {
        SetLeft(temp, node);
      } else {
        SetRight(temp, node);
      }
      SetParent(node, temp);
      SetLeft(node, sentinel);
      SetRight(node, sentinel);
      SetColor(node, Red);
    }

    /** gfs_rbtree_insert_value. */
    method InsertValue(start: Node, node: Node) returns (ghost x: Ctx)
      requires Valid() && start == root && root != sentinel && node !in repr
      modifies this`shape, this`repr, repr`left, repr`right, node`left, node`right, node`parent, node`color
      ensures Good() && shape == Fill(x, Fork(Red, Leaf, node, node.key, Leaf))
      ensures repr == old(repr) + {node} && old(shape) == Fill(x, Leaf) && !x.Top? && PlaceFor(x, node.key)
      ensures Nodes(shape) == old(Nodes(shape)) + {node}
    {
      hide View, RedBlack, CtxRedBlack, Linked, LinkedCtx, Nodes, Distinct, PlaceFor, Inorder, Fill, Plugged;
      var temp, left;
      temp, left, x := Descend(start, node.key);
      ghost var m := Snap(repr);
      ReadUp(m, x, Leaf, root, sentinel);
      CtxInRepr(x, Leaf, repr);
      repr := repr + {node};
      assert Snap(repr) == m[node := Snap(repr)[node]];
      PluggedSteps(m, x, root, sentinel, node, Snap(repr)[node]);
      Hang(node, temp, left, x);
      shape := Fill(x, Fork(Red, Leaf, node, node.key, Leaf));
      PluggedNodes(x, node, node.key);
    }

    /** One turn of the fix-up loop when the parent is a left child. */
    method InsertStepLeft(node: Node, ghost x: Ctx, ghost t: Shape) returns (next: Node, ghost x': Ctx, ghost t': Shape)
      requires Fixing(x, t) && t.n == node && !x.Top? && x.c.Red? && x.up.InLeft?
      modifies this`root, this`shape, repr`left, repr`right, repr`parent, repr`color
      ensures Fixing(x', t') && t'.n == next && Depth(x') < Depth(x)
      ensures Holdings(shape) == old(Holdings(shape))
    {
      hide Holdings, View, Linked, LinkedCtx, Nodes, Distinct, Inorder, RedBlack, CtxRedBlack, BlackHeight;
      RedParent(x, t);
      ghost var p := Up(x, t);
      ReadUp(Snap(repr), x, t, root, sentinel);
      ReadUp(Snap(repr), x.up, p, root, sentinel);
      CtxInRepr(x, t, repr);
      CtxInRepr(x.up, p, repr);
      var parent := node.parent;
      var grand := parent.parent;
      var temp := grand.right;
      if temp.color == Red {
        Paint(parent, Black, x.up, p);
        ghost var p1 := p.(c := Black);
        Paint(temp, Black, InRight(x.up.c, p1, x.up.n, x.up.k, x.up.up), x.up.r);
        ghost var g1 := Fork(x.up.c, p1, x.up.n, x.up.k, x.up.r.(c := Black));
        Paint(grand, Red, x.up.up, g1);
        next, x', t' := grand, x.up.up, g1.(c := Red);
        RecoloredFits(x, t, p, t');
      } else {
        next, x', t' := RaiseLeft(node, parent, grand, x, t);
      }
    }

    /** Black uncle: one or two rotations lift the red pair's black top. */
    method RaiseLeft(node: Node, parent: Node, grand: Node, ghost x: Ctx,
                     ghost t: Shape) returns (next: Node, ghost x': Ctx, ghost t': Shape)
      requires Fixing(x, t) && t.n == node && !x.Top? && x.c.Red? && x.up.InLeft? && IsBlack(x.up.r) && parent == x.n
               && grand == x.up.n
      modifies this`root, this`shape, repr`left, repr`right, repr`parent, repr`color
      ensures Fixing(x', t') && t'.n == next && Depth(x') < Depth(x)
      ensures Holdings(shape) == old(Holdings(shape))
    {
      hide Holdings, View, Linked, LinkedCtx, Nodes, Distinct, Inorder, RedBlack, CtxRedBlack, BlackHeight;
      RedParent(x, t);
      ReadUp(Snap(repr), x, t, root, sentinel);
      CtxInRepr(x.up, Up(x, t), repr);
      next := node;
      ghost var x1, t1 := x, t;
      if node == parent.right {
        next := parent;
        RotateLeft(next, x.up, Up(x, t));
        t1 := Fork(Red, x.l, x.n, x.k, t.l);
        x1 := InLeft(Red, t.n, t.k, t.r, x.up);
      }
      ReadUp(Snap(repr), x1, t1, root, sentinel);
      ghost var p1 := Up(x1, t1);
      Paint(next.parent, Black, x.up, p1);
      ghost var g1 := Up(x.up, p1.(c := Black));
      Paint(grand, Red, x.up.up, g1);
      RotateRight(grand, x.up.up, g1.(c := Red));
      x' := InLeft(Black, x1.n, x1.k, Fork(Red, x1.r, x.up.n, x.up.k, x.up.r), x.up.up);
      t' := t1;
      RaisedLeftFits(x, t, x', t');
    }

    /** One turn of the fix-up loop when the parent is a right child. */
    method InsertStepRight(node: Node, ghost x: Ctx,
                           ghost t: Shape) returns (next: Node, ghost x': Ctx, ghost t': Shape)
      requires Fixing(x, t) && t.n == node && !x.Top? && x.c.Red? && x.up.InRight?
      modifies this`root, this`shape, repr`left, repr`right, repr`parent, repr`color
      ensures Fixing(x', t') && t'.n == next && Depth(x') < Depth(x)
      ensures Holdings(shape) == old(Holdings(shape))
    {
      hide Holdings, View, Linked, LinkedCtx, Nodes, Distinct, Inorder, RedBlack, CtxRedBlack, BlackHeight;
      RedParent(x, t);
      ghost var p := Up(x, t);
      ReadUp(Snap(repr), x, t, root, sentinel);
      ReadUp(Snap(repr), x.up, p, root, sentinel);
      CtxInRepr(x, t, repr);
      CtxInRepr(x.up, p, repr);
      var parent := node.parent;
      var grand := parent.parent;
      var temp := grand.left;
      if temp.color == Red {
        Paint(parent, Black, x.up, p);
        ghost var p1 := p.(c := Black);
        Paint(temp, Black, InLeft(x.up.c, x.up.n, x.up.k, p1, x.up.up), x.up.l);
        ghost var g1 := Fork(x.up.c, x.up.l.(c := Black), x.up.n, x.up.k, p1);
        Paint(grand, Red, x.up.up, g1);
        next, x', t' := grand, x.up.up, g1.(c := Red);
        RecoloredFits(x, t, p, t');
      } else {
        next, x', t' := RaiseRight(node, parent, grand, x, t);
      }
    }

    /** Black uncle: one or two rotations lift the red pair's black top. */
    method RaiseRight(node: Node, parent: Node, grand: Node, ghost x: Ctx,
                      ghost t: Shape) returns (next: Node, ghost x': Ctx, ghost t': Shape)
      requires Fixing(x, t) && t.n == node && !x.Top? && x.c.Red? && x.up.InRight? && IsBlack(x.up.l)
               && parent == x.n && grand == x.up.n
      modifies this`root, this`shape, repr`left, repr`right, repr`parent, repr`color
      ensures Fixing(x', t') && t'.n == next && Depth(x') < Depth(x)
      ensures Holdings(shape) == old(Holdings(shape))
    {
      hide Holdings, View, Linked, LinkedCtx, Nodes, Distinct, Inorder, RedBlack, CtxRedBlack, BlackHeight;
      RedParent(x, t);
      ReadUp(Snap(repr), x, t, root, sentinel);
      CtxInRepr(x.up, Up(x, t), repr);
      next := node;
      ghost var x1, t1 := x, t;
      if node == parent.left {
        next := parent;
        RotateRight(next, x.up, Up(x, t));
        t1 := Fork(Red, t.r, x.n, x.k, x.r);
        x1 := InRight(Red, t.l, t.n, t.k, x.up);
      }
      ReadUp(Snap(repr), x1, t1, root, sentinel);
      ghost var p1 := Up(x1, t1);
      Paint(next.parent, Black, x.up, p1);
      ghost var g1 := Up(x.up, p1.(c := Black));
      Paint(grand, Red, x.up.up, g1);
      RotateLeft(grand, x.up.up, g1.(c := Red));
      x' := InRight(Black, Fork(Red, x.up.l, x.up.n, x.up.k, x1.l), x1.n, x1.k, x.up.up);
      t' := t1;
      RaisedRightFits(x, t, x', t');
    }

    /** gfs_rbtree_insert: the new entry goes after all keys not greater than its own. */
    method Insert(node: Node) returns (ghost before: seq<Entry>, ghost after: seq<Entry>)
      requires Valid() && node !in repr
      modifies this`root, this`shape, this`repr, repr`left, repr`right, repr`parent, repr`color, node`left,
               node`right, node`parent, node`color
      ensures Valid() && repr == old(repr) + {node} && Nodes(shape) == old(Nodes(shape)) + {node}
      ensures old(Inorder(shape)) == before + after && Inorder(shape) == before + [Entry(node, node.key)] + after
      ensures (forall e :: e in before ==> e.k <= node.key) && (forall e :: e in after ==> node.key < e.k)
    {
      hide View, Linked, LinkedCtx, Nodes, Distinct, Inorder, Sorted, RedBlack, CtxRedBlack, BlackHeight, Snap;
      if root == sentinel {
        InsertFirst(node);
        before, after := [], [];
        return;
      }
      ghost var x := InsertValue(root, node);
      before, after := Before(x), After(x);
      InsertedContents(x, node, node.key);
      InsertedFits(x, node, node.key);
      Rebalance(node, x, Fork(Red, Leaf, node, node.key, Leaf));
    }

    method InsertFirst(node: Node)
      requires Valid() && node !in repr && root == sentinel
      modifies this`root, this`shape, this`repr, node`left, node`right, node`parent, node`color
      ensures Valid() && repr == old(repr) + {node} && Nodes(shape) == old(Nodes(shape)) + {node}
      ensures old(Inorder(shape)) == [] && Inorder(shape) == [Entry(node, node.key)]
    {
      EmptyTree(Snap(repr), shape, root, sentinel);
      node.parent := null;
      node.left := sentinel;
      node.right := sentinel;
      node.color := Black;
      root := node;
      shape := Fork(Black, Leaf, node, node.key, Leaf);
      repr := repr + {node};
      SingleView(Snap(repr), node, node.key, sentinel);
    }

    /** The fix-up loop of gfs_rbtree_insert. */
    method Rebalance(start: Node, ghost x0: Ctx, ghost t0: Shape)
      requires Fixing(x0, t0) && t0.n == start && Sorted(Inorder(shape))
      modifies this`root, this`shape, repr`left, repr`right, repr`parent, repr`color
      ensures Valid() && Holdings(shape) == old(Holdings(shape))
    {
      hide View, Linked, LinkedCtx, Nodes, Distinct, Inorder, Sorted;
      var node := start;
      ghost var x, t := x0, t0;
      ReadUp(Snap(repr), x, t, root, sentinel);
      CtxInRepr(x, t, repr);
      while node != root && node.parent.color == Red
        invariant Fixing(x, t) && t.n == node && node in repr
        invariant !x.Top? ==> node.parent == x.n && x.n in repr && x.n.color == x.c
        invariant x.Top? <==> node == root
        invariant Holdings(shape) == old(Holdings(shape))
        decreases Depth(x)
      {
        ReadUp(Snap(repr), x.up, Up(x, t), root, sentinel);
        CtxInRepr(x.up, Up(x, t), repr);
        if node.parent == node.parent.parent.left {
          node, x, t := InsertStepLeft(node, x, t);
        } else {
          node, x, t := InsertStepRight(node, x, t);
        }
        ReadUp(Snap(repr), x, t, root, sentinel);
        CtxInRepr(x, t, repr);
      }
      RootPaint(x, t);
    }

    /** The last step of both fix-ups: the root becomes black. */
    method RootPaint(ghost x: Ctx, ghost t: Shape)
      requires Good() && shape == Fill(x, t) && t.Fork? && RedBlack(t) && CtxRedBlack(x, BlackHeight(t))
               && Sorted(Inorder(shape))
      requires !x.Top? && x.c.Red? ==> t.c.Black?
      modifies this`shape, repr`color
      ensures Valid() && Holdings(shape) == old(Holdings(shape))
    {
      hide View, Linked, LinkedCtx, Nodes, Distinct, Inorder, Sorted;
      ReadUp(Snap(repr), Top, shape, root, sentinel);
      ghost var t' := t;
      if !x.Top? {
        FillRedBlack(x, t);
        FillFork(x, t);
      }
      CtxInRepr(Top, shape, repr);
      ReadUp(Snap(repr), Top, shape, root, sentinel);
      Paint(root, Black, Top, shape);
    }

    // ---------- Lookup ----------

    /** gfs_rbtree_lookup_value: finds a node exactly when the key is present, in at most
        2 * log2(n + 1) turns of its loop. */
    method LookupValue(key: int) returns (found: Node?, ghost steps: nat)
      requires Valid()
      ensures found != null <==> HasKey(Inorder(shape), key)
      ensures found != null ==> Entry(found, key) in Inorder(shape)
      ensures Pow2(steps) <= (|Inorder(shape)| + 1) * (|Inorder(shape)| + 1)
    {
      hide View, RedBlack, Linked, LinkedCtx, Nodes, Distinct, Inorder, Sorted, Excludes, HasKey, Pow2;
      NothingExcluded(key);
      var tmp := root;
      ghost var x, t := Top, shape;
      found, steps := null, 0;
      ReadUp(Snap(repr), x, t, root, sentinel);
      CtxInRepr(x, t, repr);
      while tmp != sentinel
        invariant shape == Fill(x, t) && tmp == Ref(t, sentinel) && (tmp == sentinel <==> t.Leaf?) && Excludes(x, key)
        invariant steps + Height(t) <= Height(shape)
        decreases t
      {
        ReadUp(Snap(repr), x, t, root, sentinel);
        steps := steps + 1;
        if key == tmp.key {
          found := tmp;
          Present(x, t);
          break;
        }
        Narrowed(x, t, key);
        x := if key < t.k then InLeft(t.c, t.n, t.k, t.r, x) else InRight(t.c, t.l, t.n, t.k, x);
        tmp := if key < tmp.key then tmp.left else tmp.right;
        t := if key < t.k then t.l else t.r;
        ReadUp(Snap(repr), x, t, root, sentinel);
      }
      if found == null {
        Absent(x, key);
      }
      HeightLog(shape);
      Pow2Monotone(steps, Height(shape));
    }

    // ---------- Deletion ----------

    /** The state of the fix-up loop of a deletion, at the short subtree t. When t is empty, the
        sentinel stands for it, and its parent link says where. */
    ghost predicate Mending(x: Ctx, t: Shape)
      reads this, repr
    {
      Good() && shape == Fill(x, t) && MendFits(x, t) && (t.Leaf? && !x.Top? ==> sentinel.parent == x.n)
    }

    /** gfs_rbt_black(temp) on the child that moved up, or on the sentinel. */
    method Blacken(n: Node, ghost x: Ctx, ghost t: Shape)
      requires Good() && shape == Fill(x, t) && n == Ref(t, sentinel)
      modifies n`color, this`shape
      ensures Good() && shape == Fill(x, Blackened(t)) && Holdings(shape) == old(Holdings(shape))
    {
      hide View, Linked, LinkedCtx, Nodes, Distinct, Inorder;
      if n != sentinel {
        Paint(n, Black, x, t);
      } else {
        ReadUp(Snap(repr), x, t, root, sentinel);
        ghost var m := Snap(repr);
        n.color := Black;
        assert Snap(repr) == m;
      }
    }

    /** One turn of the fix-up loop. */
    method MendStep(temp: Node, ghost x: Ctx, ghost t: Shape) returns (next: Node, ghost x': Ctx, ghost t': Shape)
      requires Mending(x, t) && temp == Ref(t, sentinel) && !x.Top? && IsBlack(t)
      modifies this`root, this`shape, repr`left, repr`right, repr`parent, repr`color
      ensures Mending(x', t') && next == Ref(t', sentinel) && MendMeasure(x', t') < MendMeasure(x, t)
      ensures Holdings(shape) == old(Holdings(shape))
    {
      hide Holdings, View, Linked, LinkedCtx, Nodes, Distinct, Inorder, RedBlack, CtxRedBlack, BlackHeight, MendFits;
      SiblingReal(x, t);
      ReadUp(Snap(repr), x, t, root, sentinel);
      SiblingSides(Snap(repr), x, t, root, sentinel);
      if temp == temp.parent.left {
        next, x', t' := MendStepLeft(temp, x, t);
      } else {
        next, x', t' := MendStepRight(temp, x, t);
      }
    }

    /** The fix-up loop of gfs_rbtree_delete. */
    method Mend(start: Node, ghost x0: Ctx, ghost t0: Shape)
      requires Mending(x0, t0) && start == Ref(t0, sentinel) && Sorted(Inorder(shape))
      modifies this`root, this`shape, repr`left, repr`right, repr`parent, repr`color
      ensures Valid() && Holdings(shape) == old(Holdings(shape))
    {
      hide MendMeasure, View, Linked, LinkedCtx, Nodes, Distinct, Inorder, Sorted, RedBlack, CtxRedBlack,
           BlackHeight, MendFits;
      var temp := start;
      ghost var x, t := x0, t0;
      ReadUp(Snap(repr), x, t, root, sentinel);
      while temp != root && temp.color == Black
        invariant Mending(x, t) && temp == Ref(t, sentinel) && temp in repr
        invariant (x.Top? <==> temp == root) && (temp.color == Black <==> IsBlack(t))
        invariant Holdings(shape) == old(Holdings(shape))
        decreases MendMeasure(x, t)
      {
        temp, x, t := MendStep(temp, x, t);
        ReadUp(Snap(repr), x, t, root, sentinel);
      }
      MendedFits(x, t);
      Blacken(temp, x, t);
    }


    /** One turn of the fix-up loop when the short subtree is a left child. */
    method MendStepLeft(temp: Node, ghost x: Ctx, ghost t: Shape) returns (next: Node, ghost x': Ctx, ghost t': Shape)
      requires Mending(x, t) && temp == Ref(t, sentinel) && x.InLeft? && IsBlack(t)
      modifies this`root, this`shape, repr`left, repr`right, repr`parent, repr`color
      ensures Mending(x', t') && next == Ref(t', sentinel) && MendMeasure(x', t') < MendMeasure(x, t)
      ensures Holdings(shape) == old(Holdings(shape))
    {
      hide Holdings, View, Linked, LinkedCtx, Nodes, Distinct, Inorder, RedBlack, CtxRedBlack, BlackHeight, MendFits;
      SiblingReal(x, t);
      ReadUp(Snap(repr), x, t, root, sentinel);
      var w := temp.parent.right;
      ghost var x1 := x;
      if w.color == Red {
        w := SinkLeft(temp, x, t);
        x1 := SunkLeft(x);
      }
      next, x', t' := SettleLeft(temp, w, x1, t);
    }

    /** Black sibling: with black children it turns red, otherwise this is the last turn. */
    method SettleLeft(temp: Node, w: Node, ghost x: Ctx,
                      ghost t: Shape) returns (next: Node, ghost x': Ctx, ghost t': Shape)
      requires Mending(x, t) && temp == Ref(t, sentinel) && x.InLeft? && IsBlack(t) && x.r.Fork? && x.r.c.Black?
               && w == x.r.n
      modifies this`root, this`shape, repr`left, repr`right, repr`parent, repr`color
      ensures Mending(x', t') && next == Ref(t', sentinel) && (x'.Top? || (x' == x.up && t'.Fork? && t'.c == x.c))
      ensures Holdings(shape) == old(Holdings(shape))
    {
      hide Holdings, View, Linked, LinkedCtx, Nodes, Distinct, Inorder, RedBlack, CtxRedBlack, BlackHeight, MendFits;
      ReadUp(Snap(repr), x, t, root, sentinel);
      ReadUp(Snap(repr), InRight(x.c, t, x.n, x.k, x.up), x.r, root, sentinel);
      AtChildren(Snap(repr), InRight(x.c, t, x.n, x.k, x.up), x.r, root, sentinel);
      if w.left.color == Black && w.right.color == Black {
        Paint(w, Red, InRight(x.c, t, x.n, x.k, x.up), x.r);
        next, x', t' := temp.parent, x.up, PaledLeft(x, t);
        PaledLeftFits(x, t);
      } else {
        next, x', t' := FinishLeft(temp, w, x, t);
      }
    }

    /** Red sibling. */
    method SinkLeft(temp: Node, ghost x: Ctx, ghost t: Shape) returns (w: Node)
      requires Mending(x, t) && temp == Ref(t, sentinel) && x.InLeft? && x.r.Fork? && x.r.c.Red? && IsBlack(t)
      modifies this`root, this`shape, repr`left, repr`right, repr`parent, repr`color
      ensures Mending(SunkLeft(x), t) && SunkLeft(x).r.Fork? && w == SunkLeft(x).r.n && SunkLeft(x).r.c.Black?
      ensures Holdings(shape) == old(Holdings(shape))
    {
      hide Holdings, View, Linked, LinkedCtx, Nodes, Distinct, Inorder, RedBlack, CtxRedBlack, BlackHeight, MendFits;
      SunkLeftFits(x, t);
      ReadUp(Snap(repr), x, t, root, sentinel);
      CtxInRepr(x, t, repr);
      CtxInRepr(InRight(x.c, t, x.n, x.k, x.up), x.r, repr);
      w := temp.parent.right;
      Paint(w, Black, InRight(x.c, t, x.n, x.k, x.up), x.r);
      Paint(temp.parent, Red, x.up, Fork(x.c, t, x.n, x.k, x.r.(c := Black)));
      RotateLeft(temp.parent, x.up, Fork(Red, t, x.n, x.k, x.r.(c := Black)));
      assert shape == Fill(SunkLeft(x), t);
      ReadUp(Snap(repr), SunkLeft(x), t, root, sentinel);
      w := temp.parent.right;
    }

    /** Black sibling with a red child: the loop's last turn. */
    method FinishLeft(temp: Node, w0: Node, ghost x: Ctx,
                      ghost t: Shape) returns (next: Node, ghost x': Ctx, ghost t': Shape)
      requires Mending(x, t) && temp == Ref(t, sentinel) && x.InLeft? && x.r.Fork? && x.r.c.Black? && w0 == x.r.n
               && IsBlack(t)
      requires !(IsBlack(x.r.l) && IsBlack(x.r.r))
      modifies this`root, this`shape, repr`left, repr`right, repr`parent, repr`color
      ensures Mending(x', t') && next == Ref(t', sentinel) && x'.Top?
      ensures Holdings(shape) == old(Holdings(shape))
    {
      hide Holdings, View, Linked, LinkedCtx, Nodes, Distinct, Inorder, RedBlack, CtxRedBlack, BlackHeight, MendFits;
      var w := w0;
      ghost var x1 := x;
      ReadUp(Snap(repr), InRight(x.c, t, x.n, x.k, x.up), x.r, root, sentinel);
      AtChildren(Snap(repr), InRight(x.c, t, x.n, x.k, x.up), x.r, root, sentinel);
      if w.right.color == Black {
        w := TurnLeftNephew(temp, w, x, t);
        x1 := NephewedLeft(x);
      }
      LiftLeft(temp, w, x1, t);
      next, x', t' := root, Top, shape;
      ReadUp(Snap(repr), x', t', root, sentinel);
    }

    /** Red inner nephew only: a rotation puts it where the sibling was. */
    method TurnLeftNephew(temp: Node, w0: Node, ghost x: Ctx, ghost t: Shape) returns (w: Node)
      requires Mending(x, t) && temp == Ref(t, sentinel) && x.InLeft? && x.r.Fork? && x.r.c.Black? && w0 == x.r.n
      requires !IsBlack(x.r.l) && IsBlack(x.r.r)
      modifies this`root, this`shape, repr`left, repr`right, repr`parent, repr`color
      ensures Mending(NephewedLeft(x), t) && w == NephewedLeft(x).r.n
      ensures Holdings(shape) == old(Holdings(shape))
    {
      hide Holdings, View, Linked, LinkedCtx, Nodes, Distinct, Inorder, RedBlack, CtxRedBlack, BlackHeight, MendFits;
      NephewedLeftFits(x, t);
      ghost var c, s := InRight(x.c, t, x.n, x.k, x.up), x.r;
      ReadUp(Snap(repr), c, s, root, sentinel);
      CtxInRepr(c, s, repr);
      ghost var c1 := InLeft(s.c, s.n, s.k, s.r, c);
      AtChildren(Snap(repr), c, s, root, sentinel);
      w := w0;
      Paint(w.left, Black, c1, s.l);
      Paint(w, Red, c, Fork(s.c, s.l.(c := Black), s.n, s.k, s.r));
      RotateRight(w, c, Fork(Red, s.l.(c := Black), s.n, s.k, s.r));
      ReadUp(Snap(repr), NephewedLeft(x), t, root, sentinel);
      w := temp.parent.right;
    }

    /** Red outer nephew: recolour and rotate once more. */
    method LiftLeft(temp: Node, w: Node, ghost x: Ctx, ghost t: Shape)
      requires Mending(x, t) && temp == Ref(t, sentinel) && x.InLeft? && x.r.Fork? && x.r.c.Black? && w == x.r.n
               && !IsBlack(x.r.r) && IsBlack(t)
      modifies this`root, this`shape, repr`left, repr`right, repr`parent, repr`color
      ensures Mending(Top, shape)
      ensures Holdings(shape) == old(Holdings(shape))
    {
      hide Holdings, View, Linked, LinkedCtx, Nodes, Distinct, Inorder, RedBlack, CtxRedBlack, BlackHeight, MendFits;
      FinalLeftFits(x, t);
      ghost var c, s := InRight(x.c, t, x.n, x.k, x.up), x.r;
      ReadUp(Snap(repr), x, t, root, sentinel);
      ReadUp(Snap(repr), c, s, root, sentinel);
      CtxInRepr(c, s, repr);
      AtChildren(Snap(repr), c, s, root, sentinel);
      Paint(w, temp.parent.color, c, s);
      ghost var s1 := s.(c := x.c);
      Paint(temp.parent, Black, x.up, Fork(x.c, t, x.n, x.k, s1));
      ghost var c2 := InRight(x.c, s.l, s.n, s.k, InRight(Black, t, x.n, x.k, x.up));
      Paint(w.right, Black, c2, s.r);
      RotateLeft(temp.parent, x.up, Fork(Black, t, x.n, x.k, Fork(x.c, s.l, s.n, s.k, s.r.(c := Black))));
    }


    /** One turn of the fix-up loop when the short subtree is a right child. */
    method MendStepRight(temp: Node, ghost x: Ctx, ghost t: Shape) returns (next: Node, ghost x': Ctx, ghost t': Shape)
      requires Mending(x, t) && temp == Ref(t, sentinel) && x.InRight? && IsBlack(t)
      modifies this`root, this`shape, repr`left, repr`right, repr`parent, repr`color
      ensures Mending(x', t') && next == Ref(t', sentinel) && MendMeasure(x', t') < MendMeasure(x, t)
      ensures Holdings(shape) == old(Holdings(shape))
    {
      hide Holdings, View, Linked, LinkedCtx, Nodes, Distinct, Inorder, RedBlack, CtxRedBlack, BlackHeight, MendFits;
      SiblingReal(x, t);
      ReadUp(Snap(repr), x, t, root, sentinel);
      var w := temp.parent.left;
      ghost var x1 := x;
      if w.color == Red {
        w := SinkRight(temp, x, t);
        x1 := SunkRight(x);
      }
      next, x', t' := SettleRight(temp, w, x1, t);
    }

    /** Black sibling: with black children it turns red, otherwise this is the last turn. */
    method SettleRight(temp: Node, w: Node, ghost x: Ctx,
                       ghost t: Shape) returns (next: Node, ghost x': Ctx, ghost t': Shape)
      requires Mending(x, t) && temp == Ref(t, sentinel) && x.InRight? && IsBlack(t) && x.l.Fork? && x.l.c.Black?
               && w == x.l.n
      modifies this`root, this`shape, repr`left, repr`right, repr`parent, repr`color
      ensures Mending(x', t') && next == Ref(t', sentinel) && (x'.Top? || (x' == x.up && t'.Fork? && t'.c == x.c))
      ensures Holdings(shape) == old(Holdings(shape))
    {
      hide Holdings, View, Linked, LinkedCtx, Nodes, Distinct, Inorder, RedBlack, CtxRedBlack, BlackHeight, MendFits;
      ReadUp(Snap(repr), x, t, root, sentinel);
      ReadUp(Snap(repr), InLeft(x.c, x.n, x.k, t, x.up), x.l, root, sentinel);
      AtChildren(Snap(repr), InLeft(x.c, x.n, x.k, t, x.up), x.l, root, sentinel);
      if w.left.color == Black && w.right.color == Black {
        Paint(w, Red, InLeft(x.c, x.n, x.k, t, x.up), x.l);
        next, x', t' := temp.parent, x.up, PaledRight(x, t);
        PaledRightFits(x, t);
      } else {
        next, x', t' := FinishRight(temp, w, x, t);
      }
    }

    /** Red sibling. */
    method SinkRight(temp: Node, ghost x: Ctx, ghost t: Shape) returns (w: Node)
      requires Mending(x, t) && temp == Ref(t, sentinel) && x.InRight? && x.l.Fork? && x.l.c.Red? && IsBlack(t)
      modifies this`root, this`shape, repr`left, repr`right, repr`parent, repr`color
      ensures Mending(SunkRight(x), t) && SunkRight(x).l.Fork? && w == SunkRight(x).l.n && SunkRight(x).l.c.Black?
      ensures Holdings(shape) == old(Holdings(shape))
    {
      hide Holdings, View, Linked, LinkedCtx, Nodes, Distinct, Inorder, RedBlack, CtxRedBlack, BlackHeight, MendFits;
      SunkRightFits(x, t);
      ReadUp(Snap(repr), x, t, root, sentinel);
      CtxInRepr(x, t, repr);
      CtxInRepr(InLeft(x.c, x.n, x.k, t, x.up), x.l, repr);
      w := temp.parent.left;
      Paint(w, Black, InLeft(x.c, x.n, x.k, t, x.up), x.l);
      Paint(temp.parent, Red, x.up, Fork(x.c, x.l.(c := Black), x.n, x.k, t));
      RotateRight(temp.parent, x.up, Fork(Red, x.l.(c := Black), x.n, x.k, t));
      assert shape == Fill(SunkRight(x), t);
      ReadUp(Snap(repr), SunkRight(x), t, root, sentinel);
      w := temp.parent.left;
    }

    /** Black sibling with a red child: the loop's last turn. */
    method FinishRight(temp: Node, w0: Node, ghost x: Ctx,
                       ghost t: Shape) returns (next: Node, ghost x': Ctx, ghost t': Shape)
      requires Mending(x, t) && temp == Ref(t, sentinel) && x.InRight? && x.l.Fork? && x.l.c.Black? && w0 == x.l.n
               && IsBlack(t)
      requires !(IsBlack(x.l.l) && IsBlack(x.l.r))
      modifies this`root, this`shape, repr`left, repr`right, repr`parent, repr`color
      ensures Mending(x', t') && next == Ref(t', sentinel) && x'.Top?
      ensures Holdings(shape) == old(Holdings(shape))
    {
      hide Holdings, View, Linked, LinkedCtx, Nodes, Distinct, Inorder, RedBlack, CtxRedBlack, BlackHeight, MendFits;
      var w := w0;
      ghost var x1 := x;
      ReadUp(Snap(repr), InLeft(x.c, x.n, x.k, t, x.up), x.l, root, sentinel);
      AtChildren(Snap(repr), InLeft(x.c, x.n, x.k, t, x.up), x.l, root, sentinel);
      if w.left.color == Black {
        w := TurnRightNephew(temp, w, x, t);
        x1 := NephewedRight(x);
      }
      LiftRight(temp, w, x1, t);
      next, x', t' := root, Top, shape;
      ReadUp(Snap(repr), x', t', root, sentinel);
    }

    /** Red inner nephew only: a rotation puts it where the sibling was. */
    method TurnRightNephew(temp: Node, w0: Node, ghost x: Ctx, ghost t: Shape) returns (w: Node)
      requires Mending(x, t) && temp == Ref(t, sentinel) && x.InRight? && x.l.Fork? && x.l.c.Black? && w0 == x.l.n
      requires !IsBlack(x.l.r) && IsBlack(x.l.l)
      modifies this`root, this`shape, repr`left, repr`right, repr`parent, repr`color
      ensures Mending(NephewedRight(x), t) && w == NephewedRight(x).l.n
      ensures Holdings(shape) == old(Holdings(shape))
    {
      hide Holdings, View, Linked, LinkedCtx, Nodes, Distinct, Inorder, RedBlack, CtxRedBlack, BlackHeight, MendFits;
      NephewedRightFits(x, t);
      ghost var c, s := InLeft(x.c, x.n, x.k, t, x.up), x.l;
      ReadUp(Snap(repr), c, s, root, sentinel);
      CtxInRepr(c, s, repr);
      ghost var c1 := InRight(s.c, s.l, s.n, s.k, c);
      AtChildren(Snap(repr), c, s, root, sentinel);
      w := w0;
      Paint(w.right, Black, c1, s.r);
      Paint(w, Red, c, Fork(s.c, s.l, s.n, s.k, s.r.(c := Black)));
      RotateLeft(w, c, Fork(Red, s.l, s.n, s.k, s.r.(c := Black)));
      ReadUp(Snap(repr), NephewedRight(x), t, root, sentinel);
      w := temp.parent.left;
    }

    /** Red outer nephew: recolour and rotate once more. */
    method LiftRight(temp: Node, w: Node, ghost x: Ctx, ghost t: Shape)
      requires Mending(x, t) && temp == Ref(t, sentinel) && x.InRight? && x.l.Fork? && x.l.c.Black? && w == x.l.n
               && !IsBlack(x.l.l) && IsBlack(t)
      modifies this`root, this`shape, repr`left, repr`right, repr`parent, repr`color
      ensures Mending(Top, shape)
      ensures Holdings(shape) == old(Holdings(shape))
    {
      hide Holdings, View, Linked, LinkedCtx, Nodes, Distinct, Inorder, RedBlack, CtxRedBlack, BlackHeight, MendFits;
      FinalRightFits(x, t);
      ghost var c, s := InLeft(x.c, x.n, x.k, t, x.up), x.l;
      ReadUp(Snap(repr), x, t, root, sentinel);
      ReadUp(Snap(repr), c, s, root, sentinel);
      CtxInRepr(c, s, repr);
      AtChildren(Snap(repr), c, s, root, sentinel);
      Paint(w, temp.parent.color, c, s);
      ghost var s1 := s.(c := x.c);
      Paint(temp.parent, Black, x.up, Fork(x.c, s1, x.n, x.k, t));
      ghost var c2 := InLeft(x.c, s.n, s.k, s.r, InLeft(Black, x.n, x.k, t, x.up));
      Paint(w.left, Black, c2, s.l);
      RotateRight(temp.parent, x.up, Fork(Black, Fork(x.c, s.l.(c := Black), s.n, s.k, s.r), x.n, x.k, t));
    }

    /** gfs_rbtree_min. */
    method Min(start: Node, ghost w: Ctx, ghost t: Shape) returns (n: Node, ghost z: Ctx, ghost sub: Shape)
      requires Good() && shape == Fill(w, t) && t.Fork? && start == t.n
      ensures t == Fill(z, sub) && LeftSpine(z) && sub.Fork? && sub.l.Leaf? && n == sub.n
    {
      hide View, Linked, LinkedCtx, Nodes, Distinct;
      n, z, sub := start, Top, t;
      AtLeftChild(Snap(repr), w, z, sub, root, sentinel);
      while n.left != sentinel
        invariant t == Fill(z, sub) && LeftSpine(z) && sub.Fork? && n == sub.n && n in repr
        invariant n.left == Ref(sub.l, sentinel) && (n.left == sentinel <==> sub.l.Leaf?)
        decreases sub
      {
        n := n.left;
        z, sub := InLeft(sub.c, sub.n, sub.k, sub.r, z), sub.l;
        AtLeftChild(Snap(repr), w, z, sub, root, sentinel);
      }
    }

    /** The parent's link to `subst` skips it. */
    method Unlink(subst: Node, temp: Node, ghost z: Ctx)
      requires !z.Top? && z.n in repr && subst.parent == z.n && (z.n.left == subst <==> z.InLeft?)
      modifies repr`left, repr`right
      ensures Snap(repr) == Rehang(old(Snap(repr)), z, temp)
    {
      if subst == subst.parent.left {
        subst.parent.left := temp;
      } else {
        subst.parent.right := temp;
      }
    }

    /** The fields of `node` but its key go to `subst`. */
    method CopyFields(node: Node, subst: Node)
      requires {node, subst} <= repr && node != subst
      modifies subst`left, subst`right, subst`parent, subst`color
      ensures Snap(repr) == Copied(old(Snap(repr)), node, subst)
    {
      hide WithLeft, WithRight, WithParent, WithColor;
      SetLeft(subst, node.left);
      SetRight(subst, node.right);
      SetParent(subst, node.parent);
      SetColor(subst, node.color);
    }

    /** What linked to `node` links to `subst`. */
    method Adopt(node: Node, subst: Node, ghost x: Ctx)
      requires {sentinel, subst} <= repr && (x.Top? <==> node == root) && (!x.Top? ==> x.n != subst)
      requires !x.Top? ==> node.parent == x.n && x.n in repr && (x.n.left == node <==> x.InLeft?)
      requires subst.left != null && subst.right != null && subst.left in repr && subst.right in repr
      modifies this`root, repr`left, repr`right, repr`parent
      ensures Snap(repr) == Adopted(old(Snap(repr)), x, subst, old(subst.left), old(subst.right), sentinel)
      ensures root == if x.Top? then subst else old(root)
    {
      hide WithParent;
      ghost var m := Snap(repr);
      Replace(node, subst, x);
      assert Snap(repr)[subst] == m[subst];
      if subst.left != sentinel {
        SetParent(subst.left, subst);
      }
      if subst.right != sentinel {
        SetParent(subst.right, subst);
      }
    }

    /** The successor `subst`, already skipped, takes the place of `node`. */
    method MoveIn(node: Node, subst: Node, temp: Node, ghost m: Store, ghost x: Ctx, ghost t: Shape, ghost zr: Ctx,
                  ghost sub: Shape)
      requires View(m, Top, Fill(x, t), root, sentinel) && Successor(t, zr, sub) && m.Keys == repr && sentinel in repr
      requires node == t.n && subst == sub.n && temp == Ref(sub.r, sentinel)
      requires Snap(repr) == Rehang(m, Inner(x, t, node, t.k, zr), temp)
      modifies this`root, repr`left, repr`right, repr`parent, repr`color
      ensures Snap(repr) == Moved(m, x, Inner(x, t, node, t.k, zr), node, subst, temp, Ref(t.l, sentinel),
                                  Ref(Fill(zr, sub.r), sentinel), sentinel)
      ensures root == if x.Top? then subst else old(root)
    {
      ghost var z := Inner(x, t, node, t.k, zr);
      hide View, Successor, Inner, Adopted, WithParent;
      AtSuccessor(m, x, t, zr, sub, root, sentinel);
      MovedReads(m, x, t, zr, sub, root, sentinel);
      MovedReadsUp(m, x, t, zr, sub, root, sentinel);
      assert Snap(repr)[subst].parent == z.n;
      if subst.parent == node {
        SetParent(temp, subst);
      } else {
        SetParent(temp, subst.parent);
      }
      ghost var m2 := Skipped(m, z, node, subst, temp);
      assert Snap(repr) == m2;
      hide Rehang, Skipped;
      CopyFields(node, subst);
      CopiedCell(m2, node, subst);
      Adopt(node, subst, x);
    }

    /** The removed node loses its links and its key, and leaves the tree's footprint. */
    method Clear(node: Node)
      requires Good() && node in repr && node !in Nodes(shape) && node != sentinel
      modifies node`left, node`right, node`parent, node`key, this`repr
      ensures Good() && repr == old(repr) - {node} && sentinel.parent == old(sentinel.parent)
    {
      hide View, Nodes;
      ghost var m := Snap(repr);
      node.left := null;
      node.right := null;
      node.parent := null;
      node.key := 0;
      repr := repr - {node};
      ViewKept(m, Snap(repr), shape, root, sentinel);
    }

    /** The root has at most one child, which becomes the root, black. */
    method DropRoot(node: Node, temp: Node, ghost t: Shape,
                    ghost u: Shape) returns (ghost before: seq<Entry>, ghost after: seq<Entry>)
      requires Valid() && shape == t && OneChild(t, u) && node == t.n && temp == Ref(u, sentinel)
      modifies this`root, this`shape, this`repr, repr`color, node`left, node`right, node`parent, node`key
      ensures Valid() && repr == old(repr) - {node} && Nodes(shape) == old(Nodes(shape)) - {node}
      ensures old(Inorder(shape)) == before + [Entry(node, old(node.key))] + after && Inorder(shape) == before + after
    {
      hide View, Linked, LinkedCtx, Distinct, Nodes, RedBlack, BlackHeight, CtxRedBlack, Sorted, Inorder, Handed;
      AtChildren(Snap(repr), Top, t, root, sentinel);
      HandedSelf(Top, t, u);
      before, after := OneContents(Top, t, u);
      assert Fill(Top, t) == t && Fill(Top, u) == u;
      DroppedView(Snap(repr), t, u, root, sentinel);
      OneChildReads(Snap(repr), Top, t, u, root, sentinel);
      UnhookNodes(Top, t, u);
      root := temp;
      shape := u;
      MendedFits(Top, u);
      SortedWithout(before, Entry(node, t.k), after);
      Blacken(temp, Top, u);
      Clear(node);
    }

    /** A node with at most one child, already skipped: the child points to the parent. */
    method PointUp(subst: Node, temp: Node, ghost m: Store, ghost x: Ctx, ghost t: Shape, ghost u: Shape)
      requires View(m, Top, Fill(x, t), root, sentinel) && OneChild(t, u) && !x.Top? && m.Keys == repr
               && sentinel in repr
      requires subst == t.n && temp == Ref(u, sentinel) && Snap(repr) == Rehang(m, x, temp)
               && Nodes(Fill(x, t)) <= repr && sentinel.color == Black
      modifies this`shape, repr`parent
      ensures Good() && shape == Fill(x, u) && (u.Leaf? ==> sentinel.parent == x.n)
      ensures Nodes(shape) == Nodes(Fill(x, t)) - {t.n}
    {
      hide View, Linked, LinkedCtx, Distinct, Nodes, Fill, WithParent;
      ReadUp(m, x, t, root, sentinel);
      OneChildReads(m, x, t, u, root, sentinel);
      assert Snap(repr)[subst].parent == x.n;
      SetParent(temp, subst.parent);
      shape := Fill(x, u);
      assert View(m, x, t, root, sentinel) by { ViewFill(m, x, t, root, sentinel); }
      UnhookedView(m, Snap(repr), x, t, u, root, sentinel);
      ViewFill(Snap(repr), x, u, root, sentinel);
      UnhookNodes(x, t, u);
    }

    /** `node` itself is hooked out: it has at most one child, and a parent. */
    method TakeSelf(node: Node, temp: Node, ghost x: Ctx, ghost t: Shape, ghost u: Shape)
      returns (ghost before: seq<Entry>, ghost after: seq<Entry>)
      requires Valid() && shape == Fill(x, t) && OneChild(t, u) && !x.Top? && node == t.n && temp == Ref(u, sentinel)
      modifies this`shape, repr`left, repr`right, repr`parent
      ensures Good() && shape == Fill(x, u) && !x.Top? && Handed(x, u, t.c.Red?) && (u.Leaf? ==> sentinel.parent == x.n)
      ensures Nodes(shape) == old(Nodes(shape)) - {node}
      ensures old(Inorder(shape)) == before + [Entry(node, t.k)] + after && Inorder(shape) == before + after
    {
      hide View, Linked, LinkedCtx, Distinct, Nodes, RedBlack, BlackHeight, CtxRedBlack, Sorted, Inorder, Handed,
           Rehang, Moved, Inner;
      ghost var m := Snap(repr);
      ReadUp(m, x, t, root, sentinel);
      Unlink(node, temp, x);
      PointUp(node, temp, m, x, t, u);
      before, after := OneContents(x, t, u);
      HandedSelf(x, t, u);
    }

    /** The assignments when `subst`, the successor of `node`, is hooked out and takes its place. */
    method Relink(node: Node, subst: Node, temp: Node, ghost x: Ctx, ghost t: Shape, ghost zr: Ctx, ghost sub: Shape)
      requires View(Snap(repr), Top, Fill(x, t), root, sentinel) && Successor(t, zr, sub) && sentinel in repr
      requires node == t.n && subst == sub.n && temp == Ref(sub.r, sentinel)
      modifies this`root, repr`left, repr`right, repr`parent, repr`color
      ensures Snap(repr) == Moved(old(Snap(repr)), x, Inner(x, t, node, t.k, zr), node, subst, temp,
                                  Ref(t.l, sentinel), Ref(Fill(zr, sub.r), sentinel), sentinel)
      ensures root == if x.Top? then subst else old(root)
    {
      ghost var z := Inner(x, t, node, t.k, zr);
      hide View, Successor, Inner, Moved, Rehang;
      ghost var m := Snap(repr);
      AtSuccessor(m, x, t, zr, sub, root, sentinel);
      Unlink(subst, temp, z);
      MoveIn(node, subst, temp, m, x, t, zr, sub);
    }

    /** The successor of `node` is hooked out and takes its place. */
    method TakeSuccessor(node: Node, subst: Node, temp: Node, ghost x: Ctx, ghost t: Shape, ghost zr: Ctx,
                         ghost sub: Shape, ghost u: Shape)
      returns (ghost before: seq<Entry>, ghost after: seq<Entry>, ghost z: Ctx)
      requires Valid() && shape == Fill(x, t) && t.Fork? && node == t.n && temp == Ref(u, sentinel)
      requires Successor(t, zr, sub) && subst == sub.n && u == sub.r
      modifies this`root, this`shape, repr`left, repr`right, repr`parent, repr`color
      ensures Good() && shape == Fill(z, u) && !z.Top? && Handed(z, u, sub.c.Red?)
              && (u.Leaf? ==> sentinel.parent == z.n)
      ensures Nodes(shape) == old(Nodes(shape)) - {node}
      ensures old(Inorder(shape)) == before + [Entry(node, t.k)] + after && Inorder(shape) == before + after
    {
      hide View, Linked, LinkedCtx, Distinct, Nodes, RedBlack, BlackHeight, CtxRedBlack, Sorted, Inorder, Handed,
           Moved, Inner, Fill;
      ghost var m := Snap(repr);
      z := Inner(x, t, subst, sub.k, zr);
      before, after := SuccessorTaken(m, x, t, zr, sub, root, sentinel);
      hide Successor;
      Relink(node, subst, temp, x, t, zr, sub);
      assert Snap(repr)[sentinel].color == m[sentinel].color && Snap(repr)[sentinel].parent == sentinel.parent;
      hide Snap;
      shape := Fill(z, u);
    }

    /** Unhooks `subst`, puts it in the place of `node` if that is another node, and clears `node`. */
    method TakeOut(node: Node, subst: Node, temp: Node, ghost x: Ctx, ghost t: Shape, ghost zr: Ctx,
                   ghost sub: Shape, ghost u: Shape)
      returns (ghost before: seq<Entry>, ghost after: seq<Entry>, ghost z: Ctx)
      requires Valid() && shape == Fill(x, t) && t.Fork? && node == t.n && temp == Ref(u, sentinel)
      requires if subst == node then OneChild(t, u) && !x.Top? && sub == t
                                     else Successor(t, zr, sub) && subst == sub.n && u == sub.r
      modifies this`root, this`shape, this`repr, repr`left, repr`right, repr`parent, repr`color, node`key
      ensures Good() && shape == Fill(z, u) && Handed(z, u, sub.c.Red?) && Sorted(Inorder(shape))
              && (u.Leaf? && !z.Top? ==> sentinel.parent == z.n)
      ensures repr == old(repr) - {node} && Nodes(shape) == old(Nodes(shape)) - {node}
      ensures old(Inorder(shape)) == before + [Entry(node, old(node.key))] + after && Inorder(shape) == before + after
    {
      hide View, Linked, LinkedCtx, Distinct, Nodes, RedBlack, BlackHeight, CtxRedBlack, Sorted, Inorder, Handed,
           Rehang, Moved, Inner;
      ReadUp(Snap(repr), x, t, root, sentinel);
      if subst == node {
        before, after := TakeSelf(node, temp, x, t, u);
        z := x;
      } else {
        before, after, z := TakeSuccessor(node, subst, temp, x, t, zr, sub, u);
      }
      SortedWithout(before, Entry(node, t.k), after);
      Clear(node);
    }

    /** gfs_rbtree_delete: takes out exactly the given node. */
    method Delete(node: Node) returns (ghost before: seq<Entry>, ghost after: seq<Entry>)
      requires Valid() && node in Nodes(shape)
      modifies this`root, this`shape, this`repr, repr`left, repr`right, repr`parent, repr`color, node`key
      ensures Valid() && repr == old(repr) - {node} && Nodes(shape) == old(Nodes(shape)) - {node}
      ensures old(Inorder(shape)) == before + [Entry(node, old(node.key))] + after && Inorder(shape) == before + after
    {
      hide View, Linked, LinkedCtx, Distinct, Nodes, RedBlack, BlackHeight, CtxRedBlack, Sorted, Inorder, Handed;
      ghost var x, t := Locate(shape, node, Top);
      ghost var zr, sub, u := Top, t, t;
      var temp, subst;
      AtChildren(Snap(repr), x, t, root, sentinel);
      ReadUp(Snap(repr), x, t, root, sentinel);
      if node.left == sentinel {
        temp, subst := node.right, node;
        u := t.r;
      } else if node.right == sentinel {
        temp, subst := node.left, node;
        u := t.l;
      } else {
        ghost var w := InRight(t.c, t.l, t.n, t.k, x);
        subst, zr, sub := Min(node.right, w, t.r);
        AtSuccessor(Snap(repr), x, t, zr, sub, root, sentinel);
        assert subst.left == sentinel;  // so the test for a left child always falls through
        temp := subst.right;
        u := sub.r;
      }
      if subst == root {
        before, after := DropRoot(node, temp, t, u);
        return;
      }
      var red := subst.color == Red;
      ghost var z;
      before, after, z := TakeOut(node, subst, temp, x, t, zr, sub, u);
      if red {
        RedHanded(z, u);
        return;
      }
      BlackHanded(z, u);
      Mend(temp, z, u);
    }
  }

  lemma {:induction false} EntryNode(t: Shape, e: Entry)
    requires e in Inorder(t)
    ensures e.n in Nodes(t)
  {
    if t.Fork? && e != Entry(t.n, t.k) {
      if e in Inorder(t.l) {
        EntryNode(t.l, e);
      } else {
        assert e in Inorder(t.r);
        EntryNode(t.r, e);
      }
    }
  }

  lemma {:induction false} EntriesApart(t: Shape, i: nat, j: nat)
    requires Distinct(t) && i < j < |Inorder(t)|
    ensures Inorder(t)[i].n != Inorder(t)[j].n
  {
    var l, r, s := Inorder(t.l), Inorder(t.r), Inorder(t);
    assert s == l + [Entry(t.n, t.k)] + r;
    assert i < |l| ==> s[i] == l[i] && s[i] in l;
    assert j < |l| ==> s[j] == l[j];
    assert j > |l| ==> s[j] == r[j - |l| - 1] && s[j] in r;
    assert i > |l| ==> s[i] == r[i - |l| - 1];
    if i < |l| {
      EntryNode(t.l, s[i]);
    }
    if j > |l| {
      EntryNode(t.r, s[j]);
    }
    if j < |l| {
      EntriesApart(t.l, i, j);
    } else if i > |l| {
      EntriesApart(t.r, i - |l| - 1, j - |l| - 1);
    }
  }

  /** A node stores the key of its entry. */
  lemma {:induction false} EntryKey(m: Store, t: Shape, s: Node, e: Entry)
    requires Linked(m, t, s) && e in Inorder(t)
    ensures e.n in m && m[e.n].key == e.k
  {
    if e != Entry(t.n, t.k) {
      if e in Inorder(t.l) {
        EntryKey(m, t.l, s, e);
      } else {
        assert e in Inorder(t.r);
        EntryKey(m, t.r, s, e);
      }
    }
  }

  ghost predicate HasKey(s: seq<Entry>, key: int)
  {
    exists i :: 0 <= i < |s| && s[i].k == key
  }

  /** The key is in no entry outside the hole. */
  ghost predicate Excludes(x: Ctx, key: int)
  {
    !HasKey(Before(x), key) && !HasKey(After(x), key)
  }

  lemma NothingExcluded(key: int)
    ensures Excludes(Top, key)
  {
  }

  lemma Narrowed(x: Ctx, t: Shape, key: int)
    requires Sorted(Inorder(Fill(x, t))) && t.Fork? && Excludes(x, key) && key != t.k
    ensures Excludes(if key < t.k then InLeft(t.c, t.n, t.k, t.r, x) else InRight(t.c, t.l, t.n, t.k, x), key)
  {
    SortedAround(x, t);
    assert forall i :: 0 <= i < |Inorder(t.l)| ==> Inorder(t.l)[i] in Inorder(t.l);
    assert forall i :: 0 <= i < |Inorder(t.r)| ==> Inorder(t.r)[i] in Inorder(t.r);
  }

  lemma Present(x: Ctx, t: Shape)
    requires t.Fork?
    ensures Entry(t.n, t.k) in Inorder(Fill(x, t)) && HasKey(Inorder(Fill(x, t)), t.k)
  {
    FillInorder(x, t);
    var s := Inorder(Fill(x, t));
    assert s[|Before(x)| + |Inorder(t.l)|] == Entry(t.n, t.k);
  }

  lemma Absent(x: Ctx, key: int)
    requires Excludes(x, key)
    ensures !HasKey(Inorder(Fill(x, Leaf)), key)
  {
    FillInorder(x, Leaf);
    var s, a, b := Inorder(Fill(x, Leaf)), Before(x), After(x);
    assert s == a + b;
    forall i | 0 <= i < |s|
      ensures s[i].k != key
    {
      assert s[i] == if i < |a| then a[i] else b[i - |a|];
    }
  }

  lemma AtLeftChild(m: Store, w: Ctx, z: Ctx, sub: Shape, root: Node, s: Node)
    requires View(m, Top, Fill(w, Fill(z, sub)), root, s) && sub.Fork?
    ensures sub.n in m && m[sub.n].left == Ref(sub.l, s) && (m[sub.n].left == s <==> sub.l.Leaf?)
  {
    FillAppend(z, w, sub);
    AtChildren(m, Append(z, w), sub, root, s);
  }

  /** What the fields of a node say about its children. */
  lemma AtChildren(m: Store, x: Ctx, t: Shape, root: Node, s: Node)
    requires View(m, Top, Fill(x, t), root, s) && t.Fork?
    ensures t.n in m && t.n != s && m[t.n] == Cell(t.k, Ref(t.l, s), Ref(t.r, s), m[t.n].parent, t.c)
    ensures (Ref(t.l, s) == s <==> t.l.Leaf?) && (Ref(t.r, s) == s <==> t.r.Leaf?)
    ensures t.l.Fork? ==> t.l.n in m && m[t.l.n].color == t.l.c
    ensures t.r.Fork? ==> t.r.n in m && m[t.r.n].color == t.r.c
  {
    ReadUp(m, x, t, root, s);
    ReadUp(m, InLeft(t.c, t.n, t.k, t.r, x), t.l, root, s);
    ReadUp(m, InRight(t.c, t.l, t.n, t.k, x), t.r, root, s);
  }

  /** The short subtree is a left child exactly when its parent's left link is to it, even where
      the sentinel stands for it. */
  lemma SiblingSides(m: Store, x: Ctx, t: Shape, root: Node, s: Node)
    requires View(m, Top, Fill(x, t), root, s) && !x.Top? && Sibling(x).Fork?
    ensures x.n in m && (m[x.n].left == Ref(t, s) <==> x.InLeft?)
  {
    ReadUp(m, x, t, root, s);
    FillTop(x, t);
    ViewFill(m, x, t, root, s);
  }

  lemma RedParent(x: Ctx, t: Shape)
    requires CtxRedBlack(x, BlackHeight(t)) && !x.Top? && x.c.Red?
    ensures !x.up.Top? && x.up.c.Black?
  {
  }

  /** Red parent, red uncle: both turn black, the grandparent red, and the trouble moves up. */
  lemma RecoloredFits(x: Ctx, t: Shape, f: Shape, g: Shape)
    requires t.Fork? && t.c.Red? && RedBlack(t) && CtxRedBlack(x, BlackHeight(t)) && !x.Top? && x.c.Red?
    requires Sibling(x.up).Fork? && Sibling(x.up).c.Red?
    requires f == Up(x, t) && f.Fork?
    requires var p := f.(c := Black); var u := Sibling(x.up).(c := Black);
             g == if x.up.InLeft? then Fork(Red, p, x.up.n, x.up.k, u) else Fork(Red, u, x.up.n, x.up.k, p)
    ensures RedBlack(g) && CtxRedBlack(x.up.up, BlackHeight(g))
  {
    var p := f.(c := Black);
    assert RedBlack(p) && BlackHeight(p) == BlackHeight(t) + 1;
  }

  /** Red parent on the left, black uncle: after the rotations the parent's place is black. */
  lemma RaisedLeftFits(x: Ctx, t: Shape, x': Ctx, t': Shape)
    requires t.Fork? && t.c.Red? && RedBlack(t) && CtxRedBlack(x, BlackHeight(t)) && !x.Top? && x.c.Red? && x.up.InLeft?
    requires IsBlack(x.up.r)
    requires if x.InLeft? then t' == t && x' == InLeft(Black, x.n, x.k, Fork(Red, x.r, x.up.n, x.up.k, x.up.r), x.up.up)
             else t' == Fork(Red, x.l, x.n, x.k, t.l)
                  && x' == InLeft(Black, t.n, t.k, Fork(Red, t.r, x.up.n, x.up.k, x.up.r), x.up.up)
    ensures RedBlack(t') && CtxRedBlack(x', BlackHeight(t'))
  {
    assert RedBlack(x'.r) && BlackHeight(x'.r) == BlackHeight(t);
  }

  /** The mirror image. */
  lemma RaisedRightFits(x: Ctx, t: Shape, x': Ctx, t': Shape)
    requires t.Fork? && t.c.Red? && RedBlack(t) && CtxRedBlack(x, BlackHeight(t)) && !x.Top? && x.c.Red?
             && x.up.InRight?
    requires IsBlack(x.up.l)
    requires if x.InRight? then t' == t && x' == InRight(Black, Fork(Red, x.up.l, x.up.n, x.up.k, x.l), x.n, x.k,
                                                         x.up.up)
             else t' == Fork(Red, t.r, x.n, x.k, x.r)
                  && x' == InRight(Black, Fork(Red, x.up.l, x.up.n, x.up.k, t.l), t.n, t.k, x.up.up)
    ensures RedBlack(t') && CtxRedBlack(x', BlackHeight(t'))
  {
    assert RedBlack(x'.l) && BlackHeight(x'.l) == BlackHeight(t);
  }

  /** A red leaf in an empty place is what the fix-up starts from. */
  lemma InsertedFits(x: Ctx, n: Node, k: int)
    requires RedBlack(Fill(x, Leaf)) && IsBlack(Fill(x, Leaf))
    ensures var t := Fork(Red, Leaf, n, k, Leaf); RedBlack(t) && CtxRedBlack(x, BlackHeight(t))
  {
    HoleRedBlack(x, Leaf);
  }

  lemma SingleView(m: Store, n: Node, k: int, s: Node)
    requires n in m && n != s && m[n] == Cell(k, s, s, null, Black)
    ensures var t := Fork(Black, Leaf, n, k, Leaf);
            View(m, Top, t, n, s) && Nodes(t) == {n} && RedBlack(t) && Inorder(t) == [Entry(n, k)]
  {
    var t := Fork(Black, Leaf, n, k, Leaf);
    assert Linked(m, t.l, s) && Nodes(t.l) == {} && Inorder(t.l) == [] && Nodes(t) == {n};
  }

  lemma EmptyTree(m: Store, t: Shape, root: Node, s: Node)
    requires View(m, Top, t, root, s) && root == s
    ensures t == Leaf
  {
    ReadUp(m, Top, t, root, s);
  }

  lemma FillFork(x: Ctx, t: Shape)
    requires t.Fork? || !x.Top?
    ensures Fill(x, t).Fork?
    decreases x
  {
    if !x.Top? {
      FillFork(x.up, Up(x, t));
    }
  }

  lemma InsertedContents(x: Ctx, n: Node, k: int)
    requires PlaceFor(x, k) && Sorted(Inorder(Fill(x, Leaf)))
    ensures Inorder(Fill(x, Leaf)) == Before(x) + After(x)
    ensures Inorder(Fill(x, Fork(Red, Leaf, n, k, Leaf))) == Before(x) + [Entry(n, k)] + After(x)
    ensures Sorted(Inorder(Fill(x, Fork(Red, Leaf, n, k, Leaf))))
  {
    FillInorder(x, Leaf);
    FillInorder(x, Fork(Red, Leaf, n, k, Leaf));
    assert Inorder(Fill(x, Leaf)) == Before(x) + After(x);
    SortedInsert(Before(x), After(x), Entry(n, k));
  }

  lemma SortedInsert(a: seq<Entry>, b: seq<Entry>, e: Entry)
    requires Sorted(a + b) && (forall f :: f in a ==> f.k <= e.k) && (forall f :: f in b ==> e.k < f.k)
    ensures Sorted(a + [e] + b)
  {
    var s := a + [e] + b;
    var o := a + b;
    forall i, j | 0 <= i < j < |s|
      ensures s[i].k <= s[j].k
    {
      if i != |a| && j != |a| {
        assert s[i] == o[if i < |a| then i else i - 1] && s[j] == o[if j < |a| then j else j - 1];
      } else if i == |a| {
        assert s[j] in b;
      } else {
        assert s[i] in a;
      }
    }
  }

  lemma CtxInRepr(x: Ctx, t: Shape, repr: set<Node>)
    requires Nodes(Fill(x, t)) <= repr
    ensures CtxNodes(x) <= repr && Nodes(t) <= repr && (!x.Top? ==> x.n in CtxNodes(x))
  {
    FillNodes(x, t);
    if !x.Top? {
      RootInCtx(x, x.n);
    }
  }

  lemma PluggedNodes(x: Ctx, n: Node, k: int)
    ensures Nodes(Fill(x, Fork(Red, Leaf, n, k, Leaf))) == Nodes(Fill(x, Leaf)) + {n}
  {
    FillNodes(x, Leaf);
    FillNodes(x, Fork(Red, Leaf, n, k, Leaf));
  }
}
