/** Shapes of red-black trees: the abstract value of the linked tree, and contexts ("zippers")
    that say where a subtree hangs. */
module RbShape {
  import opened Sequences

  datatype Color = Red | Black

  /** An intrusive tree node. */
  class Node {
    var key: int
    var left: Node?
    var right: Node?
    var parent: Node?
    var color: Color

    constructor (key: int)
      ensures this.key == key && color == Black
    {
      this.key, color := key, Black;
      left, right, parent := null, null, null;
    }
  }

  datatype Shape = Leaf | Fork(c: Color, l: Shape, n: Node, k: int, r: Shape)

  /** A shape with a hole: the hole is the left or the right child of n. */
  datatype Ctx = Top | InLeft(c: Color, n: Node, k: int, r: Shape,
                              up: Ctx) | InRight(c: Color, l: Shape, n: Node, k: int, up: Ctx)

  ghost function Fill(x: Ctx, t: Shape): Shape
    decreases x
  {
    match x
    case Top => t
    case InLeft(c, n, k, r, up) => Fill(up, Fork(c, t, n, k, r))
    case InRight(c, l, n, k, up) => Fill(up, Fork(c, l, n, k, t))
  }

  ghost function Depth(x: Ctx): nat
  {
    if x.Top? then 0 else 1 + Depth(x.up)
  }

  ghost function Nodes(t: Shape): set<Node>
  {
    if t.Leaf? then {} else Nodes(t.l) + {t.n} + Nodes(t.r)
  }

  ghost function CtxNodes(x: Ctx): set<Node>
  {
    match x
    case Top => {}
    case InLeft(c, n, k, r, up) => {n} + Nodes(r) + CtxNodes(up)
    case InRight(c, l, n, k, up) => {n} + Nodes(l) + CtxNodes(up)
  }

  /** No node occurs twice. */
  ghost predicate Distinct(t: Shape)
  {
    t.Fork? ==>
      && t.n !in Nodes(t.l) && t.n !in Nodes(t.r) && Nodes(t.l) !! Nodes(t.r)
      && Distinct(t.l) && Distinct(t.r)
  }

  ghost predicate DistinctCtx(x: Ctx)
  {
    match x
    case Top => true
    case InLeft(c, n, k, r, up) =>
      n !in Nodes(r) && n !in CtxNodes(up) && Nodes(r) !! CtxNodes(up) && Distinct(r) && DistinctCtx(up)
    case InRight(c, l, n, k, up) =>
      n !in Nodes(l) && n !in CtxNodes(up) && Nodes(l) !! CtxNodes(up) && Distinct(l) && DistinctCtx(up)
  }

  lemma {:induction false} FillNodes(x: Ctx, t: Shape)
    ensures Nodes(Fill(x, t)) == CtxNodes(x) + Nodes(t)
    ensures Distinct(Fill(x, t)) <==> DistinctCtx(x) && Distinct(t) && CtxNodes(x) !! Nodes(t)
    decreases x
  {
    match x
    case Top =>
    case InLeft(c, n, k, r, up) => FillNodes(up, Fork(c, t, n, k, r));
    case InRight(c, l, n, k, up) => FillNodes(up, Fork(c, l, n, k, t));
  }

  // ---------- In-order sequences ----------

  datatype Entry = Entry(n: Node, k: int)

  ghost function Inorder(t: Shape): seq<Entry>
  {
    if t.Leaf? then [] else Inorder(t.l) + [Entry(t.n, t.k)] + Inorder(t.r)
  }

  ghost function Before(x: Ctx): seq<Entry>
  {
    match x
    case Top => []
    case InLeft(c, n, k, r, up) => Before(up)
    case InRight(c, l, n, k, up) => Before(up) + Inorder(l) + [Entry(n, k)]
  }

  ghost function After(x: Ctx): seq<Entry>
  {
    match x
    case Top => []
    case InLeft(c, n, k, r, up) => [Entry(n, k)] + Inorder(r) + After(up)
    case InRight(c, l, n, k, up) => After(up)
  }

  lemma {:induction false} FillInorder(x: Ctx, t: Shape)
    ensures Inorder(Fill(x, t)) == Before(x) + Inorder(t) + After(x)
    decreases x
  {
    match x
    case Top =>
    case InLeft(c, n, k, r, up) =>
      FillInorder(up, Fork(c, t, n, k, r));
      Regroup(Before(up), Inorder(t), [Entry(n, k)], Inorder(r), After(up));
    case InRight(c, l, n, k, up) =>
      FillInorder(up, Fork(c, l, n, k, t));
      Regroup(Before(up), Inorder(l), [Entry(n, k)], Inorder(t), After(up));
  }

  datatype Holding = Holding(entries: seq<Entry>, nodes: set<Node>)

  /** What a tree holds: its entries in order, and its nodes. */
  ghost function Holdings(t: Shape): Holding
  {
    Holding(Inorder(t), Nodes(t))
  }

  lemma Regroup<T>(a: seq<T>, b: seq<T>, c: seq<T>, d: seq<T>, e: seq<T>)
    ensures a + (b + c + d) + e == a + b + (c + d + e)
    ensures a + (b + c + d) + e == a + b + c + d + e
  {
  }

  /** What a subtree contributes is all that matters above it. */
  lemma SameContents(x: Ctx, t: Shape, t': Shape)
    requires Inorder(t) == Inorder(t') && Nodes(t) == Nodes(t')
    ensures Inorder(Fill(x, t)) == Inorder(Fill(x, t')) && Nodes(Fill(x, t)) == Nodes(Fill(x, t'))
  {
    FillInorder(x, t);
    FillInorder(x, t');
    FillNodes(x, t);
    FillNodes(x, t');
  }

  /** One step up: the subtree at the hole's parent. */
  ghost function Up(x: Ctx, t: Shape): (f: Shape)
    requires !x.Top?
    ensures f.Fork? && Fill(x, t) == Fill(x.up, f)
  {
    if x.InLeft? then Fork(x.c, t, x.n, x.k, x.r) else Fork(x.c, x.l, x.n, x.k, t)
  }

  /** Keys never decrease from left to right. */
  ghost predicate Sorted(s: seq<Entry>)
  {
    forall i, j :: 0 <= i < j < |s| ==> s[i].k <= s[j].k
  }

  /** Keys of a sorted tree around and inside the subtree at a hole. */
  lemma SortedAround(x: Ctx, t: Shape)
    requires Sorted(Inorder(Fill(x, t))) && t.Fork?
    ensures forall e :: e in Inorder(t.l) ==> e.k <= t.k
    ensures forall e :: e in Inorder(t.r) ==> t.k <= e.k
  {
    FillInorder(x, t);
    SortedMiddle(Before(x), Inorder(t.l), Entry(t.n, t.k), Inorder(t.r), After(x));
  }

  lemma SortedMiddle(a: seq<Entry>, l: seq<Entry>, e: Entry, r: seq<Entry>, b: seq<Entry>)
    requires Sorted(a + (l + [e] + r) + b)
    ensures forall f :: f in l ==> f.k <= e.k
    ensures forall f :: f in r ==> e.k <= f.k
  {
    var s, p := a + (l + [e] + r) + b, |a| + |l|;
    assert s[p] == e;
    assert forall i :: 0 <= i < |l| ==> s[|a| + i] == l[i];
    assert forall i :: 0 <= i < |r| ==> s[p + 1 + i] == r[i];
  }

  /** Every entry before the hole of x is at most k, every entry after it greater. */
  ghost predicate PlaceFor(x: Ctx, k: int)
  {
    && (forall e :: e in Before(x) ==> e.k <= k)
    && (forall e :: e in After(x) ==> k < e.k)
  }

  lemma StepDown(x: Ctx, t: Shape, k: int)
    requires Sorted(Inorder(Fill(x, t))) && t.Fork? && PlaceFor(x, k)
    ensures PlaceFor(if k < t.k then InLeft(t.c, t.n, t.k, t.r, x) else InRight(t.c, t.l, t.n, t.k, x), k)
  {
    SortedAround(x, t);
  }

  // ---------- The red-black conditions ----------

  ghost predicate IsBlack(t: Shape)
  {
    t.Leaf? || t.c.Black?
  }

  ghost function BlackHeight(t: Shape): nat
  {
    if t.Leaf? then 0 else BlackHeight(t.l) + (if t.c.Black? then 1 else 0)
  }

  /** No red node has a red child, and every path down meets as many black nodes. */
  ghost predicate RedBlack(t: Shape)
  {
    t.Fork? ==>
      && RedBlack(t.l) && RedBlack(t.r) && BlackHeight(t.l) == BlackHeight(t.r)
      && (t.c.Red? ==> IsBlack(t.l) && IsBlack(t.r))
  }

  /** The context of a red-black tree with a black root whose hole takes a subtree of black
      height h. Whether the hole's parent is red is for the subtree to mind. */
  ghost predicate CtxRedBlack(x: Ctx, h: nat)
  {
    match x
    case Top => true
    case InLeft(c, n, k, r, up) =>
      && RedBlack(r) && BlackHeight(r) == h && (c.Red? ==> IsBlack(r) && !up.Top? && up.c.Black?)
      && CtxRedBlack(up, if c.Black? then h + 1 else h) && (up.Top? ==> c.Black?)
    case InRight(c, l, n, k, up) =>
      && RedBlack(l) && BlackHeight(l) == h && (c.Red? ==> IsBlack(l) && !up.Top? && up.c.Black?)
      && CtxRedBlack(up, if c.Black? then h + 1 else h) && (up.Top? ==> c.Black?)
  }

  /** Filling the hole with a fitting subtree gives a red-black tree. */
  lemma {:induction false} FillRedBlack(x: Ctx, t: Shape)
    requires RedBlack(t) && CtxRedBlack(x, BlackHeight(t)) && (x.Top? || x.c.Red? ==> IsBlack(t))
    ensures RedBlack(Fill(x, t)) && IsBlack(Fill(x, t))
    decreases x
  {
    match x
    case Top =>
    case InLeft(c, n, k, r, up) => FillRedBlack(up, Fork(c, t, n, k, r));
    case InRight(c, l, n, k, up) => FillRedBlack(up, Fork(c, l, n, k, t));
  }

  /** Every hole in a red-black tree is one of the above. */
  lemma {:induction false} HoleRedBlack(x: Ctx, t: Shape)
    requires RedBlack(Fill(x, t)) && IsBlack(Fill(x, t))
    ensures RedBlack(t) && CtxRedBlack(x, BlackHeight(t)) && (x.Top? || x.c.Red? ==> IsBlack(t))
    decreases x
  {
    if !x.Top? {
      var f := if x.InLeft? then Fork(x.c, t, x.n, x.k, x.r) else Fork(x.c, x.l, x.n, x.k, t);
      assert Fill(x, t) == Fill(x.up, f);
      hide Fill;
      HoleRedBlack(x.up, f);
      assert RedBlack(t) && BlackHeight(f.l) == BlackHeight(f.r)
          && BlackHeight(f) == BlackHeight(t) + if x.c.Black? then 1 else 0;
    }
  }

  // ---------- Height ----------

  ghost function Height(t: Shape): nat
  {
    if t.Leaf? then 0 else 1 + if Height(t.l) > Height(t.r) then Height(t.l) else Height(t.r)
  }

  /** A red-black tree has at least 2^h - 1 nodes for black height h, and height at most 2h (one
      more under a red root). */
  lemma {:induction false} HeightBound(t: Shape)
    requires RedBlack(t)
    ensures Pow2(BlackHeight(t)) <= |Inorder(t)| + 1
    ensures Height(t) <= 2 * BlackHeight(t) + if IsBlack(t) then 0 else 1
  {
    if t.Fork? {
      HeightBound(t.l);
      HeightBound(t.r);
    }
  }

  lemma {:induction false} Pow2Double(h: nat)
    ensures Pow2(2 * h) == Pow2(h) * Pow2(h)
  {
    if h > 0 {
      Pow2Double(h - 1);
      assert Pow2(2 * h) == 2 * (2 * Pow2(2 * h - 2));
      var p := Pow2(h - 1);
      assert (2 * p) * (2 * p) == 4 * (p * p);
    }
  }

  lemma {:induction false} Pow2Monotone(a: nat, b: nat)
    requires a <= b
    ensures Pow2(a) <= Pow2(b)
    decreases b - a
  {
    if a < b {
      Pow2Monotone(a + 1, b);
    }
  }

  /** 2^height <= (size + 1)^2, that is, height <= 2 * log2(size + 1). */
  lemma HeightLog(t: Shape)
    requires RedBlack(t) && IsBlack(t)
    ensures Pow2(Height(t)) <= (|Inorder(t)| + 1) * (|Inorder(t)| + 1)
  {
    HeightBound(t);
    var h := BlackHeight(t);
    Pow2Monotone(Height(t), 2 * h);
    Pow2Double(h);
    Squares(Pow2(h), |Inorder(t)| + 1);
  }

  lemma Squares(a: nat, b: nat)
    requires a <= b
    ensures a * a <= b * b
  {
    assert a * a <= a * b;
    assert a * b <= b * b;
  }
}
