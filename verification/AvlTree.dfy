/**
 The AVL tree of ytlib/container/binary_tree.hpp with its father links and cached heights. Ghost
 trees and one-hole contexts say which node sits where; the methods of Node are proved against them.
 */
module AvlTree {
  // ---------- trees ----------

  /**
   A tree of nodes. A Stray is a node that hangs from its place with a stale cached height and links
   of its own that nothing is known about: what a mis-sided splice leaves behind.
   */
  datatype Tree = Nil | T(l: Tree, n: Node, r: Tree) | Stray(n: Node, h: nat)

  function Max(a: int, b: int): int {
    if a >= b then a else b
  }

  ghost function Root(t: Tree): Node? {
    if t.Nil? then null else t.n
  }

  ghost function Nodes(t: Tree): set<Node> {
    match t
    case Nil => {}
    case T(l, n, r) => Nodes(l) + {n} + Nodes(r)
    case Stray(n, _) => {n}
  }

  ghost function Height(t: Tree): nat {
    match t
    case Nil => 0
    case T(l, _, r) => Max(Height(l), Height(r)) + 1
    case Stray(_, h) => h
  }

  ghost function Inorder(t: Tree): seq<Node> {
    match t
    case Nil => []
    case T(l, n, r) => Inorder(l) + [n] + Inorder(r)
    case Stray(n, _) => [n]
  }

  ghost predicate Clean(t: Tree) {
    match t
    case Nil => true
    case T(l, _, r) => Clean(l) && Clean(r)
    case Stray(_, _) => false
  }

  ghost predicate Distinct(t: Tree) {
    match t
    case T(l, n, r) => n !in Nodes(l) && n !in Nodes(r) && Nodes(l) !! Nodes(r) && Distinct(l) && Distinct(r)
    case _ => true
  }

  /** Sibling heights differ by at most one. */
  predicate Even(a: nat, b: nat) {
    a <= b + 1 && b <= a + 1
  }

  ghost predicate Balanced(t: Tree) {
    match t
    case T(l, _, r) => Even(Height(l), Height(r)) && Balanced(l) && Balanced(r)
    case Stray(_, h) => h > 0
    case Nil => true
  }

  /** The links of every node, and its cached height, are those of the tree; p is the father. */
  ghost predicate Linked(t: Tree, p: Node?)
    reads Nodes(t)
  {
    match t
    case Nil => true
    case T(l, n, r) =>
      && n.pf == p && n.pl == Root(l) && n.pr == Root(r) && n.hgt == Height(t)
      && Linked(l, n) && Linked(r, n)
    case Stray(n, h) => n.hgt == h
  }

  /** The keys increase from left to right. */
  ghost predicate Ordered(s: seq<Node>) {
    forall i, j :: 0 <= i < j < |s| ==> s[i].obj < s[j].obj
  }

  /** An AVL tree with root Root(t), as the operations of AVLTreeNode expect and leave it. */
  ghost predicate Avl(t: Tree)
    reads Nodes(t)
  {
    Linked(t, null) && Clean(t) && Distinct(t) && Balanced(t) && Ordered(Inorder(t))
  }

  // ---------- contexts ----------

  /** A tree with a hole: the way up from the hole, with the sibling at every step. */
  datatype Ctx = Top | InL(up: Ctx, n: Node, r: Tree) | InR(up: Ctx, l: Tree, n: Node)

  ghost function Father(c: Ctx): Node? {
    if c.Top? then null else c.n
  }

  ghost function CtxNodes(c: Ctx): set<Node> {
    match c
    case Top => {}
    case InL(up, n, r) => CtxNodes(up) + {n} + Nodes(r)
    case InR(up, l, n) => CtxNodes(up) + Nodes(l) + {n}
  }

  ghost function Plug(c: Ctx, t: Tree): Tree {
    match c
    case Top => t
    case InL(up, n, r) => Plug(up, T(t, n, r))
    case InR(up, l, n) => Plug(up, T(l, n, t))
  }

  ghost predicate CtxOk(c: Ctx) {
    match c
    case Top => true
    case InL(up, n, r) =>
      && n !in CtxNodes(up) && n !in Nodes(r) && Nodes(r) !! CtxNodes(up)
      && Distinct(r) && Balanced(r) && Clean(r) && CtxOk(up)
    case InR(up, l, n) =>
      && n !in CtxNodes(up) && n !in Nodes(l) && Nodes(l) !! CtxNodes(up)
      && Distinct(l) && Balanced(l) && Clean(l) && CtxOk(up)
  }

  /** Links and cached heights around the hole, for a child of height h in it. */
  ghost predicate CtxLinked(c: Ctx, child: Node?, h: nat)
    reads CtxNodes(c)
  {
    match c
    case Top => true
    case InL(up, n, r) =>
      && n.pf == Father(up) && n.pl == child && n.pr == Root(r) && n.hgt == Max(h, Height(r)) + 1
      && Even(h, Height(r)) && Linked(r, n) && CtxLinked(up, n, n.hgt)
    case InR(up, l, n) =>
      && n.pf == Father(up) && n.pl == Root(l) && n.pr == child && n.hgt == Max(Height(l), h) + 1
      && Even(Height(l), h) && Linked(l, n) && CtxLinked(up, n, n.hgt)
  }

  /** A tree t sits in the hole of c, whose cached heights were made for height h. */
  ghost predicate Zip(c: Ctx, t: Tree, h: nat)
    reads CtxNodes(c), Nodes(t)
  {
    && CtxOk(c) && Distinct(t) && Balanced(t) && CtxNodes(c) !! Nodes(t)
    && Linked(t, Father(c)) && CtxLinked(c, Root(t), h)
    && (Clean(t) || Height(t) <= h)
  }

  /** The nodes left and right of the hole. */
  ghost function Before(c: Ctx): seq<Node> {
    match c
    case Top => []
    case InL(up, _, _) => Before(up)
    case InR(up, l, n) => Before(up) + Inorder(l) + [n]
  }

  ghost function Behind(c: Ctx): seq<Node> {
    match c
    case Top => []
    case InL(up, n, r) => [n] + Inorder(r) + Behind(up)
    case InR(up, _, _) => Behind(up)
  }

  // ---------- what the steps of an operation keep and reach ----------

  /** Two trees of the same nodes in the same order. */
  ghost predicate Same(t: Tree, s: Tree) {
    Nodes(s) == Nodes(t) && Inorder(s) == Inorder(t) && (Distinct(t) <==> Distinct(s)) && (Clean(t) <==> Clean(s))
  }

  ghost predicate Rearranged(t: Tree, s: Tree, h: nat) {
    && Nodes(s) == Nodes(t) && Inorder(s) == Inorder(t)
    && Distinct(s) && Balanced(s) && Even(Height(s), h)
    && (Clean(t) ==> Clean(s)) && (Clean(s) || Height(s) <= h)
  }

  /** Subtree heights a single changed height can lead to; the recorded height of the node is still h. */
  ghost predicate Repairable(l: Tree, r: Tree, h: nat) {
    var hl, hr := Height(l), Height(r);
    var now := Max(hl, hr) + 1;
    && hl <= hr + 2 && hr <= hl + 2 && Even(now, h)
    && (!Even(hl, hr) ==> h <= now)
    && (hl == hr + 2 ==> Clean(l)) && (hr == hl + 2 ==> Clean(r))
    && ((Clean(l) && Clean(r)) || now <= h)
  }

  /** s takes the place of n with subtrees l and r in the hole of up: same nodes in the same order, balanced again. */
  ghost predicate Rotated(up: Ctx, l: Tree, n: Node, r: Tree, h: nat, re: Node, s: Tree)
    reads CtxNodes(up), Nodes(s)
  {
    && s.T? && s.n == re && Linked(s, Father(up)) && CtxLinked(up, re, h)
    && Rearranged(T(l, n, r), s, h)
  }

  /** c with s in its hole has the nodes, the order and, above the hole, the root of c0 with s0 in its hole. */
  ghost predicate Onward(c0: Ctx, s0: Tree, c: Ctx, s: Tree) {
    && CtxNodes(c) + Nodes(s) == CtxNodes(c0) + Nodes(s0)
    && Inorder(Plug(c, s)) == Inorder(Plug(c0, s0))
    && (Clean(s0) ==> Clean(s))
    && (!c.Top? ==> Root(Plug(c, s)) == Root(Plug(c0, s0)))
  }

  /** The father p has lost the child x, and nothing else has changed in it. */
  twostate predicate CutFrom(p: Node, x: Node)
    reads p
  {
    && p.pf == old(p.pf) && p.hgt == old(p.hgt)
    && p.pl == (if old(p.pl) == x then null else old(p.pl))
    && p.pr == (if old(p.pl) != x && old(p.pr) == x then null else old(p.pr))
  }

  /** In the father's links, and nowhere else in it, the child x has given way to y. */
  twostate predicate ChildReplaced(p: Node, x: Node, new y: Node?)
    reads p
  {
    && p.pf == old(p.pf) && p.hgt == old(p.hgt)
    && (if old(p.pl) == x then p.pl == y && p.pr == old(p.pr) else p.pl == old(p.pl) && p.pr == y)
  }

  /** The search for key k comes to the hole. */
  ghost predicate Fits(c: Ctx, k: int) {
    match c
    case Top => true
    case InL(up, n, _) => k < n.obj && Fits(up, k)
    case InR(up, _, n) => n.obj < k && Fits(up, k)
  }

  /** t' is an AVL tree of the nodes of t but for n. */
  ghost predicate Erased(t: Tree, t': Tree, n: Node)
    reads Nodes(t')
  {
    Avl(t') && Nodes(t') == Nodes(t) - {n}
  }

  // ---------- the right spine of a left subtree ----------

  ghost function MaxNode(t: Tree): Node
    requires t.T?
  {
    if t.r.T? then MaxNode(t.r) else t.n
  }

  /** The tree without its last node. */
  ghost function RemoveMax(t: Tree): Tree
    requires t.T?
  {
    if t.r.T? then T(t.l, t.n, RemoveMax(t.r)) else t.l
  }

  /** cc leads from the hole up a right spine to the context base. */
  ghost predicate Spine(cc: Ctx, base: Ctx) {
    cc == base || (cc.InR? && Spine(cc.up, base))
  }

  /** The subtree below base that has s in the hole of cc. */
  ghost function Hung(cc: Ctx, s: Tree, base: Ctx): Tree
    requires Spine(cc, base)
  {
    if cc == base then s else Hung(cc.up, T(cc.l, cc.n, s), base)
  }

  /** The tree t, its last node gone, below the father p; the cached heights are still those of t. */
  ghost predicate Pruned(t: Tree, p: Node?)
    requires t.T?
    reads Nodes(RemoveMax(t))
  {
    if t.r.T? then
      && t.n.pf == p && t.n.pl == Root(t.l) && t.n.pr == Root(RemoveMax(t.r)) && t.n.hgt == Height(t)
      && Linked(t.l, t.n) && Pruned(t.r, t.n)
    else
      Linked(t.l, p)
  }

  /** The father of the place the last node leaves, p being the father of the whole. */
  ghost function LastFather(t: Tree, p: Node?): Node?
    requires t.T?
  {
    if t.r.T? then LastFather(t.r, t.n) else p
  }

  ghost predicate Seats(c: Ctx, l: Tree, n: Node, r: Tree) {
    && CtxOk(c) && Distinct(r) && Distinct(l) && Balanced(l) && Balanced(r) && Clean(l) && Clean(r) && l.T? && r.T?
    && n !in CtxNodes(c) && n !in Nodes(r) && n !in Nodes(l)
    && CtxNodes(c) !! Nodes(l) && CtxNodes(c) !! Nodes(r) && Nodes(l) !! Nodes(r)
    && Even(Height(l), Height(r))
  }

  // ---------- nodes ----------

  class Node {
    const obj: int
    var pf: Node?
    var pl: Node?
    var pr: Node?
    var hgt: nat

    constructor (obj: int)
      ensures this.obj == obj && pf == null && pl == null && pr == null && hgt == 1
    {
      this.obj := obj;
      pf, pl, pr, hgt := null, null, null, 1;
    }

    static function GetHgt(p: Node?): nat
      reads p
    {
      if p == null then 0 else p.hgt
    }

    method RefreshHgt()
      modifies this`hgt
      ensures hgt == old(Max(GetHgt(pl), GetHgt(pr)) + 1)
    {
      hgt := Max(GetHgt(pl), GetHgt(pr)) + 1;
    }

    /** GetLR: whether this is the left child of its father. */
    method GetLR() returns (left: bool)
      requires pf != null && (pf.pl == this || pf.pr == this)
      ensures left <==> pf.pl == this
    {
      left := pf.pl == this;
    }

    /** Hands the subtree t over to this node as its father. */
    method Adopt(child: Node?, ghost t: Tree, ghost q: Node?)
      requires child == Root(t) && Linked(t, q) && Distinct(t)
      modifies child
      ensures Linked(t, this)
      ensures child != null ==> child.pf == this && child.pl == old(child.pl) && child.pr == old(child.pr) && child.hgt == old(child.hgt)
    {
      if child != null {
        child.pf := this;
      }
    }

    /** Writes re over the father's link to this node and returns what the link held, which is this node. */
    method PassPlaceTo(re: Node) returns (held: Node)
      requires pf != null ==> pf.pl == this || pf.pr == this
      modifies pf
      ensures held == this
      ensures old(pf) != null ==> ChildReplaced(old(pf), this, re)
    {
      if pf == null {
        held := this;
      } else {
        var lr := GetLR();
        if lr {
          held := pf.pl;
          pf.pl := re;
        } else {
          held := pf.pr;
          pf.pr := re;
        }
      }
    }

    /** Where the nodes of a right or left rotation stand before it. */
    ghost predicate LeftHeavyAt(a: Tree, b: Tree, c: Tree)
      reads this, pl, pf, Nodes(a), Nodes(b), Nodes(c)
    {
      && pl != null && Distinct(T(T(a, pl, b), this, c))
      && Linked(a, pl) && Linked(b, pl) && Linked(c, this)
      && pl.pl == Root(a) && pl.pr == Root(b) && pr == Root(c)
      && (pf != null ==> pf !in Nodes(T(T(a, pl, b), this, c)) && (pf.pl == this || pf.pr == this))
    }

    /** RotateL: the left child takes this node's place, and this node becomes its right child. */
    method RotateL(ghost a: Tree, ghost b: Tree, ghost c: Tree) returns (re: Node)
      requires LeftHeavyAt(a, b, c)
      modifies this, pl, pf, Root(b)
      ensures re == old(pl) && Linked(T(a, re, T(b, this, c)), old(pf))
      ensures old(pf) != null ==> ChildReplaced(old(pf), this, re)
    {
      re := pl;
      Apart(a, re, b, this, c);
      AllAllocated(a, b, c);
      LinkedHeight(a, re);
      LinkedHeight(b, re);
      LinkedHeight(c, this);
      hide Linked, Distinct, Nodes, Height;
      Adopt(re.pr, b, re);
      TurnL(re);
      LinkedRotated(a, re, b, this, c, old(pf));
    }

    /** The rest of RotateL, after the inner subtree has its new father. */
    method TurnL(re: Node)
      requires re != this && pf != this && pf != re && (pf != null ==> pf.pl == this || pf.pr == this)
      requires this !in {re.pl, re.pr, pr} && re !in {re.pl, re.pr, pr} && (pf == null || pf !in {re.pl, re.pr, pr})
      modifies this, re, pf
      ensures pl == old(re.pr) && pr == old(pr) && pf == re
      ensures re.pl == old(re.pl) && re.pr == this && re.pf == old(pf)
      ensures hgt == old(Max(GetHgt(re.pr), GetHgt(pr))) + 1
      ensures re.hgt == Max(old(GetHgt(re.pl)), hgt) + 1
      ensures old(pf) != null ==> ChildReplaced(old(pf), this, re)
    {
      pl := re.pr;
      var real_pf := pf;
      re.pr := PassPlaceTo(re);
      re.pf := real_pf;
      pf := re;
      RefreshHgt();
      re.RefreshHgt();
    }

    ghost predicate RightHeavyAt(a: Tree, b: Tree, c: Tree)
      reads this, pr, pf, Nodes(a), Nodes(b), Nodes(c)
    {
      && pr != null && Distinct(T(a, this, T(b, pr, c)))
      && Linked(a, this) && Linked(b, pr) && Linked(c, pr)
      && pl == Root(a) && pr.pl == Root(b) && pr.pr == Root(c)
      && (pf != null ==> pf !in Nodes(T(a, this, T(b, pr, c))) && (pf.pl == this || pf.pr == this))
    }

    /** RotateR: the right child takes this node's place, and this node becomes its left child. */
    method RotateR(ghost a: Tree, ghost b: Tree, ghost c: Tree) returns (re: Node)
      requires RightHeavyAt(a, b, c)
      modifies this, pr, pf, Root(b)
      ensures re == old(pr) && Linked(T(T(a, this, b), re, c), old(pf))
      ensures old(pf) != null ==> ChildReplaced(old(pf), this, re)
    {
      re := pr;
      ApartRight(a, this, b, re, c);
      AllAllocated(a, b, c);
      LinkedHeight(a, this);
      LinkedHeight(b, re);
      LinkedHeight(c, re);
      hide Linked, Distinct, Nodes, Height;
      Adopt(re.pl, b, re);
      TurnR(re);
      LinkedRotatedRight(a, this, b, re, c, old(pf));
    }

    /** The rest of RotateR, after the inner subtree has its new father. */
    method TurnR(re: Node)
      requires re != this && pf != this && pf != re && (pf != null ==> pf.pl == this || pf.pr == this)
      requires this !in {re.pl, re.pr, pl} && re !in {re.pl, re.pr, pl} && (pf == null || pf !in {re.pl, re.pr, pl})
      modifies this, re, pf
      ensures pr == old(re.pl) && pl == old(pl) && pf == re
      ensures re.pr == old(re.pr) && re.pl == this && re.pf == old(pf)
      ensures hgt == old(Max(GetHgt(pl), GetHgt(re.pl))) + 1
      ensures re.hgt == Max(hgt, old(GetHgt(re.pr))) + 1
      ensures old(pf) != null ==> ChildReplaced(old(pf), this, re)
    {
      pr := re.pl;
      var real_pf := pf;
      re.pl := PassPlaceTo(re);
      re.pf := real_pf;
      pf := re;
      RefreshHgt();
      re.RefreshHgt();
    }

    // ---------- the same, inside a context ----------

    method RotateLIn(ghost up: Ctx, ghost h: nat, ghost a: Tree, ghost b: Tree, ghost c: Tree) returns (re: Node)
      requires LeftHeavyAt(a, b, c) && pf == Father(up)
      requires CtxOk(up) && CtxLinked(up, this, h) && CtxNodes(up) !! Nodes(T(T(a, pl, b), this, c))
      modifies this, pl, pf, Root(b)
      ensures re == old(pl) && Linked(T(a, re, T(b, this, c)), Father(up)) && CtxLinked(up, re, h)
    {
      re := pl;
      Apart(a, re, b, this, c);
      AllAllocated(a, b, c);
      RootInNodes(b);
      ContextAround(up);
      hide Linked, Distinct, Nodes, Height, CtxNodes, Balanced, Clean, CtxOk;
      re := RotateL(a, b, c);
      if up.InL? {
        assert Linked(up.r, up.n) && CtxLinked(up.up, up.n, up.n.hgt);
      } else if up.InR? {
        assert Linked(up.l, up.n) && CtxLinked(up.up, up.n, up.n.hgt);
      }
    }

    method RotateRIn(ghost up: Ctx, ghost h: nat, ghost a: Tree, ghost b: Tree, ghost c: Tree) returns (re: Node)
      requires RightHeavyAt(a, b, c) && pf == Father(up)
      requires CtxOk(up) && CtxLinked(up, this, h) && CtxNodes(up) !! Nodes(T(a, this, T(b, pr, c)))
      modifies this, pr, pf, Root(b)
      ensures re == old(pr) && Linked(T(T(a, this, b), re, c), Father(up)) && CtxLinked(up, re, h)
    {
      re := pr;
      ApartRight(a, this, b, re, c);
      AllAllocated(a, b, c);
      RootInNodes(b);
      ContextAround(up);
      hide Linked, Distinct, Nodes, Height, CtxNodes, Balanced, Clean, CtxOk;
      re := RotateR(a, b, c);
      if up.InL? {
        assert Linked(up.r, up.n) && CtxLinked(up.up, up.n, up.n.hgt);
      } else if up.InR? {
        assert Linked(up.l, up.n) && CtxLinked(up.up, up.n, up.n.hgt);
      }
    }

    // ---------- one node of the way up ----------

    /** This node with its two subtrees in the hole of up; its cached height may be out of date. */
    ghost predicate Placed(up: Ctx, l: Tree, r: Tree)
      reads this, CtxNodes(up), Nodes(l), Nodes(r)
    {
      && CtxOk(up) && Distinct(T(l, this, r)) && CtxNodes(up) !! Nodes(T(l, this, r))
      && Linked(l, this) && Linked(r, this)
      && pl == Root(l) && pr == Root(r) && pf == Father(up) && CtxLinked(up, this, hgt)
    }

    ghost predicate Ready(up: Ctx, l: Tree, r: Tree)
      reads this, CtxNodes(up), Nodes(l), Nodes(r)
    {
      Placed(up, l, r) && Balanced(l) && Balanced(r)
    }

    /** The rotation for a left subtree that is two levels higher. */
    method LeanLeft(ghost up: Ctx, ghost l: Tree, ghost r: Tree) returns (re: Node, ghost s: Tree)
      requires Ready(up, l, r) && Repairable(l, r, hgt) && Height(l) >= Height(r) + 2
      modifies this, pf, Nodes(l)
      ensures Rotated(up, l, this, r, old(hgt), re, s)
    {
      LeanShape(l, r, hgt);
      LinkedHeight(l.l, l.n);
      LinkedHeight(l.r, l.n);
      if GetHgt(pl.pl) >= GetHgt(pl.pr) {
        SingleLeft(l, this, r, hgt);
        re := RotateLIn(up, hgt, l.l, l.r, r);
        s := T(l.l, re, T(l.r, this, r));
      } else {
        DoubleLeft(l, this, r, hgt);
        re, s := LeanLeftTwice(up, l.l, l.n, l.r.l, l.r.n, l.r.r, r);
      }
    }

    /** The double rotation: first the left child to the left, then this node to the right. */
    method LeanLeftTwice(ghost up: Ctx, ghost a: Tree, ghost x: Node, ghost b: Tree, ghost y: Node, ghost c: Tree, ghost r: Tree)
      returns (re: Node, ghost s: Tree)
      requires Placed(up, T(a, x, T(b, y, c)), r)
      modifies this, pf, x, y, Root(b), Root(c)
      ensures re == y && s == T(T(a, x, b), y, T(c, this, r))
      ensures Linked(s, Father(up)) && CtxLinked(up, re, old(hgt))
    {
      TurnLeftChild(up, a, x, b, y, c, r);
      re := RotateLIn(up, hgt, T(a, x, b), c, r);
      s := T(T(a, x, b), y, T(c, this, r));
    }

    method TurnLeftChild(ghost up: Ctx, ghost a: Tree, ghost x: Node, ghost b: Tree, ghost y: Node, ghost c: Tree, ghost r: Tree)
      requires Placed(up, T(a, x, T(b, y, c)), r)
      modifies this, x, y, Root(b)
      ensures Placed(up, T(T(a, x, b), y, c), r) && hgt == old(hgt)
    {
      assert Linked(T(b, y, c), x) && Distinct(T(a, x, T(b, y, c)));
      ApartRight(a, x, b, y, c);
      AllAllocated(a, b, c);
      RotatedSame(a, x, b, y, c);
      SameBelowLeft(T(T(a, x, b), y, c), T(a, x, T(b, y, c)), this, r);
      RootInNodes(b);
      RootInNodes(r);
      Allocated(r);
      CtxAllocated(up);
      hide Height, CtxOk, CtxLinked;
      var re := pl.RotateR(a, b, c);
    }

    /** The rotation for a right subtree that is two levels higher. */
    method LeanRight(ghost up: Ctx, ghost l: Tree, ghost r: Tree) returns (re: Node, ghost s: Tree)
      requires Ready(up, l, r) && Repairable(l, r, hgt) && Height(r) >= Height(l) + 2
      modifies this, pf, Nodes(r)
      ensures Rotated(up, l, this, r, old(hgt), re, s)
    {
      LeanShapeRight(l, r, hgt);
      LinkedHeight(r.l, r.n);
      LinkedHeight(r.r, r.n);
      if GetHgt(pr.pr) >= GetHgt(pr.pl) {
        SingleRight(l, this, r, hgt);
        re := RotateRIn(up, hgt, l, r.l, r.r);
        s := T(T(l, this, r.l), re, r.r);
      } else {
        DoubleRight(l, this, r, hgt);
        re, s := LeanRightTwice(up, l, r.l.l, r.l.n, r.l.r, r.n, r.r);
      }
    }

    method LeanRightTwice(ghost up: Ctx, ghost l: Tree, ghost a: Tree, ghost y: Node, ghost b: Tree, ghost x: Node, ghost c: Tree)
      returns (re: Node, ghost s: Tree)
      requires Placed(up, l, T(T(a, y, b), x, c))
      modifies this, pf, x, y, Root(a), Root(b)
      ensures re == y && s == T(T(l, this, a), y, T(b, x, c))
      ensures Linked(s, Father(up)) && CtxLinked(up, re, old(hgt))
    {
      TurnRightChild(up, l, a, y, b, x, c);
      re := RotateRIn(up, hgt, l, a, T(b, x, c));
      s := T(T(l, this, a), y, T(b, x, c));
    }

    method TurnRightChild(ghost up: Ctx, ghost l: Tree, ghost a: Tree, ghost y: Node, ghost b: Tree, ghost x: Node, ghost c: Tree)
      requires Placed(up, l, T(T(a, y, b), x, c))
      modifies this, x, y, Root(b)
      ensures Placed(up, l, T(a, y, T(b, x, c))) && hgt == old(hgt)
    {
      assert Linked(T(a, y, b), x) && Distinct(T(T(a, y, b), x, c));
      Apart(a, y, b, x, c);
      AllAllocated(a, b, c);
      RotatedSame(a, y, b, x, c);
      SameBelowRight(l, this, T(T(a, y, b), x, c), T(a, y, T(b, x, c)));
      RootInNodes(b);
      RootInNodes(l);
      Allocated(l);
      CtxAllocated(up);
      hide Height, CtxOk, CtxLinked;
      var re := pr.RotateL(a, b, c);
    }

    /** One pass of the loop: rotate if the subtrees are two levels apart, else refresh the cached height. */
    method Balance(ghost up: Ctx, ghost l: Tree, ghost r: Tree) returns (re: Node?, same: bool, ghost s: Tree)
      requires Ready(up, l, r) && Repairable(l, r, hgt)
      modifies this, pf, Nodes(l), Nodes(r)
      ensures Zip(up, s, old(hgt)) && Rearranged(T(l, this, r), s, old(hgt))
      ensures Root(s) == if re == null then this else re
      ensures re == null ==> pf == Father(up)
      ensures re != null ==> re.pf == Father(up)
      ensures same ==> re == null && Height(s) == old(hgt)
    {
      re, same := null, false;
      LinkedHeight(l, this);
      LinkedHeight(r, this);
      var curhgt, lh, lr := hgt, GetHgt(pl), GetHgt(pr);
      assert CtxNodes(up) !! Nodes(T(l, this, r));
      if lh >= lr + 2 {
        re, s := LeanLeft(up, l, r);
        RotatedZip(up, l, this, r, curhgt, re, s);
      } else if lr >= lh + 2 {
        re, s := LeanRight(up, l, r);
        RotatedZip(up, l, this, r, curhgt, re, s);
      } else {
        s := T(l, this, r);
        Refresh(up, l, r);
        same := curhgt == hgt;
      }
    }

    method Refresh(ghost up: Ctx, ghost l: Tree, ghost r: Tree)
      requires Ready(up, l, r) && Repairable(l, r, hgt) && Even(Height(l), Height(r))
      modifies this`hgt
      ensures Zip(up, T(l, this, r), old(hgt)) && Rearranged(T(l, this, r), T(l, this, r), old(hgt))
      ensures hgt == Height(T(l, this, r)) && pf == Father(up)
    {
      LinkedHeight(l, this);
      LinkedHeight(r, this);
      Allocated(l);
      Allocated(r);
      CtxAllocated(up);
      assert this !in Nodes(l) && this !in Nodes(r) && this !in CtxNodes(up);
      hide CtxOk, CtxLinked;
      RefreshHgt();
    }

    /**
     The loop that ends Insert and EraseImp: up from pos, rotating where needed, until no cached height changes.
     re is the subtree root of a rotation in the last pass.
     */
    static method Rebalance(pos0: Node, ghost up0: Ctx, ghost l0: Tree, ghost r0: Tree) returns (re: Node?, ghost t: Tree)
      requires pos0.Ready(up0, l0, r0) && Repairable(l0, r0, pos0.hgt)
      modifies CtxNodes(up0), pos0, Nodes(l0), Nodes(r0)
      ensures Linked(t, null) && Distinct(t) && Balanced(t) && Onward(up0, T(l0, pos0, r0), Top, t)
      ensures Root(t) == if re == null then Root(Plug(up0, T(l0, pos0, r0))) else re
    {
      var pos: Node? := pos0;
      re := null;
      ghost var c, l, r, s0 := up0, l0, r0, T(l0, pos0, r0);
      t := s0;
      assert c.Top? ==> pos == Root(Plug(up0, s0));
      assert Nodes(s0) == Nodes(l0) + {pos0} + Nodes(r0);
      hide Onward, pos0.Ready, Repairable, Plug, Linked, Distinct, Balanced, Nodes, CtxNodes, Zip, Rearranged, Height, Inorder, Clean, CtxOk, CtxLinked;
      OnwardStart(up0, s0);
      while pos != null
        invariant pos != null ==> pos.Ready(c, l, r) && Repairable(l, r, pos.hgt) && Onward(up0, s0, c, T(l, pos, r))
        invariant pos != null && c.Top? ==> pos == Root(Plug(up0, s0))
        invariant pos == null ==> Linked(t, null) && Distinct(t) && Balanced(t) && Onward(up0, s0, Top, t)
        invariant pos == null ==> Root(t) == if re == null then Root(Plug(up0, s0)) else re
        decreases c, pos != null
      {
        PassScope(pos, c, l, r, up0, s0);
        ghost var h := pos.hgt;
        ghost var s;
        var same;
        re, same, s := pos.Balance(c, l, r);
        if same {
          t := Plug(c, s);
          PassClosed(up0, s0, c, T(l, pos, r), s);
          return;
        }
        ghost var w := T(l, pos, r);
        pos := if re == null then pos.pf else re.pf;
        if c.Top? {
          t := s;
          PassLast(up0, s0, w, s, h);
        } else {
          NextPass(up0, s0, c, w, s, h);
          l, r := if c.InL? then s else c.l, if c.InL? then c.r else s;
          c := c.up;
        }
      }
    }

    // ---------- searching and linking ----------

    /** BinSearch: the node with the key, or null; c and s say where it is, steps counts the nodes looked at. */
    static method BinSearch(root: Node?, val: int, ghost t: Tree) returns (p: Node?, ghost steps: nat, ghost c: Ctx, ghost s: Tree)
      requires root == Root(t) && Avl(t)
      ensures p != null ==> p in Nodes(t) && p.obj == val
      ensures p != null ==> Plug(c, s) == t && Zip(c, s, Height(s)) && Clean(s) && s.T? && s.n == p
      ensures p == null ==> forall x :: x in Nodes(t) ==> x.obj != val
      ensures steps <= Height(t) && Fib(steps + 2) <= |Inorder(t)| + 1
    {
      p, steps, c, s := root, 0, Top, t;
      assert Zip(c, s, Height(s)) && Clean(s) && Ordered(Inorder(t)) && Plug(c, s) == t && Fits(c, val);
      hide Linked, CtxLinked, CtxOk, Distinct, Balanced, Nodes, Inorder, CtxNodes, Avl, Fib, Zip, Clean, Fits, Plug, Height, Ordered;
      while p != null
        invariant p == Root(s) && Zip(c, s, Height(s)) && Clean(s) && Plug(c, s) == t && Fits(c, val)
        invariant steps + Height(s) <= Height(t) && Avl(t)
        decreases s
      {
        SearchDown(c, s, t, val);
        steps := steps + 1;
        if p.obj == val {
          StepsBound(t, steps);
          return;
        }
        if val < p.obj {
          c, s := InL(c, s.n, s.r), s.l;
          p := p.pl;
        } else {
          c, s := InR(c, s.l, s.n), s.r;
          p := p.pr;
        }
      }
      NotFound(c, t, val);
      StepsBound(t, steps);
    }

    /** SetLChild: child becomes the left child of target; links that pointed elsewhere are cut. Throws without a target and for a child of itself. */
    static method SetLChild(target: Node?, child: Node?) returns (threw: bool)
      requires target != null ==> target.pl != target
      modifies target, if target == null then null else target.pl, child, if child == null then null else child.pf
      ensures threw <==> target == null || target == child
      ensures threw && target != null ==> unchanged(target)
      ensures !threw ==> target.pl == child && (child != null ==> child.pf == target)
      ensures !threw && old(target.pl) != null && old(target.pl) != child ==> old(target.pl).pf == null
      ensures !threw && child != null && old(child.pf) != null && old(child.pf) != target ==>
                && old(child.pf).pl == (if old(child.pf.pl) == child then null else old(child.pf.pl))
                && old(child.pf).pr == (if old(child.pf.pl) != child && old(child.pf.pr) == child then null else old(child.pf.pr))
      ensures !threw ==>
                target.pr == if child != null && old(child.pf) == target && old(target.pl) != child && old(target.pr) == child
                               then null else old(target.pr)
      ensures !threw ==> target.hgt == old(target.hgt) && target.pf == old(target.pf)
      ensures !threw && child != null && child != old(child.pf) ==> child.pl == old(child.pl) && child.pr == old(child.pr)
      ensures !threw && child != null && old(child.pf) != null && old(child.pf) !in {target, child, old(target.pl)} ==>
                CutFrom(old(child.pf), child)
    {
      threw := target == null || target == child;
      if threw {
        return;
      }
      if child == null {
        if target.pl != null {
          target.pl.pf := null;
          target.pl := null;
        }
        return;
      }
      var child_pf := child.pf;
      if target.pl == child && child_pf == target {
        return;
      }
      if target.pl != null {
        target.pl.pf := null;
      }
      if child_pf != null {
        if child_pf.pl == child {
          child_pf.pl := null;
        } else if child_pf.pr == child {
          child_pf.pr := null;
        }
      }
      target.pl := child;
      if child_pf != target {
        child.pf := target;
      }
    }

    static method SetRChild(target: Node?, child: Node?) returns (threw: bool)
      requires target != null ==> target.pr != target
      modifies target, if target == null then null else target.pr, child, if child == null then null else child.pf
      ensures threw <==> target == null || target == child
      ensures threw && target != null ==> unchanged(target)
      ensures !threw ==> target.pr == child && (child != null ==> child.pf == target)
      ensures !threw && old(target.pr) != null && old(target.pr) != child ==> old(target.pr).pf == null
      ensures !threw && child != null && old(child.pf) != null && old(child.pf) != target ==>
                && old(child.pf).pl == (if old(child.pf.pl) == child then null else old(child.pf.pl))
                && old(child.pf).pr == (if old(child.pf.pl) != child && old(child.pf.pr) == child then null else old(child.pf.pr))
      ensures !threw ==>
                target.pl == if child != null && old(child.pf) == target && old(target.pr) != child && old(target.pl) == child
                               then null else old(target.pl)
      ensures !threw ==> target.hgt == old(target.hgt) && target.pf == old(target.pf)
      ensures !threw && child != null && child != old(child.pf) ==> child.pl == old(child.pl) && child.pr == old(child.pr)
      ensures !threw && child != null && old(child.pf) != null && old(child.pf) !in {target, child, old(target.pr)} ==>
                CutFrom(old(child.pf), child)
    {
      threw := target == null || target == child;
      if threw {
        return;
      }
      if child == null {
        if target.pr != null {
          target.pr.pf := null;
          target.pr := null;
        }
        return;
      }
      var child_pf := child.pf;
      if target.pr == child && child_pf == target {
        return;
      }
      if target.pr != null {
        target.pr.pf := null;
      }
      if child_pf != null {
        if child_pf.pl == child {
          child_pf.pl := null;
        } else if child_pf.pr == child {
          child_pf.pr := null;
        }
      }
      target.pr := child;
      if child_pf != target {
        child.pf := target;
      }
    }

    /** The new leaf goes below pos, on the side the search ended on. */
    static method Attach(pos: Node, node: Node, ghost c: Ctx)
      requires !c.Top? && Zip(c, Nil, 0) && pos == c.n && (c.InL? <==> node.obj < pos.obj)
      requires node !in CtxNodes(c) && node.pf !in CtxNodes(c) && node.pf != node && node.pl == null && node.pr == null
      modifies pos, node, node.pf
      ensures Zip(c, T(Nil, node, Nil), 0)
      ensures old(node.pf) != null ==> CutFrom(old(node.pf), node)
    {
      ContextAround(c);
      assert pos in CtxNodes(c);
      hide Nodes, CtxNodes;
      if node.obj < pos.obj {
        var threw := SetLChild(pos, node);
        node.hgt := 1;
        assert Linked(c.r, c.n) && CtxLinked(c.up, c.n, c.n.hgt);
      } else {
        var threw := SetRChild(pos, node);
        node.hgt := 1;
        assert Linked(c.l, c.n) && CtxLinked(c.up, c.n, c.n.hgt);
      }
      LeafZip(c, node);
    }

    /** The search at the start of Insert: the node below which key belongs, unless the key is there already. */
    method FindPlace(key: int, ghost t: Tree) returns (found: bool, pos: Node, ghost c: Ctx)
      requires this == Root(t) && Avl(t)
      ensures Avl(t)
      ensures found ==> exists x :: x in Nodes(t) && x.obj == key
      ensures !found ==> Plug(c, Nil) == t && Zip(c, Nil, 0) && Fits(c, key)
      ensures !found ==> !c.Top? && pos == c.n && (c.InL? <==> key < pos.obj)
    {
      ghost var s := t;
      c, pos, found := Top, this, false;
      var tmppos: Node? := this;
      assert Zip(c, s, Height(s));
      hide Linked, CtxLinked, CtxOk, Distinct, Balanced, Nodes, Inorder, CtxNodes, Avl;
      while tmppos != null
        invariant tmppos == Root(s) && Zip(c, s, Height(s)) && Clean(s) && Plug(c, s) == t && Fits(c, key)
        invariant !c.Top? ==> pos == c.n && (c.InL? <==> key < pos.obj)
        invariant c.Top? ==> s == t
        invariant Avl(t)
        decreases s
      {
        SearchDown(c, s, t, key);
        pos := tmppos;
        if pos.obj == key {
          found := true;
          return;
        }
        if key < pos.obj {
          c, s := InL(c, s.n, s.r), s.l;
          tmppos := pos.pl;
        } else {
          c, s := InR(c, s.l, s.n), s.r;
          tmppos := pos.pr;
        }
      }
    }

    /**
     Insert: throws unless this is a root; a key that is present already leaves the tree as it was.
     A node that hangs elsewhere is cut from its father there.
     */
    method Insert(node: Node?, ghost t: Tree) returns (threw: bool, root: Node, ghost t': Tree)
      requires pf == null ==> this == Root(t) && Avl(t)
      requires pf == null && node != null && (forall x :: x in Nodes(t) ==> x.obj != node.obj) ==>
                 node.pf !in Nodes(t) && node.pf != node && node.pl == null && node.pr == null
      modifies Nodes(t), node, if node == null then null else node.pf
      ensures threw <==> old(pf) != null
      ensures threw ==> root == this && unchanged(this)
      ensures !threw ==> root == Root(t') && Avl(t')
      ensures !threw && (node == null || exists x :: x in Nodes(t) && x.obj == node.obj) ==> t' == t
      ensures !threw && node != null && (forall x :: x in Nodes(t) ==> x.obj != node.obj) ==> Nodes(t') == Nodes(t) + {node}
      ensures !threw && node != null && (forall x :: x in Nodes(t) ==> x.obj != node.obj) && old(node.pf) != null ==>
                CutFrom(old(node.pf), node)
    {
      root, t', threw := this, t, pf != null;
      if threw || node == null {
        return;
      }
      ghost var c;
      var found, pos;
      found, pos, c := FindPlace(node.obj, t);
      if found {
        return;
      }
      NotFound(c, t, node.obj);
      PlugNodes(c, Nil);
      root, t' := InsertBelow(pos, node, t, c);
    }

    /** The second half of Insert: link the node, then repair the way up. */
    method InsertBelow(pos: Node, node: Node, ghost t: Tree, ghost c: Ctx) returns (root: Node, ghost t': Tree)
      requires this == Root(t) && Ordered(Inorder(t))
      requires Plug(c, Nil) == t && Zip(c, Nil, 0) && Fits(c, node.obj)
      requires !c.Top? && pos == c.n && (c.InL? <==> node.obj < pos.obj)
      requires node !in CtxNodes(c) && node.pf !in CtxNodes(c) && node.pf != node && node.pl == null && node.pr == null
      modifies CtxNodes(c), node, node.pf
      ensures root == Root(t') && Avl(t') && Nodes(t') == CtxNodes(c) + {node}
      ensures old(node.pf) != null ==> CutFrom(old(node.pf), node)
    {
      assert pos in CtxNodes(c);
      hide Linked, Distinct, Balanced, Nodes, Inorder, Clean, Plug, Zip, Fits, CtxNodes, Ordered, Repairable, pos.Ready;
      Attach(pos, node, c);
      ghost var l, r := if c.InL? then T(Nil, node, Nil) else c.l, if c.InL? then c.r else T(Nil, node, Nil);
      LeafReady(c, node, t);
      var re;
      re, t' := Rebalance(pos, c.up, l, r);
      OnwardDone(c.up, T(l, pos, r), t');
      root := if re != null then re else this;
    }

    // ---------- erasing ----------

    /** BreakFather: cuts the links between this node and its father. */
    method BreakFather()
      modifies this, pf
      ensures pf == null
      ensures old(pf) != null && old(pf) != this ==>
                pl == old(pl) && pr == old(pr) && hgt == old(hgt) && CutFrom(old(pf), this)
    {
      var father := pf;
      if father == null {
        return;
      }
      pf := null;
      if father.pl == this {
        father.pl := null;
      } else if father.pr == this {
        father.pr := null;
      }
    }

    /** A leaf goes: its place in the context is left empty. */
    method EraseLeaf(ghost c: Ctx)
      requires !c.Top? && Zip(c, T(Nil, this, Nil), 1)
      modifies this, pf
      ensures Zip(c, Nil, 1) && pf == null && pl == null && pr == null
    {
      ContextAround(c);
      assert this !in CtxNodes(c) && pf == c.n && c.n in CtxNodes(c);
      hide Nodes, CtxNodes;
      BreakFather();
      if c.InL? {
        assert Linked(c.r, c.n) && CtxLinked(c.up, c.n, c.n.hgt);
      } else {
        assert Linked(c.l, c.n) && CtxLinked(c.up, c.n, c.n.hgt);
      }
    }

    /** Cuts this node out: the pl subtree d goes to the father, as its pl child. */
    method HangLeft(ghost d: Tree)
      requires pl == Root(d) && d.T? && Linked(d, this) && Distinct(d) && this !in Nodes(d)
      requires pf != null && pf != this && pf !in Nodes(d)
      modifies this, pf, pl
      ensures pf == null && pl == null && pr == old(pr) && hgt == old(hgt) && Linked(d, old(pf))
      ensures old(pf).pl == Root(d) && old(pf).pr == old(pf.pr) && old(pf).pf == old(pf.pf) && old(pf).hgt == old(pf.hgt)
    {
      RootInNodes(d);
      hide Nodes, Linked, Distinct;
      var node_pf := pf;
      node_pf.Adopt(pl, d, this);
      node_pf.pl := pl;
      pf := null;
      pl := null;
    }

    /** The pl child d of this node is hung below the father, always as its pl child. */
    method EraseOnlyLeft(ghost c: Ctx, ghost d: Tree)
      requires !c.Top? && Zip(c, T(d, this, Nil), Height(d) + 1) && Clean(d) && d.T?
      modifies this, pf, pl
      ensures pf == null && pl == null && pr == null
      ensures var l, r := d, if c.InL? then c.r else Stray(this, old(hgt));
              c.n.Ready(c.up, l, r) && Repairable(l, r, c.n.hgt)
    {
      ContextAround(c);
      RootInNodes(d);
      Allocated(d);
      assert this !in CtxNodes(c) && pf == c.n && c.n in CtxNodes(c) && this !in Nodes(d) && c.n !in Nodes(d);
      assert Nodes(T(d, this, Nil)) == {this} + Nodes(d);
      assert Height(d) == 1 && hgt == 2;
      hide Nodes, CtxNodes, Linked, Distinct, Height, Balanced, Clean, CtxOk, Repairable;
      HangLeft(d);
      if c.InL? {
        assert Linked(c.r, c.n) && CtxLinked(c.up, c.n, c.n.hgt);
        SplicedReady(c, this, d);
      } else {
        assert CtxLinked(c.up, c.n, c.n.hgt);
        MisLeftReady(c, this, d);
      }
    }

    /** Cuts this node out: the pr subtree d goes to the father, as its pr child. */
    method HangRight(ghost d: Tree)
      requires pr == Root(d) && d.T? && Linked(d, this) && Distinct(d) && this !in Nodes(d)
      requires pf != null && pf != this && pf !in Nodes(d)
      modifies this, pf, pr
      ensures pf == null && pr == null && pl == old(pl) && hgt == old(hgt) && Linked(d, old(pf))
      ensures old(pf).pr == Root(d) && old(pf).pl == old(pf.pl) && old(pf).pf == old(pf.pf) && old(pf).hgt == old(pf.hgt)
    {
      RootInNodes(d);
      hide Nodes, Linked, Distinct;
      var node_pf := pf;
      node_pf.Adopt(pr, d, this);
      node_pf.pr := pr;
      pf := null;
      pr := null;
    }

    /** The pr child d of this node is hung below the father, always as its pr child. */
    method EraseOnlyRight(ghost c: Ctx, ghost d: Tree)
      requires !c.Top? && Zip(c, T(Nil, this, d), Height(d) + 1) && Clean(d) && d.T?
      modifies this, pf, pr
      ensures pf == null && pl == null && pr == null
      ensures var l, r := if c.InL? then Stray(this, old(hgt)) else c.l, d;
              c.n.Ready(c.up, l, r) && Repairable(l, r, c.n.hgt)
    {
      ContextAround(c);
      RootInNodes(d);
      Allocated(d);
      assert this !in CtxNodes(c) && pf == c.n && c.n in CtxNodes(c) && this !in Nodes(d) && c.n !in Nodes(d);
      assert Nodes(T(Nil, this, d)) == {this} + Nodes(d);
      assert Height(d) == 1 && hgt == 2;
      hide Nodes, CtxNodes, Linked, Distinct, Height, Balanced, Clean, CtxOk, Repairable;
      HangRight(d);
      if c.InR? {
        assert Linked(c.l, c.n) && CtxLinked(c.up, c.n, c.n.hgt);
        SplicedReady(c, this, d);
      } else {
        assert CtxLinked(c.up, c.n, c.n.hgt);
        MisRightReady(c, this, d);
      }
    }

    /** The predecessor search: down the right spine of the left subtree. */
    method FindMax(ghost c: Ctx, ghost l: Tree, ghost r: Tree) returns (tmp: Node, ghost cc: Ctx, ghost x: Tree)
      requires Zip(c, T(l, this, r), Height(T(l, this, r))) && Clean(l) && Clean(r) && l.T?
      ensures tmp == MaxNode(l) && Spine(cc, InL(c, this, r)) && Hung(cc, T(x, tmp, Nil), InL(c, this, r)) == l
      ensures Zip(cc, T(x, tmp, Nil), Height(x) + 1) && Clean(x)
    {
      ghost var base, s := InL(c, this, r), l;
      ZipDown(c, T(l, this, r));
      tmp := pl;
      cc := base;
      hide Nodes, CtxNodes, Linked, Distinct, CtxOk, Balanced, CtxLinked, Clean, Zip, Hung, Spine, MaxNode, Height;
      SpineStart(base, s);
      while tmp.pr != null
        invariant s.T? && tmp == s.n && tmp.pr == Root(s.r) && Zip(cc, s, Height(s)) && Clean(s)
        invariant Spine(cc, base) && Hung(cc, s, base) == l && MaxNode(s) == MaxNode(l)
        decreases s
      {
        SpineDown(cc, s, base);
        cc, s := InR(cc, s.l, s.n), s.r;
        tmp := tmp.pr;
      }
      SpineEnd(cc, s);
      x := s.l;
    }

    /** The predecessor tmp leaves its place at the end of the spine and takes over this node's left subtree. */
    method DetachMax(tmp: Node, ghost c: Ctx, ghost l: Tree, ghost r: Tree, ghost cc: Ctx, ghost x: Tree)
      requires cc.InR? && Spine(cc.up, InL(c, this, r)) && Hung(cc, T(x, tmp, Nil), InL(c, this, r)) == l
      requires Zip(cc, T(x, tmp, Nil), Height(x) + 1) && Clean(x)
      modifies tmp, cc.n, Root(x)
      ensures Zip(cc, x, Height(x) + 1) && cc.n.pr == Root(x)
    {
      ContextAround(cc);
      RootInNodes(x);
      Allocated(x);
      var tmp_pf := tmp.pf;
      assert tmp !in CtxNodes(cc) && tmp_pf == cc.n && tmp !in Nodes(x) && cc.n !in Nodes(x);
      assert Nodes(T(x, tmp, Nil)) == {tmp} + Nodes(x);
      hide Nodes, CtxNodes, Linked, Distinct;
      tmp_pf.pr := tmp.pl;
      tmp_pf.Adopt(tmp.pl, x, tmp);
      assert Linked(cc.l, cc.n) && CtxLinked(cc.up, cc.n, cc.n.hgt);
    }

    /** The predecessor tmp takes over this node's left subtree. */
    method TakeLeft(tmp: Node, ghost c: Ctx, ghost l: Tree, ghost r: Tree)
      requires Replaceable(c, l, r) && l.r.T? && tmp == MaxNode(l)
      requires Pruned(l, this) && pl == l.n
      modifies tmp, pl
      ensures Replaceable(c, l, r) && Pruned(l, tmp) && tmp.pl == l.n && tmp.pl == Root(RemoveMax(l))
    {
      RemoveMaxNodes(l);
      Allocated(l);
      Allocated(r);
      CtxAllocated(c);
      hide Distinct, Linked, Nodes, CtxNodes, CtxLinked, CtxOk, Balanced, Clean, Height;
      tmp.pl := pl;
      pl.pf := tmp;
    }

    /** The facts about this node, its right subtree and its context that the substitution needs. */
    ghost predicate Replaceable(c: Ctx, l: Tree, r: Tree)
      reads this, CtxNodes(c), Nodes(r)
    {
      && Seats(c, l, this, r)
      && pf == Father(c) && pr == Root(r) && hgt == Max(Height(l), Height(r)) + 1
      && Linked(r, this) && CtxLinked(c, this, hgt)
    }

    /** The predecessor takes this node's place: father, right subtree and cached height. */
    method Substitute(tmp: Node, ghost c: Ctx, ghost l: Tree, ghost r: Tree)
      requires Replaceable(c, l, r) && tmp == MaxNode(l) && Pruned(l, tmp) && tmp.pl == Root(RemoveMax(l))
      modifies this, tmp, pf, pr
      ensures CtxLinked(InL(c, tmp, r), Root(RemoveMax(l)), Height(l)) && Pruned(l, tmp)
      ensures pf == null && pl == null && pr == null
    {
      SeatFacts(c, l, this, r);
      assert pf == Father(c) && CtxLinked(c, this, hgt);
      assert c.Top? || pf.pl == this || pf.pr == this;
      hide Distinct, Linked, Nodes, CtxNodes, CtxOk, Balanced, Clean, Pruned, RemoveMax, MaxNode, Height, Seats, Even, Max;
      ContextAround(c);
      RootInNodes(r);
      AllAllocated(r, l, RemoveMax(l));
      MoveInto(tmp, r);
      if c.InL? {
        assert Linked(c.r, c.n) && CtxLinked(c.up, c.n, c.n.hgt);
      } else if c.InR? {
        assert Linked(c.l, c.n) && CtxLinked(c.up, c.n, c.n.hgt);
      }
    }

    method MoveInto(tmp: Node, ghost r: Tree)
      requires this != tmp && pf != this && pf != tmp && pr == Root(r) && Linked(r, this) && Distinct(r)
      requires this !in Nodes(r) && tmp !in Nodes(r) && (pf != null ==> pf !in Nodes(r) && (pf.pl == this || pf.pr == this))
      modifies this, tmp, pf, pr
      ensures tmp.pf == old(pf) && tmp.pr == old(pr) && tmp.pl == old(tmp.pl) && tmp.hgt == old(hgt)
      ensures Linked(r, tmp) && pf == null && pl == null && pr == null
      ensures old(pf) != null ==> ChildReplaced(old(pf), this, tmp)
    {
      RootInNodes(r);
      Allocated(r);
      hide Distinct, Linked, Nodes, Height;
      var node_pf := pf;
      tmp.pf := node_pf;
      tmp.pr := pr;
      tmp.Adopt(pr, r, this);
      if node_pf != null {
        var held := PassPlaceTo(tmp);
      }
      pf := null;
      pl := null;
      pr := null;
      tmp.hgt := hgt;
    }

    /** The first half of the two-child case: find the predecessor and pull it out of the left subtree. */
    method PullMax(ghost c: Ctx, ghost l: Tree, ghost r: Tree) returns (tmp: Node, pos: Node)
      requires Zip(c, T(l, this, r), Height(T(l, this, r))) && Clean(l) && Clean(r) && l.T? && r.T?
      modifies this, Nodes(l)
      ensures Replaceable(c, l, r) && tmp == MaxNode(l) && Pruned(l, tmp) && tmp.pl == Root(RemoveMax(l))
      ensures pos == LastFather(l, tmp)
    {
      tmp := pl;
      ReplaceableAtFirst(c, l, this, r);
      if tmp.pr != null {
        ghost var cc, x;
        tmp, cc, x := FindMax(c, l, r);
        pos := tmp.pf;
        HungSpine(cc, x, tmp, InL(c, this, r));
        assert pos == cc.n && {tmp, cc.n} + Nodes(x) <= Nodes(l) by { assert tmp.pf == Father(cc); }
        RootInNodes(x);
        DetachMax(tmp, c, l, r, cc, x);
        ClimbFrom(cc, x, tmp, c, l, this, r);
        TakeLeft(tmp, c, l, r);
      } else {
        pos := tmp;
      }
    }

    /** The predecessor is pulled out and put in this node's place. */
    method Promote(ghost c: Ctx, ghost l: Tree, ghost r: Tree) returns (tmp: Node, pos: Node)
      requires Zip(c, T(l, this, r), Height(T(l, this, r))) && Clean(l) && Clean(r) && l.T? && r.T?
      modifies this, pf, pr, Nodes(l)
      ensures CtxLinked(InL(c, tmp, r), Root(RemoveMax(l)), Height(l)) && Pruned(l, tmp)
      ensures tmp == MaxNode(l) && pos == LastFather(l, tmp)
      ensures pf == null && pl == null && pr == null
    {
      assert pf == Father(c) && pr == Root(r);
      SeatsAtFirst(c, l, this, r);
      SeatsDown(c, l, this, r);
      RemoveMaxNodes(l);
      hide Linked, Distinct, Balanced, Nodes, CtxNodes, Clean, Zip, CtxLinked, Pruned, CtxOk, Height, Seats;
      tmp, pos := PullMax(c, l, r);
      assert pf == Father(c) && pr == Root(r);
      Substitute(tmp, c, l, r);
    }

    /** The two-child case: the predecessor takes this node's place, and the way up starts where it came from. */
    method EraseTwo(ghost c: Ctx, ghost l: Tree, ghost r: Tree) returns (tmp: Node, pos: Node, ghost cc: Ctx, ghost x: Tree)
      requires Zip(c, T(l, this, r), Height(T(l, this, r))) && Clean(l) && Clean(r) && l.T? && r.T?
      modifies this, pf, pr, Nodes(l)
      ensures Zip(cc, x, Height(x) + 1) && !cc.Top? && Clean(x) && pos == Father(cc)
      ensures tmp == MaxNode(l) && Plug(cc, x) == Plug(InL(c, tmp, r), RemoveMax(l))
      ensures pf == null && pl == null && pr == null
    {
      hide Linked, Distinct, Balanced, Nodes, CtxNodes, Clean, Zip, CtxLinked, Pruned, CtxOk, Height, Seats, MaxNode, RemoveMax, LastFather, Plug, Even;
      SeatsReady(c, l, this, r);
      tmp, pos := Promote(c, l, r);
      cc, x := Descend(InL(c, tmp, r), l);
    }

    /** Runs the loop from pos and answers with the root. */
    static method Finish(pos: Node, rootNode: Node, ghost up: Ctx, ghost l: Tree, ghost r: Tree) returns (root: Node, ghost t: Tree)
      requires pos.Ready(up, l, r) && Repairable(l, r, pos.hgt) && rootNode == Root(Plug(up, T(l, pos, r)))
      modifies CtxNodes(up), pos, Nodes(l), Nodes(r)
      ensures root == Root(t) && Linked(t, null) && Distinct(t) && Balanced(t) && (Clean(T(l, pos, r)) ==> Clean(t))
      ensures Inorder(t) == Inorder(Plug(up, T(l, pos, r))) && Nodes(t) == CtxNodes(up) + Nodes(T(l, pos, r))
    {
      hide Linked, Distinct, Balanced, Nodes, CtxNodes, Inorder, Plug, Repairable, pos.Ready, Clean;
      var re;
      re, t := Rebalance(pos, up, l, r);
      OnwardDone(up, T(l, pos, r), t);
      root := if re != null then re else rootNode;
    }

    /** This node is the root of s, which is in the hole of c, and the whole is the AVL tree t. */
    ghost predicate At(rootNode: Node, t: Tree, c: Ctx, s: Tree)
      reads Nodes(t), CtxNodes(c), Nodes(s)
    {
      && rootNode == Root(t) && Avl(t) && Plug(c, s) == t && Zip(c, s, Height(s)) && Clean(s) && s.T? && s.n == this
    }

    /** A leaf. */
    method RemoveLeaf(rootNode: Node, ghost t: Tree, ghost c: Ctx, ghost s: Tree) returns (root: Node?, ghost t': Tree)
      requires At(rootNode, t, c, s) && pl == null && pr == null
      modifies Nodes(t)
      ensures root == Root(t') && Linked(t', null) && Erased(t, t', this)
    {
      ChildTrees(rootNode, t, c, s);
      GapFilled(c, s, Nil, t);
      Allocated(t);
      if pf == null {
        root, t' := null, Nil;
      } else {
        assert pf == Father(c) && s == T(Nil, this, Nil);
        var father := pf;
        hide Linked, Distinct, Balanced, Nodes, CtxNodes, Inorder, Plug, Repairable, Zip, Clean, Ordered, CtxOk, CtxLinked, Height, At, Even;
        EraseLeaf(c);
        SplicedReadyAt(c, Nil);
        ghost var l, r := if c.InL? then Nil else c.l, if c.InL? then c.r else Nil;
        root, t' := Finish(father, rootNode, c.up, l, r);
      }
    }

    /** Only a left subtree: it moves up. */
    method RemoveOnlyLeft(rootNode: Node, ghost t: Tree, ghost c: Ctx, ghost s: Tree) returns (root: Node, ghost t': Tree)
      requires At(rootNode, t, c, s) && pl != null && pr == null
      modifies Nodes(t)
      ensures root == Root(t') && Linked(t', null)
      ensures c.InL? || c.Top? ==> Erased(t, t', this)
      ensures !c.InL? && !c.Top? ==> this in Nodes(t')
    {
      hide Linked, Distinct, Balanced, Nodes, CtxNodes, Inorder, Plug, Repairable, Zip, Clean, Ordered, CtxOk, CtxLinked, Height, Even;
      ChildTrees(rootNode, t, c, s);
      Allocated(t);
      OnlyChild(rootNode, t, c, s, s.l);
      if pf == null {
        root := pl;
        t' := s.l;
        RootInNodes(s.l);
        BreakLChild(s.l);
      } else {
        root, t' := SpliceL(rootNode, t, c, s);
      }
    }

    /** Below a father: the subtree takes the place of this node, or of its sibling. */
    method SpliceL(rootNode: Node, ghost t: Tree, ghost c: Ctx, ghost s: Tree) returns (root: Node, ghost t': Tree)
      requires At(rootNode, t, c, s) && pf != null && pl != null && pr == null
      modifies Nodes(t)
      ensures root == Root(t') && Linked(t', null)
      ensures c.InL? ==> Erased(t, t', this)
      ensures !c.InL? ==> this in Nodes(t')
    {
      hide Linked, Distinct, Balanced, Nodes, CtxNodes, Inorder, Plug, Repairable, Zip, Clean, Ordered, CtxOk, CtxLinked, Height, Even;
      ChildTrees(rootNode, t, c, s);
      Allocated(t);
      OnlyChild(rootNode, t, c, s, s.l);
      ghost var h := hgt;
      var father := pf;
      FatherOfHole(c);
      RootInNodes(s.l);
      ghost var l, r := s.l, if c.InL? then c.r else Stray(this, h);
      SplicedSame(c, s.l);
      SplicedAcross(c, s.l, this, h, t);
      EraseOnlyLeft(c, s.l);
      root, t' := Finish(father, rootNode, c.up, l, r);
    }

    method BreakLChild(ghost d: Tree)
      requires pl == Root(d) && d.T? && Linked(d, this) && Distinct(d) && this !in Nodes(d)
      modifies this, pl
      ensures pl == null && pf == old(pf) && pr == old(pr) && Linked(d, null)
    {
      Allocated(d);
      pl.pf := null;
      pl := null;
    }

    /** Only a right subtree: it moves up. */
    method RemoveOnlyRight(rootNode: Node, ghost t: Tree, ghost c: Ctx, ghost s: Tree) returns (root: Node, ghost t': Tree)
      requires At(rootNode, t, c, s) && pr != null && pl == null
      modifies Nodes(t)
      ensures root == Root(t') && Linked(t', null)
      ensures c.InR? || c.Top? ==> Erased(t, t', this)
      ensures !c.InR? && !c.Top? ==> this in Nodes(t')
    {
      hide Linked, Distinct, Balanced, Nodes, CtxNodes, Inorder, Plug, Repairable, Zip, Clean, Ordered, CtxOk, CtxLinked, Height, Even;
      ChildTrees(rootNode, t, c, s);
      Allocated(t);
      OnlyChild(rootNode, t, c, s, s.r);
      if pf == null {
        root := pr;
        t' := s.r;
        RootInNodes(s.r);
        BreakRChild(s.r);
      } else {
        root, t' := SpliceR(rootNode, t, c, s);
      }
    }

    /** Below a father: the subtree takes the place of this node, or of its sibling. */
    method SpliceR(rootNode: Node, ghost t: Tree, ghost c: Ctx, ghost s: Tree) returns (root: Node, ghost t': Tree)
      requires At(rootNode, t, c, s) && pf != null && pr != null && pl == null
      modifies Nodes(t)
      ensures root == Root(t') && Linked(t', null)
      ensures c.InR? ==> Erased(t, t', this)
      ensures !c.InR? ==> this in Nodes(t')
    {
      hide Linked, Distinct, Balanced, Nodes, CtxNodes, Inorder, Plug, Repairable, Zip, Clean, Ordered, CtxOk, CtxLinked, Height, Even;
      ChildTrees(rootNode, t, c, s);
      Allocated(t);
      OnlyChild(rootNode, t, c, s, s.r);
      ghost var h := hgt;
      var father := pf;
      FatherOfHole(c);
      RootInNodes(s.r);
      ghost var l, r := if c.InL? then Stray(this, h) else c.l, s.r;
      SplicedSame(c, s.r);
      SplicedAcross(c, s.r, this, h, t);
      EraseOnlyRight(c, s.r);
      root, t' := Finish(father, rootNode, c.up, l, r);
    }

    method BreakRChild(ghost d: Tree)
      requires pr == Root(d) && d.T? && Linked(d, this) && Distinct(d) && this !in Nodes(d)
      modifies this, pr
      ensures pr == null && pf == old(pf) && pl == old(pl) && Linked(d, null)
    {
      Allocated(d);
      pr.pf := null;
      pr := null;
    }

    /** Two subtrees: the predecessor moves here. */
    method RemoveTwo(rootNode: Node, ghost t: Tree, ghost c: Ctx, ghost s: Tree) returns (root: Node, ghost t': Tree)
      requires At(rootNode, t, c, s) && pl != null && pr != null
      modifies Nodes(t)
      ensures root == Root(t') && Linked(t', null) && Erased(t, t', this)
    {
      ChildTrees(rootNode, t, c, s);
      PredecessorIn(s);
      ghost var s' := T(RemoveMax(s.l), MaxNode(s.l), s.r);
      GapFilled(c, s, s', t);
      assert Plug(InL(c, MaxNode(s.l), s.r), RemoveMax(s.l)) == Plug(c, s') && (c.Top? ==> Root(Plug(c, s')) == MaxNode(s.l));
      Allocated(t);
      assert pf == Father(c);
      var top := pf == null;
      hide Linked, Distinct, Balanced, Nodes, CtxNodes, Inorder, Plug, Repairable, Zip, Clean, Ordered, CtxOk, CtxLinked, Height, At, Even;
      ghost var cc, x;
      var tmp, pos;
      tmp, pos, cc, x := EraseTwo(c, s.l, s.r);
      SplicedReadyAt(cc, x);
      ghost var l, r := if cc.InL? then x else cc.l, if cc.InL? then cc.r else x;
      root, t' := Finish(pos, if top then tmp else rootNode, cc.up, l, r);
    }

    /** The erased node hangs from its father on the side its only child is not on. */
    predicate MisSided()
      reads this, pf
    {
      pf != null && (pl == null) != (pr == null) && (if pl != null then pf.pr == this else pf.pl == this)
    }

    /** EraseImp: takes node out of the tree and answers with the root. */
    method EraseImp(node: Node, ghost t: Tree, ghost c: Ctx, ghost s: Tree) returns (root: Node?, ghost t': Tree)
      requires node.At(this, t, c, s)
      modifies Nodes(t)
      ensures root == Root(t') && Linked(t', null)
      ensures !old(node.MisSided()) ==> Erased(t, t', node)
      ensures old(node.MisSided()) <==> !exists s' :: Root(s') == root && Erased(t, s', node)
    {
      Sides(this, t, c, s);
      if node.pl == null && node.pr == null {
        root, t' := node.RemoveLeaf(this, t, c, s);
      } else if node.pl != null && node.pr == null {
        root, t' := node.RemoveOnlyLeft(this, t, c, s);
      } else if node.pl == null && node.pr != null {
        root, t' := node.RemoveOnlyRight(this, t, c, s);
      } else {
        root, t' := node.RemoveTwo(this, t, c, s);
      }
      if node in Nodes(t') {
        NotErased(t, t', node);
      }
    }

    /** Erase by key: throws unless this is a root; without such a key nothing changes. */
    method Erase(val: int, ghost t: Tree) returns (threw: bool, root: Node?, erased: Node?, ghost t': Tree)
      requires pf == null ==> this == Root(t) && Avl(t)
      modifies Nodes(t)
      ensures threw <==> old(pf) != null
      ensures threw ==> unchanged(this)
      ensures !threw ==> root == Root(t') && Linked(t', null)
      ensures !threw && erased == null ==> t' == t && Avl(t) && forall x :: x in Nodes(t) ==> x.obj != val
      ensures !threw && erased != null ==> erased in Nodes(t) && erased.obj == val && old(allocated(erased))
      ensures !threw && erased != null && !old(erased.MisSided()) ==> Erased(t, t', erased)
      ensures !threw && erased != null && old(erased.MisSided()) ==> !exists s' :: Root(s') == root && Erased(t, s', erased)
    {
      threw, root, erased, t' := pf != null, this, null, t;
      if threw {
        return;
      }
      ghost var steps, c, s;
      Allocated(t);
      erased, steps, c, s := BinSearch(this, val, t);
      if erased == null {
        return;
      }
      root, t' := EraseImp(erased, t, c, s);
    }
  }

  // ---------- trees, contexts and rotations ----------

  lemma {:induction false} InorderNodes(t: Tree)
    ensures forall x :: x in Inorder(t) <==> x in Nodes(t)
  {
    match t
    case T(l, n, r) =>
      InorderNodes(l);
      InorderNodes(r);
    case _ =>
  }

  /** With the cached heights right, the whole is linked and balanced. */
  lemma {:induction false} ZipClose(c: Ctx, t: Tree)
    requires Zip(c, t, Height(t))
    ensures var w := Plug(c, t);
            Linked(w, null) && Distinct(w) && Balanced(w) && (Clean(t) ==> Clean(w))
    decreases c
  {
    match c
    case Top =>
    case InL(up, n, r) =>
      ZipUp(c, t);
      ZipClose(up, T(t, n, r));
    case InR(up, l, n) =>
      ZipUp(c, t);
      ZipClose(up, T(l, n, t));
  }

  lemma ZipUp(c: Ctx, t: Tree)
    requires !c.Top? && Zip(c, t, Height(t))
    ensures c.InL? ==> Zip(c.up, T(t, c.n, c.r), Height(T(t, c.n, c.r)))
    ensures c.InR? ==> Zip(c.up, T(c.l, c.n, t), Height(T(c.l, c.n, t)))
  {
  }

  /** The frame of a node, with one of its subtrees in the hole. */
  lemma ZipDown(c: Ctx, t: Tree)
    requires t.T? && Clean(t) && Zip(c, t, Height(t))
    ensures Zip(InL(c, t.n, t.r), t.l, Height(t.l))
    ensures Zip(InR(c, t.l, t.n), t.r, Height(t.r))
    ensures Clean(t.l) && Clean(t.r) && t.n in Nodes(t) && t.n.pl == Root(t.l) && t.n.pr == Root(t.r)
  {
  }

  lemma {:induction false} PlugNodes(c: Ctx, t: Tree)
    ensures Nodes(Plug(c, t)) == CtxNodes(c) + Nodes(t)
  {
    match c
    case Top =>
    case InL(up, n, r) => PlugNodes(up, T(t, n, r));
    case InR(up, l, n) => PlugNodes(up, T(l, n, t));
  }

  lemma RegroupRight(a: seq<Node>, b: seq<Node>, c: seq<Node>, d: seq<Node>, e: seq<Node>)
    ensures a + (b + c + d) + e == (a + b + c) + d + e
  {
  }

  lemma RegroupLeft(a: seq<Node>, b: seq<Node>, c: seq<Node>, d: seq<Node>, e: seq<Node>)
    ensures a + (b + c + d) + e == a + b + (c + d + e)
  {
  }

  lemma {:induction false} PlugInorder(c: Ctx, t: Tree)
    ensures Inorder(Plug(c, t)) == Before(c) + Inorder(t) + Behind(c)
  {
    match c
    case Top =>
    case InL(up, n, r) =>
      PlugInorder(up, T(t, n, r));
      RegroupLeft(Before(up), Inorder(t), [n], Inorder(r), Behind(up));
    case InR(up, l, n) =>
      PlugInorder(up, T(l, n, t));
      RegroupRight(Before(up), Inorder(l), [n], Inorder(t), Behind(up));
  }

  lemma LinkedHeight(t: Tree, p: Node?)
    requires Linked(t, p)
    ensures Node.GetHgt(Root(t)) == Height(t)
    ensures Root(t) != null ==> Root(t) in Nodes(t)
  {
  }

  lemma RootInNodes(t: Tree)
    ensures !t.Nil? ==> Root(t) in Nodes(t)
  {
  }

  lemma LinkedRotatedRight(a: Tree, y: Node, b: Tree, x: Node, c: Tree, p: Node?)
    requires Linked(a, y) && Linked(b, y) && Linked(c, x)
    requires x.pf == p && x.pl == y && x.pr == Root(c) && x.hgt == Max(y.hgt, Height(c)) + 1
    requires y.pf == x && y.pl == Root(a) && y.pr == Root(b) && y.hgt == Max(Height(a), Height(b)) + 1
    ensures Linked(T(T(a, y, b), x, c), p)
  {
  }

  lemma LinkedRotated(a: Tree, x: Node, b: Tree, y: Node, c: Tree, p: Node?)
    requires Linked(a, x) && Linked(b, y) && Linked(c, y)
    requires x.pf == p && x.pl == Root(a) && x.pr == y && x.hgt == Max(Height(a), y.hgt) + 1
    requires y.pf == x && y.pl == Root(b) && y.pr == Root(c) && y.hgt == Max(Height(b), Height(c)) + 1
    ensures Linked(T(a, x, T(b, y, c)), p)
  {
  }

  lemma {:induction false} Allocated(t: Tree)
    ensures forall z :: z in Nodes(t) ==> allocated(z)
  {
    match t
    case T(l, n, r) =>
      Allocated(l);
      Allocated(r);
    case _ =>
  }

  lemma {:induction false} CtxAllocated(c: Ctx)
    ensures forall z :: z in CtxNodes(c) ==> allocated(z)
  {
    match c
    case Top =>
    case InL(up, n, r) =>
      Allocated(r);
      CtxAllocated(up);
    case InR(up, l, n) =>
      Allocated(l);
      CtxAllocated(up);
  }

  /** The father of the hole, the sibling there and the rest of the context have no node in common. */
  lemma ContextAround(c: Ctx)
    requires CtxOk(c)
    ensures match c
            case Top => true
            case InL(up, n, r) =>
              && CtxNodes(c) == CtxNodes(up) + {n} + Nodes(r)
              && n !in CtxNodes(up) && n !in Nodes(r) && Nodes(r) !! CtxNodes(up)
              && (forall z :: z in Nodes(r) ==> allocated(z)) && (forall z :: z in CtxNodes(up) ==> allocated(z))
              && (Root(r) != null ==> Root(r) in Nodes(r))
            case InR(up, l, n) =>
              && CtxNodes(c) == CtxNodes(up) + Nodes(l) + {n}
              && n !in CtxNodes(up) && n !in Nodes(l) && Nodes(l) !! CtxNodes(up)
              && (forall z :: z in Nodes(l) ==> allocated(z)) && (forall z :: z in CtxNodes(up) ==> allocated(z))
              && (Root(l) != null ==> Root(l) in Nodes(l))
  {
    match c
    case Top =>
    case InL(up, n, r) =>
      Allocated(r);
      CtxAllocated(up);
    case InR(up, l, n) =>
      Allocated(l);
      CtxAllocated(up);
  }

  lemma ApartRight(a: Tree, y: Node, b: Tree, x: Node, c: Tree)
    requires Distinct(T(a, y, T(b, x, c)))
    ensures x != y && Distinct(b)
    ensures x !in Nodes(a) && x !in Nodes(b) && x !in Nodes(c)
    ensures y !in Nodes(a) && y !in Nodes(b) && y !in Nodes(c)
    ensures Nodes(a) !! Nodes(b) && Nodes(a) !! Nodes(c) && Nodes(b) !! Nodes(c)
    ensures Nodes(T(a, y, T(b, x, c))) == Nodes(a) + {y} + Nodes(b) + {x} + Nodes(c)
  {
    assert Nodes(T(b, x, c)) == Nodes(b) + {x} + Nodes(c) && Distinct(T(b, x, c));
  }

  lemma AllAllocated(a: Tree, b: Tree, c: Tree)
    ensures forall z :: z in Nodes(a) ==> allocated(z)
    ensures forall z :: z in Nodes(b) ==> allocated(z)
    ensures forall z :: z in Nodes(c) ==> allocated(z)
  {
    Allocated(a);
    Allocated(b);
    Allocated(c);
  }

  /** What a rotation relies on to leave the three subtrees alone. */
  lemma Apart(a: Tree, x: Node, b: Tree, y: Node, c: Tree)
    requires Distinct(T(T(a, x, b), y, c))
    ensures x != y && Distinct(b)
    ensures x !in Nodes(a) && x !in Nodes(b) && x !in Nodes(c)
    ensures y !in Nodes(a) && y !in Nodes(b) && y !in Nodes(c)
    ensures Nodes(a) !! Nodes(b) && Nodes(a) !! Nodes(c) && Nodes(b) !! Nodes(c)
    ensures Nodes(T(T(a, x, b), y, c)) == Nodes(a) + {x} + Nodes(b) + {y} + Nodes(c)
  {
    assert Nodes(T(a, x, b)) == Nodes(a) + {x} + Nodes(b) && Distinct(T(a, x, b));
  }

  lemma RotatedInorder(a: Tree, x: Node, b: Tree, y: Node, c: Tree)
    ensures Inorder(T(T(a, x, b), y, c)) == Inorder(T(a, x, T(b, y, c)))
  {
    RegroupLeft([], Inorder(a) + [x], Inorder(b), [y], Inorder(c));
  }

  lemma SameBelowRight(l: Tree, n: Node, t: Tree, s: Tree)
    requires Same(t, s)
    ensures Same(T(l, n, t), T(l, n, s))
  {
  }

  lemma SameBelowLeft(t: Tree, s: Tree, n: Node, r: Tree)
    requires Same(t, s)
    ensures Same(T(t, n, r), T(s, n, r))
  {
  }

  lemma RotatedSame(a: Tree, x: Node, b: Tree, y: Node, c: Tree)
    ensures Same(T(T(a, x, b), y, c), T(a, x, T(b, y, c)))
  {
    RotatedInorder(a, x, b, y, c);
  }

  lemma SameDoubleLeft(l: Tree, n: Node, r: Tree)
    requires l.T? && l.r.T?
    ensures Same(T(l, n, r), T(T(l.l, l.n, l.r.l), l.r.n, T(l.r.r, n, r)))
    ensures Clean(T(l, n, r)) <==> Clean(l) && Clean(r)
  {
    var inner := T(T(l.l, l.n, l.r.l), l.r.n, l.r.r);
    RotatedSame(l.l, l.n, l.r.l, l.r.n, l.r.r);
    assert l == T(l.l, l.n, T(l.r.l, l.r.n, l.r.r));
    SameBelowLeft(inner, l, n, r);
    RotatedSame(inner.l, inner.n, inner.r, n, r);
  }

  lemma DoubleLeft(l: Tree, n: Node, r: Tree, h: nat)
    requires Repairable(l, r, h) && Height(l) == Height(r) + 2 && Balanced(l) && Balanced(r) && Distinct(T(l, n, r))
    requires l.T? && Height(l.l) < Height(l.r) && l.r.T?
    ensures Rearranged(T(l, n, r), T(T(l.l, l.n, l.r.l), l.r.n, T(l.r.r, n, r)), h)
  {
    var s := T(T(l.l, l.n, l.r.l), l.r.n, T(l.r.r, n, r));
    SameDoubleLeft(l, n, r);
    hide Nodes, Distinct, Inorder, Clean;
    assert Balanced(s) && Height(s) + 1 == Height(T(l, n, r));
  }

  lemma SingleLeft(l: Tree, n: Node, r: Tree, h: nat)
    requires Repairable(l, r, h) && Height(l) == Height(r) + 2 && Balanced(l) && Balanced(r) && Distinct(T(l, n, r))
    requires l.T? && Height(l.l) >= Height(l.r)
    ensures Rearranged(T(l, n, r), T(l.l, l.n, T(l.r, n, r)), h)
  {
    RotatedSame(l.l, l.n, l.r, n, r);
    assert l == T(l.l, l.n, l.r);
    hide Nodes, Distinct, Inorder;
    var s := T(l.l, l.n, T(l.r, n, r));
    assert Same(T(l, n, r), s) && Balanced(s);
    assert Clean(s) || Height(s) <= h;
  }

  lemma TallIsNode(t: Tree)
    requires Clean(t) && Height(t) > 0
    ensures t.T? && Clean(t.l) && Clean(t.r)
  {
  }

  lemma LeanShape(l: Tree, r: Tree, h: nat)
    requires Repairable(l, r, h) && Height(l) >= Height(r) + 2 && Balanced(l)
    ensures l.T? && (Height(l.l) < Height(l.r) ==> l.r.T?)
  {
    TallIsNode(l);
    if Height(l.l) < Height(l.r) {
      TallIsNode(l.r);
    }
  }

  lemma SameDoubleRight(l: Tree, n: Node, r: Tree)
    requires r.T? && r.l.T?
    ensures Same(T(l, n, r), T(T(l, n, r.l.l), r.l.n, T(r.l.r, r.n, r.r)))
    ensures Clean(T(l, n, r)) <==> Clean(l) && Clean(r)
  {
    var inner := T(r.l.l, r.l.n, T(r.l.r, r.n, r.r));
    RotatedSame(r.l.l, r.l.n, r.l.r, r.n, r.r);
    assert r == T(T(r.l.l, r.l.n, r.l.r), r.n, r.r);
    SameBelowRight(l, n, r, inner);
    RotatedSame(l, n, inner.l, inner.n, inner.r);
  }

  lemma DoubleRight(l: Tree, n: Node, r: Tree, h: nat)
    requires Repairable(l, r, h) && Height(r) == Height(l) + 2 && Balanced(l) && Balanced(r) && Distinct(T(l, n, r))
    requires r.T? && Height(r.r) < Height(r.l) && r.l.T?
    ensures Rearranged(T(l, n, r), T(T(l, n, r.l.l), r.l.n, T(r.l.r, r.n, r.r)), h)
  {
    var s := T(T(l, n, r.l.l), r.l.n, T(r.l.r, r.n, r.r));
    SameDoubleRight(l, n, r);
    hide Nodes, Distinct, Inorder, Clean;
    assert Balanced(s) && Height(s) + 1 == Height(T(l, n, r));
  }

  lemma SingleRight(l: Tree, n: Node, r: Tree, h: nat)
    requires Repairable(l, r, h) && Height(r) == Height(l) + 2 && Balanced(l) && Balanced(r) && Distinct(T(l, n, r))
    requires r.T? && Height(r.r) >= Height(r.l)
    ensures Rearranged(T(l, n, r), T(T(l, n, r.l), r.n, r.r), h)
  {
    RotatedSame(l, n, r.l, r.n, r.r);
    assert r == T(r.l, r.n, r.r);
    hide Nodes, Distinct, Inorder;
    var s := T(T(l, n, r.l), r.n, r.r);
    assert Same(s, T(l, n, r)) && Balanced(s);
    assert Clean(s) || Height(s) <= h;
  }

  lemma LeanShapeRight(l: Tree, r: Tree, h: nat)
    requires Repairable(l, r, h) && Height(r) >= Height(l) + 2 && Balanced(r)
    ensures r.T? && (Height(r.r) < Height(r.l) ==> r.l.T?)
  {
    TallIsNode(r);
    if Height(r.r) < Height(r.l) {
      TallIsNode(r.l);
    }
  }

  lemma RotatedZip(up: Ctx, l: Tree, n: Node, r: Tree, h: nat, re: Node, s: Tree)
    requires CtxOk(up) && CtxNodes(up) !! Nodes(T(l, n, r)) && Rotated(up, l, n, r, h, re, s)
    ensures Zip(up, s, h) && re.pf == Father(up)
  {
  }

  lemma ZipReady(c: Ctx, s: Tree, h: nat)
    requires Zip(c, s, h) && Even(Height(s), h) && !c.Top?
    ensures var l, r := if c.InL? then s else c.l, if c.InL? then c.r else s;
            c.n.Ready(c.up, l, r) && Repairable(l, r, c.n.hgt)
  {
  }

  lemma {:induction false} PlugRoot(c: Ctx, t: Tree, s: Tree)
    requires !c.Top?
    ensures Root(Plug(c, t)) == Root(Plug(c, s))
  {
    if !c.up.Top? {
      PlugRoot(c.up, if c.InL? then T(t, c.n, c.r) else T(c.l, c.n, t), if c.InL? then T(s, c.n, c.r) else T(c.l, c.n, s));
    }
  }

  lemma OnwardClosed(c0: Ctx, s0: Tree, c: Ctx, s: Tree)
    requires Onward(c0, s0, c, s) && (Clean(s) ==> Clean(Plug(c, s)))
    ensures Onward(c0, s0, Top, Plug(c, s))
    ensures !c.Top? ==> Root(Plug(c, s)) == Root(Plug(c0, s0))
  {
    PlugNodes(c, s);
  }

  lemma PassClosed(c0: Ctx, s0: Tree, c: Ctx, t: Tree, s: Tree)
    requires Onward(c0, s0, c, t) && Zip(c, s, Height(s)) && Rearranged(t, s, Height(s)) && Root(s) == Root(t)
    requires c.Top? ==> Root(t) == Root(Plug(c0, s0))
    ensures var w := Plug(c, s);
            && Linked(w, null) && Distinct(w) && Balanced(w) && Onward(c0, s0, Top, w)
            && Root(w) == Root(Plug(c0, s0))
  {
    OnwardSame(c0, s0, c, t, s);
    ZipClose(c, s);
    OnwardClosed(c0, s0, c, s);
  }

  lemma PassLast(c0: Ctx, s0: Tree, t: Tree, s: Tree, h: nat)
    requires Onward(c0, s0, Top, t) && Zip(Top, s, h) && Rearranged(t, s, h)
    ensures Linked(s, null) && Distinct(s) && Balanced(s) && Onward(c0, s0, Top, s)
  {
    OnwardSame(c0, s0, Top, t, s);
  }

  lemma NextPass(c0: Ctx, s0: Tree, c: Ctx, t: Tree, s: Tree, h: nat)
    requires Onward(c0, s0, c, t) && Zip(c, s, h) && Rearranged(t, s, h) && !c.Top?
    ensures var l, r := if c.InL? then s else c.l, if c.InL? then c.r else s;
            && c.n.Ready(c.up, l, r) && Repairable(l, r, c.n.hgt) && Onward(c0, s0, c.up, T(l, c.n, r))
            && (c.up.Top? ==> c.n == Root(Plug(c0, s0)))
  {
    OnwardSame(c0, s0, c, t, s);
    OnwardUp(c0, s0, c, s);
    ZipReady(c, s, h);
  }

  lemma PassScope(n: Node, c: Ctx, l: Tree, r: Tree, c0: Ctx, s0: Tree)
    requires n.Ready(c, l, r) && Onward(c0, s0, c, T(l, n, r))
    ensures {n} + Nodes(l) + Nodes(r) <= CtxNodes(c0) + Nodes(s0)
    ensures n.pf == Father(c) && (n.pf != null ==> n.pf in CtxNodes(c0) + Nodes(s0))
  {
    assert Nodes(T(l, n, r)) == Nodes(l) + {n} + Nodes(r);
  }

  lemma OnwardStart(c: Ctx, s: Tree)
    ensures Onward(c, s, c, s)
  {
  }

  lemma OnwardSame(c0: Ctx, s0: Tree, c: Ctx, t: Tree, s: Tree)
    requires Onward(c0, s0, c, t) && Nodes(s) == Nodes(t) && Inorder(s) == Inorder(t) && (Clean(t) ==> Clean(s))
    ensures Onward(c0, s0, c, s)
  {
    PlugInorder(c, t);
    PlugInorder(c, s);
    if !c.Top? {
      PlugRoot(c, t, s);
    }
  }

  lemma OnwardUp(c0: Ctx, s0: Tree, c: Ctx, s: Tree)
    requires Onward(c0, s0, c, s) && !c.Top? && CtxOk(c)
    ensures var t := if c.InL? then T(s, c.n, c.r) else T(c.l, c.n, s);
            Onward(c0, s0, c.up, t) && (c.up.Top? ==> c.n == Root(Plug(c0, s0)))
  {
  }

  // ---------- how deep a balanced tree can be ----------

  function Fib(n: nat): nat {
    if n < 2 then n else Fib(n - 1) + Fib(n - 2)
  }

  lemma FibGrows(n: nat)
    ensures Fib(n) <= Fib(n + 1)
  {
  }

  lemma FibOfHigher(a: nat, b: nat)
    requires Even(a, b)
    ensures Fib(Max(a, b) + 3) <= Fib(a + 2) + Fib(b + 2)
  {
    var m := Max(a, b);
    FibGrows(m + 1);
    assert Fib(m + 3) == Fib(m + 2) + Fib(m + 1);
  }

  /** A tree of height h has at least Fib(h + 2) - 1 nodes, so a search among n nodes takes O(log n) steps. */
  lemma {:induction false} BalancedSize(t: Tree)
    requires Balanced(t) && Clean(t)
    ensures |Inorder(t)| + 1 >= Fib(Height(t) + 2)
  {
    if t.T? {
      hide Fib;
      BalancedSize(t.l);
      BalancedSize(t.r);
      FibOfHigher(Height(t.l), Height(t.r));
      assert |Inorder(t)| == |Inorder(t.l)| + 1 + |Inorder(t.r)|;
      assert Height(t) == Max(Height(t.l), Height(t.r)) + 1;
    }
  }

  /** One level down on the side of the key. */
  lemma SearchDown(c: Ctx, s: Tree, t: Tree, k: int)
    requires s.T? && Clean(s) && Zip(c, s, Height(s)) && Plug(c, s) == t && Fits(c, k)
    ensures s.n in Nodes(t) && Height(s) > Height(s.l) && Height(s) > Height(s.r)
    ensures Zip(InL(c, s.n, s.r), s.l, Height(s.l)) && Clean(s.l) && s.n.pl == Root(s.l) && Plug(InL(c, s.n, s.r), s.l) == t
    ensures Zip(InR(c, s.l, s.n), s.r, Height(s.r)) && Clean(s.r) && s.n.pr == Root(s.r) && Plug(InR(c, s.l, s.n), s.r) == t
    ensures k < s.n.obj ==> Fits(InL(c, s.n, s.r), k)
    ensures k > s.n.obj ==> Fits(InR(c, s.l, s.n), k)
  {
    PlugNodes(c, s);
    ZipDown(c, s);
    hide Zip;
  }

  /** At least so many nodes are needed for a search of that many steps. */
  lemma StepsBound(t: Tree, steps: nat)
    requires Avl(t) && steps <= Height(t)
    ensures Fib(steps + 2) <= |Inorder(t)| + 1
  {
    hide Fib, Linked, Distinct, Inorder;
    BalancedSize(t);
    FibMonotone(steps + 2, Height(t) + 2);
  }

  lemma {:induction false} FibMonotone(m: nat, n: nat)
    requires m <= n
    ensures Fib(m) <= Fib(n)
    decreases n
  {
    if m < n {
      FibMonotone(m, n - 1);
      FibGrows(n - 1);
    }
  }

  // ---------- searching, inserting and erasing ----------

  lemma InsertedOrder(c: Ctx, node: Node)
    requires Ordered(Before(c) + Behind(c))
    requires forall x :: x in Before(c) ==> x.obj < node.obj
    requires forall x :: x in Behind(c) ==> node.obj < x.obj
    ensures Ordered(Before(c) + Inorder(T(Nil, node, Nil)) + Behind(c))
  {
    assert Inorder(T(Nil, node, Nil)) == [node];
    OrderedConcat(Before(c), Behind(c));
    OrderedConcat(Before(c), [node]);
    OrderedConcat(Before(c) + [node], Behind(c));
  }

  lemma NotFound(c: Ctx, t: Tree, k: int)
    requires Plug(c, Nil) == t && Ordered(Inorder(t)) && Fits(c, k)
    ensures Ordered(Before(c) + Behind(c))
    ensures forall x :: x in Nodes(t) ==> x.obj != k
    ensures forall x :: x in Before(c) ==> x.obj < k
    ensures forall x :: x in Behind(c) ==> k < x.obj
  {
    PlugInorder(c, Nil);
    assert Before(c) + Inorder(Nil) + Behind(c) == Before(c) + Behind(c);
    FitsBetween(c, Nil, k);
    InorderNodes(t);
    Allocated(t);
    forall x | x in Nodes(t)
      ensures x.obj != k
    {
      assert x in Inorder(t);
    }
  }

  /** Every key left of the hole is below a key that fits it, every key right of it above. */
  lemma {:induction false} FitsBetween(c: Ctx, s: Tree, k: int)
    requires Ordered(Before(c) + Inorder(s) + Behind(c)) && Fits(c, k)
    ensures forall x :: x in Before(c) ==> x.obj < k
    ensures forall x :: x in Behind(c) ==> k < x.obj
  {
    match c
    case Top =>
    case InL(up, n, r) =>
      RegroupLeft(Before(up), Inorder(s), [n], Inorder(r), Behind(up));
      FitsBetween(up, T(s, n, r), k);
      OrderedConcat(Before(up) + Inorder(s), [n] + Inorder(r) + Behind(up));
      OrderedConcat([n] + Inorder(r), Behind(up));
      OrderedConcat([n], Inorder(r));
    case InR(up, l, n) =>
      RegroupRight(Before(up), Inorder(l), [n], Inorder(s), Behind(up));
      FitsBetween(up, T(l, n, s), k);
      OrderedConcat(Before(up) + Inorder(l) + [n] + Inorder(s), Behind(up));
      OrderedConcat(Before(up) + Inorder(l) + [n], Inorder(s));
      OrderedConcat(Before(up) + Inorder(l), [n]);
      OrderedConcat(Before(up), Inorder(l));
  }

  lemma OrderedConcat(a: seq<Node>, b: seq<Node>)
    ensures Ordered(a + b) <==> Ordered(a) && Ordered(b) && forall x, y :: x in a && y in b ==> x.obj < y.obj
  {
    var s := a + b;
    if Ordered(s) {
      assert forall i :: 0 <= i < |a| ==> a[i] == s[i];
      assert forall i :: 0 <= i < |b| ==> b[i] == s[|a| + i];
    }
  }

  lemma LeafZip(c: Ctx, node: Node)
    requires CtxOk(c) && node !in CtxNodes(c) && CtxLinked(c, node, 0)
    requires node.pf == Father(c) && node.pl == null && node.pr == null && node.hgt == 1
    ensures Zip(c, T(Nil, node, Nil), 0)
  {
  }

  lemma OnwardDone(c: Ctx, s: Tree, t: Tree)
    requires Onward(c, s, Top, t) && Linked(t, null) && Distinct(t) && Balanced(t)
    ensures Clean(s) ==> Clean(t)
    ensures Inorder(t) == Inorder(Plug(c, s)) && Nodes(t) == CtxNodes(c) + Nodes(s)
  {
  }

  lemma LeafInOrder(c: Ctx, node: Node, t: Tree)
    requires Plug(c, Nil) == t && Ordered(Inorder(t)) && Fits(c, node.obj)
    ensures Ordered(Inorder(Plug(c, T(Nil, node, Nil))))
  {
    hide Fits, Plug, Ordered;
    NotFound(c, t, node.obj);
    PlugInorder(c, T(Nil, node, Nil));
    InsertedOrder(c, node);
  }

  /** What linking the new leaf gives the loop that follows. */
  lemma LeafReady(c: Ctx, node: Node, t: Tree)
    requires !c.Top? && Zip(c, T(Nil, node, Nil), 0) && Plug(c, Nil) == t && Ordered(Inorder(t)) && Fits(c, node.obj)
    ensures var l, r := if c.InL? then T(Nil, node, Nil) else c.l, if c.InL? then c.r else T(Nil, node, Nil);
            var s := T(l, c.n, r);
            && c.n.Ready(c.up, l, r) && Repairable(l, r, c.n.hgt)
            && {c.n} + Nodes(l) + Nodes(r) + CtxNodes(c.up) == CtxNodes(c) + {node}
            && CtxNodes(c.up) + Nodes(s) == CtxNodes(c) + {node}
            && Clean(s) && Ordered(Inorder(Plug(c.up, s))) && Root(Plug(c.up, s)) == Root(t)
  {
    var leaf := T(Nil, node, Nil);
    LeafInOrder(c, node, t);
    hide Linked, Distinct, Balanced, CtxLinked, Ordered, Fits, Inorder;
    ZipReady(c, leaf, 0);
    PlugRoot(c, Nil, leaf);
    assert Nodes(leaf) == {node};
  }

  lemma MisRightReady(c: Ctx, n: Node, d: Tree)
    requires c.InL? && CtxOk(c) && Distinct(d) && Balanced(d) && CtxNodes(c) !! Nodes(d)
    requires n !in CtxNodes(c) && n !in Nodes(d) && Height(d) == 1 && n.hgt == 2
    requires Linked(d, c.n) && c.n.pr == Root(d) && c.n.pl == n && c.n.pf == Father(c.up)
    requires Even(Height(c.r), 2) && c.n.hgt == Max(Height(c.r), 2) + 1 && CtxLinked(c.up, c.n, c.n.hgt)
    ensures c.n.Ready(c.up, Stray(n, 2), d) && Repairable(Stray(n, 2), d, c.n.hgt)
  {
  }

  /** A left child hung on the left of the father whose right child the erased node was, and stays. */
  lemma MisLeftReady(c: Ctx, n: Node, d: Tree)
    requires c.InR? && CtxOk(c) && Distinct(d) && Balanced(d) && CtxNodes(c) !! Nodes(d)
    requires n !in CtxNodes(c) && n !in Nodes(d) && Height(d) == 1 && n.hgt == 2
    requires Linked(d, c.n) && c.n.pl == Root(d) && c.n.pr == n && c.n.pf == Father(c.up)
    requires Even(Height(c.l), 2) && c.n.hgt == Max(Height(c.l), 2) + 1 && CtxLinked(c.up, c.n, c.n.hgt)
    ensures c.n.Ready(c.up, d, Stray(n, 2)) && Repairable(d, Stray(n, 2), c.n.hgt)
  {
  }

  lemma SplicedReady(c: Ctx, n: Node, d: Tree)
    requires !c.Top? && CtxOk(c) && Distinct(d) && Balanced(d) && Clean(d) && CtxNodes(c) !! Nodes(d)
    requires Linked(d, c.n) && CtxLinked(c, Root(d), Height(d) + 1)
    ensures var l, r := if c.InL? then d else c.l, if c.InL? then c.r else d;
            c.n.Ready(c.up, l, r) && Repairable(l, r, c.n.hgt)
  {
    ZipReady(c, d, Height(d) + 1);
  }

  lemma Sides(rootNode: Node, t: Tree, c: Ctx, s: Tree)
    requires s.T? && s.n.At(rootNode, t, c, s)
    ensures s.n.MisSided() <==> !c.Top? && (s.l.Nil? != s.r.Nil?) && (if s.l.Nil? then c.InL? else c.InR?)
    ensures (s.n.pl == null <==> s.l.Nil?) && (s.n.pr == null <==> s.r.Nil?)
  {
    if c.InL? {
      RootInNodes(c.r);
    } else if c.InR? {
      RootInNodes(c.l);
    }
  }

  lemma PredecessorIn(s: Tree)
    requires s.T? && Clean(s) && Distinct(s) && !s.l.Nil? && !s.r.Nil?
    ensures s.l.T? && s.r.T?
    ensures var s' := T(RemoveMax(s.l), MaxNode(s.l), s.r);
            Inorder(s') == Inorder(s.l) + Inorder(s.r) && Nodes(s') == Nodes(s) - {s.n}
  {
    hide RemoveMax, MaxNode, Distinct, Clean, Inorder, Nodes;
    TreeParts(s);
    DistinctParts(s);
    RemoveMaxNodes(s.l);
    TreeParts(T(RemoveMax(s.l), MaxNode(s.l), s.r));
  }

  /** The tree after a splice on the other side: the sibling is lost and n stays. */
  lemma SplicedAcross(c: Ctx, d: Tree, n: Node, h: nat, t: Tree)
    requires !c.Top? && n in Nodes(t) && CtxNodes(c) + Nodes(d) <= Nodes(t) && Root(Plug(c, d)) == Root(t)
    ensures var l, r := if c.InL? then Stray(n, h) else d, if c.InL? then d else Stray(n, h);
            && Root(Plug(c.up, T(l, c.n, r))) == Root(t) && n in Nodes(T(l, c.n, r))
            && CtxNodes(c.up) + {c.n} + Nodes(l) + Nodes(r) <= Nodes(t)
  {
    if !c.up.Top? {
      PlugRoot(c.up, T(Nil, c.n, Nil), if c.InL? then T(d, c.n, c.r) else T(c.l, c.n, d));
      PlugRoot(c.up, T(Nil, c.n, Nil), if c.InL? then T(Stray(n, h), c.n, d) else T(d, c.n, Stray(n, h)));
    }
  }

  /** The tree after a splice on the side the node was on. */
  lemma SplicedSame(c: Ctx, d: Tree)
    requires !c.Top? && CtxOk(c) && Clean(d)
    ensures var l, r := if c.InL? then d else c.l, if c.InL? then c.r else d;
            && Plug(c.up, T(l, c.n, r)) == Plug(c, d) && Clean(T(l, c.n, r))
            && CtxNodes(c.up) + Nodes(T(l, c.n, r)) == Nodes(Plug(c, d))
            && CtxNodes(c.up) + {c.n} + Nodes(l) + Nodes(r) == Nodes(Plug(c, d))
  {
    PlugNodes(c, d);
  }

  lemma SplicedReadyAt(c: Ctx, d: Tree)
    requires !c.Top? && Zip(c, d, Height(d) + 1) && Clean(d)
    ensures var l, r := if c.InL? then d else c.l, if c.InL? then c.r else d;
            && c.n.Ready(c.up, l, r) && Repairable(l, r, c.n.hgt)
            && Plug(c.up, T(l, c.n, r)) == Plug(c, d) && Clean(T(l, c.n, r))
            && CtxNodes(c.up) + Nodes(T(l, c.n, r)) == Nodes(Plug(c, d))
            && CtxNodes(c.up) + {c.n} + Nodes(l) + Nodes(r) == Nodes(Plug(c, d))
  {
    ZipReady(c, d, Height(d) + 1);
    PlugNodes(c, d);
  }

  lemma GapOrdered(p: seq<Node>, l: seq<Node>, n: Node, r: seq<Node>, q: seq<Node>)
    requires Ordered(p + (l + [n] + r) + q)
    ensures Ordered(p + (l + r) + q)
  {
    var a, b := p + l, r + q;
    assert p + (l + [n] + r) + q == a + ([n] + b);
    assert p + (l + r) + q == a + b;
    OrderedConcat(a, [n] + b);
    OrderedConcat([n], b);
    OrderedConcat(a, b);
  }

  /** Taking the root of s out of the middle of the order. */
  lemma GapFilled(c: Ctx, s: Tree, s': Tree, t: Tree)
    requires Plug(c, s) == t && Ordered(Inorder(t)) && s.T?
    requires Distinct(s) && CtxNodes(c) !! Nodes(s)
    requires Inorder(s') == Inorder(s.l) + Inorder(s.r) && Nodes(s') == Nodes(s) - {s.n}
    ensures Ordered(Inorder(Plug(c, s'))) && Nodes(Plug(c, s')) == Nodes(t) - {s.n}
    ensures !c.Top? ==> Root(Plug(c, s')) == Root(t)
  {
    hide Inorder, Ordered, Nodes, Plug, Before, Behind, Distinct, CtxNodes;
    PlugNodes(c, s);
    PlugNodes(c, s');
    PlugInorder(c, s);
    PlugInorder(c, s');
    TreeParts(s);
    if !c.Top? {
      PlugRoot(c, s, s');
    }
    GapOrdered(Before(c), Inorder(s.l), s.n, Inorder(s.r), Behind(c));
  }

  lemma DistinctParts(s: Tree)
    requires s.T? && Distinct(s) && Clean(s)
    ensures s.n !in Nodes(s.l) && s.n !in Nodes(s.r) && Distinct(s.l) && Clean(s.l) && !s.l.Stray? && !s.r.Stray?
  {}

  lemma TreeParts(s: Tree)
    requires s.T?
    ensures Inorder(s) == Inorder(s.l) + [s.n] + Inorder(s.r) && Nodes(s) == Nodes(s.l) + {s.n} + Nodes(s.r)
  {}

  /** What an only child d of s leaves when it moves up. */
  lemma OnlyChild(rootNode: Node, t: Tree, c: Ctx, s: Tree, d: Tree)
    requires s.T? && s.n.At(rootNode, t, c, s) && d.T? && (s == T(Nil, s.n, d) || s == T(d, s.n, Nil))
    ensures Ordered(Inorder(Plug(c, d))) && Nodes(Plug(c, d)) == Nodes(t) - {s.n}
    ensures !c.Top? ==> Root(Plug(c, d)) == Root(t)
    ensures Zip(c, s, Height(d) + 1) && Clean(d) && CtxOk(c) && Balanced(d)
    ensures c.Top? ==> Plug(c, d) == d
  {
    OnlyChildShape(s, d, s.n);
    hide Inorder, Ordered, Nodes, CtxNodes, Linked, CtxLinked, Distinct, Clean, Balanced;
    GapFilled(c, s, d, t);
  }

  lemma OnlyChildShape(s: Tree, d: Tree, n: Node)
    requires s == T(Nil, n, d) || s == T(d, n, Nil)
    ensures Inorder(d) == Inorder(s.l) + Inorder(s.r) && Nodes(s) == Nodes(d) + {n} && Height(s) == Height(d) + 1
    ensures Distinct(s) ==> Nodes(d) == Nodes(s) - {n}
    ensures (Clean(s) ==> Clean(d)) && (Balanced(s) ==> Balanced(d))
  {
    assert Inorder(Nil) == [] && Nodes(Nil) == {};
    assert Inorder(d) + [] == Inorder(d) == [] + Inorder(d);
  }

  lemma FatherOfHole(c: Ctx)
    ensures c.Top? <==> Father(c) == null
    ensures !c.Top? ==> Father(c) == c.n && c.n in CtxNodes(c)
  {}

  lemma ChildTrees(rootNode: Node, t: Tree, c: Ctx, s: Tree)
    requires s.T? && s.n.At(rootNode, t, c, s)
    ensures s.n.pf == Father(c) && s.n.pl == Root(s.l) && s.n.pr == Root(s.r) && Linked(s.l, s.n) && Linked(s.r, s.n)
    ensures Clean(s.l) && Clean(s.r) && s.n !in Nodes(s.l) && s.n !in Nodes(s.r) && Distinct(s.l) && Distinct(s.r)
    ensures s.n in Nodes(t) && Nodes(s.l) + Nodes(s.r) + CtxNodes(c) <= Nodes(t)
    ensures s == T(s.l, s.n, s.r)
  {
    PlugNodes(c, s);
  }

  lemma NotErased(t: Tree, t': Tree, n: Node)
    requires Linked(t', null) && n in Nodes(t')
    ensures !exists s :: Root(s) == Root(t') && Erased(t, s, n)
  {
    forall s | Root(s) == Root(t') && Erased(t, s, n)
      ensures false
    {
      SameReach(t', s, null, null);
    }
  }

  /** From one root the links lead to the same nodes, whatever tree describes them. */
  lemma {:induction false} SameReach(t: Tree, s: Tree, p: Node?, q: Node?)
    requires Linked(t, p) && Linked(s, q) && Root(t) == Root(s) && Clean(s)
    ensures Nodes(t) <= Nodes(s)
  {
    if t.T? {
      SameReach(t.l, s.l, t.n, s.n);
      SameReach(t.r, s.r, t.n, s.n);
    }
  }

  lemma SeatsReady(c: Ctx, l: Tree, n: Node, r: Tree)
    requires Zip(c, T(l, n, r), Height(T(l, n, r))) && Clean(l) && Clean(r) && l.T? && r.T?
    ensures CtxOk(InL(c, MaxNode(l), r)) && CtxNodes(InL(c, MaxNode(l), r)) !! Nodes(RemoveMax(l))
    ensures Clean(l) && Balanced(l) && Distinct(l)
  {
    SeatsAtFirst(c, l, n, r);
    SeatsDown(c, l, n, r);
  }

  lemma SeatsDown(c: Ctx, l: Tree, n: Node, r: Tree)
    requires Seats(c, l, n, r)
    ensures CtxOk(InL(c, MaxNode(l), r)) && CtxNodes(InL(c, MaxNode(l), r)) !! Nodes(RemoveMax(l))
    ensures Clean(l) && Balanced(l) && Distinct(l) && n !in CtxNodes(c) && n !in Nodes(l) && n !in Nodes(r)
  {
    RemoveMaxNodes(l);
  }

  lemma SeatsAtFirst(c: Ctx, l: Tree, n: Node, r: Tree)
    requires CtxOk(c) && Distinct(T(l, n, r)) && Balanced(T(l, n, r)) && CtxNodes(c) !! Nodes(T(l, n, r))
    requires Clean(l) && Clean(r) && l.T? && r.T?
    ensures Seats(c, l, n, r)
  {
  }

  lemma TopOfSpine(l: Tree, n: Node)
    requires l.T? && Clean(l) && Linked(l, n)
    ensures l.n.pr == Root(l.r)
    ensures l.r.Nil? ==> MaxNode(l) == l.n && Pruned(l, l.n) && LastFather(l, l.n) == l.n && l.n.pl == Root(RemoveMax(l))
  {
  }

  lemma ReplaceableAtFirst(c: Ctx, l: Tree, n: Node, r: Tree)
    requires Zip(c, T(l, n, r), Height(T(l, n, r))) && Clean(l) && Clean(r) && l.T? && r.T?
    ensures n.Replaceable(c, l, r) && n.pl == l.n && l.n.pr == Root(l.r)
    ensures l.r.Nil? ==> MaxNode(l) == l.n && Pruned(l, l.n) && LastFather(l, l.n) == l.n && l.n.pl == Root(RemoveMax(l))
  {
    SeatsAtFirst(c, l, n, r);
    assert Linked(l, n) && Linked(r, n) && n.hgt == Height(T(l, n, r));
    TopOfSpine(l, n);
    hide Distinct, Nodes, CtxNodes, CtxOk, Balanced, Clean, MaxNode, Pruned, LastFather, RemoveMax, Linked, CtxLinked;
  }

  lemma ClimbFrom(cc: Ctx, x: Tree, tmp: Node, c: Ctx, l: Tree, n: Node, r: Tree)
    requires Seats(c, l, n, r) && Zip(cc, x, Height(x) + 1)
    requires Spine(cc, InL(c, n, r)) && Hung(cc, T(x, tmp, Nil), InL(c, n, r)) == l && l.r.T?
    ensures n.Replaceable(c, l, r) && Pruned(l, n) && n.pl == l.n
  {
    Climb(cc, T(x, tmp, Nil), InL(c, n, r));
  }

  lemma {:induction false} HungDeep(cc: Ctx, s: Tree, base: Ctx, p: Node)
    requires Spine(cc, base) && s.T? && s.r.T?
    ensures var l := Hung(cc, s, base);
            l.T? && l.r.T? && Nodes(s) <= Nodes(l) && LastFather(l, p) == LastFather(s, p)
    decreases cc
  {
    if cc != base {
      HungDeep(cc.up, T(cc.l, cc.n, s), base, p);
    }
  }

  lemma {:induction false} HungSpine(cc: Ctx, x: Tree, tmp: Node, base: Ctx)
    requires Spine(cc, base) && cc != base
    ensures var l := Hung(cc, T(x, tmp, Nil), base);
            && cc.InR? && Spine(cc.up, base) && l.T? && l.r.T? && cc.n in Nodes(l) && {tmp} + Nodes(x) <= Nodes(l)
            && LastFather(l, tmp) == cc.n
  {
    HungDeep(cc.up, T(cc.l, cc.n, T(x, tmp, Nil)), base, tmp);
  }

  /** The seats apart from each other, with the predecessor on its way from one to the other. */
  lemma SeatFacts(c: Ctx, l: Tree, n: Node, r: Tree)
    requires Seats(c, l, n, r)
    ensures var tmp, s := MaxNode(l), RemoveMax(l);
            && n != tmp && n !in Nodes(r) && tmp !in Nodes(r) && Distinct(r) && CtxOk(c) && Even(Height(l), Height(r))
            && n !in Nodes(s) && tmp !in Nodes(s) && n !in CtxNodes(c) && tmp !in CtxNodes(c)
            && CtxNodes(c) !! Nodes(s) && CtxNodes(c) !! Nodes(r) && Nodes(s) !! Nodes(r)
            && (!c.Top? ==> c.n in CtxNodes(c))
  {
    hide Balanced, Height;
    RemoveMaxNodes(l);
  }

  lemma SpineStart(base: Ctx, s: Tree)
    requires s.T? && Linked(s, Father(base))
    ensures Spine(base, base) && Hung(base, s, base) == s && s.n.pr == Root(s.r)
  {
  }

  lemma SpineDown(cc: Ctx, s: Tree, base: Ctx)
    requires s.T? && s.n.pr != null && Zip(cc, s, Height(s)) && Clean(s) && Spine(cc, base) && base.InL?
    ensures var down := InR(cc, s.l, s.n);
            && s.r.T? && s.r.n.pr == Root(s.r.r) && Zip(down, s.r, Height(s.r)) && Clean(s.r)
            && Spine(down, base) && Hung(down, s.r, base) == Hung(cc, s, base) && MaxNode(s.r) == MaxNode(s)
  {
    ZipDown(cc, s);
    hide CtxOk, Distinct, Balanced, CtxLinked, Nodes, CtxNodes;
    assert Linked(s, Father(cc)) && Linked(s.r, s.n);
  }

  lemma SpineEnd(cc: Ctx, s: Tree)
    requires s.T? && s.n.pr == null && Zip(cc, s, Height(s)) && Clean(s)
    ensures s == T(s.l, s.n, Nil) && Clean(s.l) && Height(s) == Height(s.l) + 1 && MaxNode(s) == s.n
  {
    ZipDown(cc, s);
  }

  lemma OneDown(base: Ctx, t: Tree)
    requires t.T? && t.r.T? && Clean(t) && Balanced(t) && Distinct(t) && CtxOk(base) && CtxNodes(base) !! Nodes(RemoveMax(t))
    requires CtxLinked(base, Root(RemoveMax(t)), Height(t)) && Pruned(t, Father(base))
    ensures var down := InR(base, t.l, t.n);
            && Clean(t.r) && Balanced(t.r) && Distinct(t.r) && CtxOk(down) && CtxNodes(down) !! Nodes(RemoveMax(t.r))
            && CtxLinked(down, Root(RemoveMax(t.r)), Height(t.r)) && Pruned(t.r, Father(down))
            && Plug(down, RemoveMax(t.r)) == Plug(base, RemoveMax(t))
  {
    RemoveMaxNodes(t.r);
  }

  /** Read from base downwards, the pruned subtree is a spine with a hole next to the last node. */
  lemma {:induction false} Descend(base: Ctx, t: Tree) returns (cc: Ctx, x: Tree)
    requires t.T? && Clean(t) && Balanced(t) && Distinct(t) && CtxOk(base) && CtxNodes(base) !! Nodes(RemoveMax(t))
    requires !base.Top? && CtxLinked(base, Root(RemoveMax(t)), Height(t)) && Pruned(t, Father(base))
    ensures Zip(cc, x, Height(x) + 1) && !cc.Top? && Clean(x)
    ensures Plug(cc, x) == Plug(base, RemoveMax(t)) && Father(cc) == LastFather(t, Father(base))
    decreases t
  {
    if t.r.T? {
      OneDown(base, t);
      hide Linked, Distinct, Balanced, Nodes, CtxNodes, CtxOk, CtxLinked, Zip, Height;
      cc, x := Descend(InR(base, t.l, t.n), t.r);
    } else {
      cc, x := base, t.l;
    }
  }

  /** Read from the hole upwards, the spine is the pruned subtree. */
  lemma {:induction false} Climb(cc: Ctx, s: Tree, base: Ctx)
    requires Spine(cc, base) && s.T? && CtxLinked(cc, Root(RemoveMax(s)), Height(s)) && Pruned(s, Father(cc))
    ensures var l := Hung(cc, s, base);
            l.T? && CtxLinked(base, Root(RemoveMax(l)), Height(l)) && Pruned(l, Father(base))
    decreases cc
  {
    if cc != base {
      Climb(cc.up, T(cc.l, cc.n, s), base);
    }
  }

  lemma {:induction false} RemoveMaxNodes(t: Tree)
    requires t.T? && Clean(t) && Distinct(t)
    ensures MaxNode(t) in Nodes(t) && Nodes(RemoveMax(t)) == Nodes(t) - {MaxNode(t)}
    ensures Inorder(t) == Inorder(RemoveMax(t)) + [MaxNode(t)]
    ensures Distinct(RemoveMax(t)) && Clean(RemoveMax(t))
    ensures t.r.T? ==> t.n in Nodes(RemoveMax(t)) && t.n != MaxNode(t)
  {
    if t.r.T? {
      RemoveMaxNodes(t.r);
      assert Inorder(t.l) + [t.n] + (Inorder(RemoveMax(t.r)) + [MaxNode(t)])
          == (Inorder(t.l) + [t.n] + Inorder(RemoveMax(t.r))) + [MaxNode(t)];
    } else {
      assert t.r.Nil?;
    }
  }

  // ---------- a tree that an erasure breaks ----------

  /** The keys 2 at the root, 1 and 4 below it, and 3 below 4 on the left. */
  ghost function Small(one: Node, two: Node, three: Node, four: Node): Tree {
    T(T(Nil, one, Nil), two, T(T(Nil, three, Nil), four, Nil))
  }

  ghost predicate SmallLinks(one: Node, two: Node, three: Node, four: Node)
    reads one, two, three, four
  {
    && one.pf == two && one.pl == null && one.pr == null && one.hgt == 1
    && two.pf == null && two.pl == one && two.pr == four && two.hgt == 3
    && three.pf == four && three.pl == null && three.pr == null && three.hgt == 1
    && four.pf == two && four.pl == three && four.pr == null && four.hgt == 2
  }

  lemma SmallIsAvl(one: Node, two: Node, three: Node, four: Node)
    requires one.obj == 1 && two.obj == 2 && three.obj == 3 && four.obj == 4 && SmallLinks(one, two, three, four)
    ensures Avl(Small(one, two, three, four))
    ensures four.At(two, Small(one, two, three, four), InR(Top, T(Nil, one, Nil), two), T(T(Nil, three, Nil), four, Nil))
  {
    var a, b := T(Nil, one, Nil), T(Nil, three, Nil);
    var d := T(b, four, Nil);
    LeafTree(one);
    LeafTree(three);
    assert Inorder(d) == [three, four] && Nodes(d) == {three, four} && Height(d) == 2;
    assert Linked(a, two) && Linked(b, four) && Linked(Nil, four);
    assert Distinct(d) && Balanced(d) && Clean(d) && Linked(d, two);
    assert Inorder(Small(one, two, three, four)) == [one, two, three, four];
  }

  lemma LeafTree(n: Node)
    ensures var t := T(Nil, n, Nil); Inorder(t) == [n] && Nodes(t) == {n} && Height(t) == 1 && Distinct(t) && Balanced(t) && Clean(t)
  {
  }

  lemma SmallNodes(one: Node, two: Node, three: Node, four: Node)
    ensures Nodes(Small(one, two, three, four)) == {one, two, three, four}
  {
    LeafTree(one);
    LeafTree(three);
    assert Nodes(T(T(Nil, three, Nil), four, Nil)) == {three, four};
  }

  /** Erasing 4, whose only child is on the left while it hangs on the right, does not take it out. */
  method SmallErase() returns (one: Node, two: Node, three: Node, four: Node, root: Node?)
    ensures fresh({one, two, three, four})
    ensures one.obj == 1 && two.obj == 2 && three.obj == 3 && four.obj == 4
    ensures !exists s' :: Root(s') == root && Erased(Small(one, two, three, four), s', four)
  {
    hide Avl, Small, Nodes, Linked, Erased, one.At, Inorder, Plug;
    one := new Node(1);
    two := new Node(2);
    three := new Node(3);
    four := new Node(4);
    one.pf, three.pf, four.pf := two, four, two;
    two.pl, two.pr, four.pl := one, four, three;
    two.hgt, four.hgt := 3, 2;
    ghost var t, c, s := Small(one, two, three, four), InR(Top, T(Nil, one, Nil), two), T(T(Nil, three, Nil), four, Nil);
    SmallIsAvl(one, two, three, four);
    SmallNodes(one, two, three, four);
    ghost var t';
    root, t' := two.EraseImp(four, t, c, s);
  }
}
