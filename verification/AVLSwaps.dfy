/**
  Exchanging the places of two nodes (AVLNode::swapPosition).
 */
module AVLSwaps {
  import opened AVLNodes
  import opened AVLShapes
  import opened AVLHeap

  /** Child and parent pointers agree. */
  ghost predicate Agree(s: set<AVLNode>, root: AVLNode?)
    reads s
  {
    forall p | p in s ::
      && (p.left != null ==> p.left in s && p.left.parent == p && p.left != p.right)
      && (p.right != null ==> p.right in s && p.right.parent == p)
      && (p.parent == null <==> root == p)
      && (p.parent != null ==>
          p.parent in s && (p.parent.left == p || p.parent.right == p) && p.parent != p && p.parent.parent != p)
  }

  function Image(p: AVLNode, a: AVLNode, b: AVLNode): AVLNode {
    if p == a then b else if p == b then a else p
  }

  function ImageOf(p: AVLNode?, a: AVLNode, b: AVLNode): AVLNode? {
    if p == a then b else if p == b then a else p
  }

  /** The fields of some nodes at one moment. */
  datatype Links = Links(left: AVLNode?, right: AVLNode?, parent: AVLNode?, depth: int)

  ghost function Snapshot(s: set<AVLNode>): map<AVLNode, Links>
    reads s
  {
    map p | p in s :: Links(p.left, p.right, p.parent, p.depth)
  }

  /** Every pointer is renamed, and every node has the pointers of the node whose place it takes. */
  ghost predicate Exchanged(was: map<AVLNode, Links>, a: AVLNode, b: AVLNode)
    reads was.Keys
  {
    && (forall p | p in was && Image(p, a, b) in was :: Image(p, a, b).left == ImageOf(was[p].left, a, b))
    && (forall p | p in was && Image(p, a, b) in was :: Image(p, a, b).right == ImageOf(was[p].right, a, b))
    && (forall p | p in was && Image(p, a, b) in was :: Image(p, a, b).parent == ImageOf(was[p].parent, a, b))
    && (forall p | p in was && p != a && p != b :: p.depth == was[p].depth)
  }

  /** First phase: the fields of the two nodes.  Neighbours point at each other afterwards; the depth
      stays behind when `b` is a child of `a`. */
  method SwapFields(a: AVLNode, b: AVLNode, ghost s: set<AVLNode>, ghost root: AVLNode?)
    requires Agree(s, root) && a in s && b in s && a != b
    modifies a, b
    ensures a.left == ImageOf(old(b.left), a, b) && b.left == ImageOf(old(a.left), a, b)
    ensures a.right == ImageOf(old(b.right), a, b) && b.right == ImageOf(old(a.right), a, b)
    ensures a.parent == ImageOf(old(b.parent), a, b) && b.parent == ImageOf(old(a.parent), a, b)
    ensures if old(b.parent) == a then a.depth == old(a.depth) && b.depth == old(b.depth)
            else a.depth == old(b.depth) && b.depth == old(a.depth)
  {
    if a.parent != b && b.parent != a {
      a.parent, b.parent := b.parent, a.parent;
      a.left, b.left := b.left, a.left;
      a.right, b.right := b.right, a.right;
      a.depth, b.depth := b.depth, a.depth;
    } else if a.parent == b {
      a.parent := b.parent;
      b.parent := a;
      if b.left == a {
        b.left := a.left;
        a.left := b;
        a.right, b.right := b.right, a.right;
      } else {
        b.right := a.right;
        a.right := b;
        a.left, b.left := b.left, a.left;
      }
      a.depth, b.depth := b.depth, a.depth;
    } else {
      b.parent := a.parent;
      a.parent := b;
      if a.left == b {
        a.left := b.left;
        b.left := a;
        a.right, b.right := b.right, a.right;
      } else {
        a.right := b.right;
        b.right := a;
        a.left, b.left := b.left, a.left;
      }
    }
  }

  predicate IsChild(q: AVLNode, p: AVLNode)
    reads p
  {
    q == p.left || q == p.right
  }

  /** Second phase: the children of both nodes learn their new parents. */
  method AdoptChildren(a: AVLNode, b: AVLNode, ghost s: set<AVLNode>)
    requires a in s && b in s && a.left != a && a.right != a && b.left != b && b.right != b
    requires forall q | IsChild(q, a) || IsChild(q, b) :: q in s
    requires forall q | q in s :: !(IsChild(q, a) && IsChild(q, b))
    modifies s
    ensures forall q | q in s ::
              && q.left == old(q.left) && q.right == old(q.right) && q.depth == old(q.depth)
              && q.parent == if old(IsChild(q, a)) then a else if old(IsChild(q, b)) then b else old(q.parent)
  {
    if a.left != null { a.left.parent := a; }
    if a.right != null { a.right.parent := a; }
    if b.left != null { b.left.parent := b; }
    if b.right != null { b.right.parent := b; }
  }

  /** Third phase: the pointers from above, given the sides on which the two nodes used to hang. */
  method HangBoth(a: AVLNode, aLeft: bool, aRight: bool, b: AVLNode, bLeft: bool, bRight: bool,
                  rootIn: AVLNode?, ghost s: set<AVLNode>)
    returns (root: AVLNode?)
    requires a in s && b in s && a != b
    requires bLeft || bRight ==> a.parent != null && a.parent in s
    requires aLeft || aRight ==> b.parent != null && b.parent in s
    requires !(aLeft && aRight) && !(bLeft && bRight)
    requires (aLeft && bLeft) || (aRight && bRight) ==> a.parent != b.parent
    modifies s
    ensures root == if aLeft || aRight then if bLeft || bRight then rootIn else a else b
    ensures forall p | p in s ::
              && p.parent == old(p.parent) && p.depth == old(p.depth)
              && p.left == (if aLeft && p == old(b.parent) then b else if bLeft && p == old(a.parent) then a
                            else old(p.left))
              && p.right == (if aRight && p == old(b.parent) then b else if bRight && p == old(a.parent) then a
                             else old(p.right))
  {
    root := rootIn;
    if bLeft {
      a.parent.left := a;
    } else if bRight {
      a.parent.right := a;
    } else {
      root := a;
    }

    if aLeft {
      b.parent.left := b;
    } else if aRight {
      b.parent.right := b;
    } else {
      root := b;
    }
  }

  /** Both phases that leave the pointers from above alone. */
  method ExchangeBelow(a: AVLNode, b: AVLNode, ghost root: AVLNode?, ghost s: set<AVLNode>)
    requires Agree(s, root) && a in s && b in s && a != b
    requires forall p | p in s :: allocated(p)
    modifies s
    ensures forall p | p in s && p != a && p != b ::
              && p.left == old(p.left) && p.right == old(p.right) && p.depth == old(p.depth)
              && p.parent == ImageOf(old(p.parent), a, b)
    ensures a.left == ImageOf(old(b.left), a, b) && b.left == ImageOf(old(a.left), a, b)
    ensures a.right == ImageOf(old(b.right), a, b) && b.right == ImageOf(old(a.right), a, b)
    ensures a.parent == ImageOf(old(b.parent), a, b) && b.parent == ImageOf(old(a.parent), a, b)
    ensures if old(b.parent) == a then a.depth == old(a.depth) && b.depth == old(b.depth)
            else a.depth == old(b.depth) && b.depth == old(a.depth)
  {
    SwapFields(a, b, s, root);
    AdoptChildren(a, b, s);
  }

  /** The pointers to children on one side, before (`child`) and after (`below`, `now`) the two steps of the
      exchange: first the two nodes get each other's pointers, then their parents point at the other one. */
  ghost predicate SideStep(child: map<AVLNode, AVLNode?>, parent: map<AVLNode, AVLNode?>, below: map<AVLNode, AVLNode?>,
                           a: AVLNode, b: AVLNode)
  {
    && Paired(child, parent) && child.Keys == below.Keys && a in child && b in child && a != b
    && forall p | p in below ::
         below[p] == if p == a then ImageOf(child[b], a, b) else if p == b then ImageOf(child[a], a, b) else child[p]
  }

  /** Child and parent pointers agree on one side. */
  ghost predicate Paired(child: map<AVLNode, AVLNode?>, parent: map<AVLNode, AVLNode?>) {
    && child.Keys == parent.Keys
    && (forall p | p in child && child[p] != null :: child[p] in parent && parent[child[p]] == p)
    && (forall p | p in parent && parent[p] != null :: parent[p] in child && parent[p] != p)
  }

  lemma {:induction false} PairedNow(s: set<AVLNode>, root: AVLNode?, was: map<AVLNode, Links>)
    requires Agree(s, root) && was == Snapshot(s)
    ensures Paired(Lefts(was), Parents(was)) && Paired(Rights(was), Parents(was))
  {
  }

  /** Whether a node is its parent's child on this side. */
  predicate Here(child: map<AVLNode, AVLNode?>, parent: map<AVLNode, AVLNode?>, p: AVLNode)
    requires p in parent
  {
    parent[p] != null && parent[p] in child && child[parent[p]] == p
  }

  lemma {:induction false} SideHung(child: map<AVLNode, AVLNode?>, parent: map<AVLNode, AVLNode?>,
                                    below: map<AVLNode, AVLNode?>,
                                    now: map<AVLNode, AVLNode?>, a: AVLNode, b: AVLNode)
    requires SideStep(child, parent, below, a, b) && now.Keys == child.Keys
    requires forall p | p in now ::
               now[p] == if Here(child, parent, a) && p == ImageOf(parent[a], a, b) then b
                         else if Here(child, parent, b) && p == ImageOf(parent[b], a, b) then a
                         else below[p]
    ensures forall p | p in child && Image(p, a, b) in now :: now[Image(p, a, b)] == ImageOf(child[p], a, b)
  {
    forall p | p in child && Image(p, a, b) in now ensures now[Image(p, a, b)] == ImageOf(child[p], a, b) {
      SideHungAt(child, parent, below, now, a, b, p);
    }
  }

  lemma {:induction false} SideHungAt(child: map<AVLNode, AVLNode?>, parent: map<AVLNode, AVLNode?>,
                                      below: map<AVLNode, AVLNode?>,
                                      now: map<AVLNode, AVLNode?>, a: AVLNode, b: AVLNode, p: AVLNode)
    requires SideStep(child, parent, below, a, b) && now.Keys == child.Keys && p in child
    requires var q := Image(p, a, b);
             now[q] == if Here(child, parent, a) && q == ImageOf(parent[a], a, b) then b
                       else if Here(child, parent, b) && q == ImageOf(parent[b], a, b) then a
                       else below[q]
    ensures now[Image(p, a, b)] == ImageOf(child[p], a, b)
  {
    assert child[p] == a ==> Here(child, parent, a) && parent[a] == p;
    assert child[p] == b ==> Here(child, parent, b) && parent[b] == p;
    assert Here(child, parent, a) && parent[a] == p ==> child[p] == a;
    assert Here(child, parent, b) && parent[b] == p ==> child[p] == b;
  }

  ghost function Lefts(was: map<AVLNode, Links>): map<AVLNode, AVLNode?> {
    map p | p in was :: was[p].left
  }

  ghost function Rights(was: map<AVLNode, Links>): map<AVLNode, AVLNode?> {
    map p | p in was :: was[p].right
  }

  ghost function Parents(was: map<AVLNode, Links>): map<AVLNode, AVLNode?> {
    map p | p in was :: was[p].parent
  }

  /** The first two phases between two moments. */
  ghost predicate BelowIn(was: map<AVLNode, Links>, mid: map<AVLNode, Links>, a: AVLNode, b: AVLNode) {
    && was.Keys == mid.Keys && a in was && b in was && a != b
    && SideStep(Lefts(was), Parents(was), Lefts(mid), a, b)
    && SideStep(Rights(was), Parents(was), Rights(mid), a, b)
    && (forall p | p in was ::
          mid[p].parent == ImageOf(was[if p == a then b else if p == b then a else p].parent, a, b))
    && (forall p | p in was && p != a && p != b :: mid[p].depth == was[p].depth)
  }

  /** The third phase between two moments. */
  ghost predicate HungIn(was: map<AVLNode, Links>, mid: map<AVLNode, Links>, now: map<AVLNode, Links>, a: AVLNode,
                         b: AVLNode) {
    && was.Keys == mid.Keys == now.Keys && a in was && b in was
    && (forall p | p in now :: now[p].parent == mid[p].parent && now[p].depth == mid[p].depth)
    && (forall p | p in now ::
          now[p].left == if Here(Lefts(was), Parents(was), a) && p == mid[b].parent then b
                         else if Here(Lefts(was), Parents(was), b) && p == mid[a].parent then a
                         else mid[p].left)
    && (forall p | p in now ::
          now[p].right == if Here(Rights(was), Parents(was), a) && p == mid[b].parent then b
                          else if Here(Rights(was), Parents(was), b) && p == mid[a].parent then a
                          else mid[p].right)
  }

  lemma {:induction false} AllHung(was: map<AVLNode, Links>, mid: map<AVLNode, Links>, now: map<AVLNode, Links>,
                                   a: AVLNode, b: AVLNode)
    requires BelowIn(was, mid, a, b) && HungIn(was, mid, now, a, b)
    ensures forall p | p in was && Image(p, a, b) in now ::
              && now[Image(p, a, b)].left == ImageOf(was[p].left, a, b)
              && now[Image(p, a, b)].right == ImageOf(was[p].right, a, b)
              && now[Image(p, a, b)].parent == ImageOf(was[p].parent, a, b)
    ensures forall p | p in was && p != a && p != b :: now[p].depth == was[p].depth
  {
    LeftsHung(was, mid, now, a, b);
    RightsHung(was, mid, now, a, b);
  }

  lemma {:induction false} LeftsHung(was: map<AVLNode, Links>, mid: map<AVLNode, Links>, now: map<AVLNode, Links>,
                                     a: AVLNode, b: AVLNode)
    requires BelowIn(was, mid, a, b) && HungIn(was, mid, now, a, b)
    ensures forall p | p in was && Image(p, a, b) in now :: now[Image(p, a, b)].left == ImageOf(was[p].left, a, b)
  {
    SideHung(Lefts(was), Parents(was), Lefts(mid), Lefts(now), a, b);
    forall p | p in was && Image(p, a, b) in now ensures now[Image(p, a, b)].left == ImageOf(was[p].left, a, b) {
      assert Lefts(now)[Image(p, a, b)] == ImageOf(Lefts(was)[p], a, b);
    }
  }

  lemma {:induction false} RightsHung(was: map<AVLNode, Links>, mid: map<AVLNode, Links>, now: map<AVLNode, Links>,
                                      a: AVLNode, b: AVLNode)
    requires BelowIn(was, mid, a, b) && HungIn(was, mid, now, a, b)
    ensures forall p | p in was && Image(p, a, b) in now :: now[Image(p, a, b)].right == ImageOf(was[p].right, a, b)
  {
    SideHung(Rights(was), Parents(was), Rights(mid), Rights(now), a, b);
    forall p | p in was && Image(p, a, b) in now ensures now[Image(p, a, b)].right == ImageOf(was[p].right, a, b) {
      assert Rights(now)[Image(p, a, b)] == ImageOf(Rights(was)[p], a, b);
    }
  }

  /** The first two phases, with the moments before and after them. */
  method BeginExchange(a: AVLNode, b: AVLNode, ghost root: AVLNode?, ghost s: set<AVLNode>)
    returns (ghost was: map<AVLNode, Links>, ghost mid: map<AVLNode, Links>)
    requires Agree(s, root) && a in s && b in s && a != b
    requires forall p | p in s :: allocated(p)
    modifies s
    ensures was == old(Snapshot(s)) && mid == Snapshot(s) && BelowIn(was, mid, a, b)
    ensures if old(b.parent) == a then a.depth == old(a.depth) && b.depth == old(b.depth)
            else a.depth == old(b.depth) && b.depth == old(a.depth)
  {
    was := Snapshot(s);
    PairedNow(s, root, was);
    ExchangeBelow(a, b, root, s);
    mid := Snapshot(s);
    CrossedBelow(was, mid, a, b);
  }

  /** What the first two phases change, node by node. */
  ghost predicate Crossed(was: map<AVLNode, Links>, mid: map<AVLNode, Links>, a: AVLNode, b: AVLNode)
    requires a in was && b in was && a in mid && b in mid
  {
    && was.Keys == mid.Keys && a != b
    && (forall p | p in was && p != a && p != b ::
          mid[p] == was[p].(parent := ImageOf(was[p].parent, a, b)))
    && mid[a].left == ImageOf(was[b].left, a, b) && mid[b].left == ImageOf(was[a].left, a, b)
    && mid[a].right == ImageOf(was[b].right, a, b) && mid[b].right == ImageOf(was[a].right, a, b)
    && mid[a].parent == ImageOf(was[b].parent, a, b) && mid[b].parent == ImageOf(was[a].parent, a, b)
  }

  lemma {:induction false} CrossedBelow(was: map<AVLNode, Links>, mid: map<AVLNode, Links>, a: AVLNode, b: AVLNode)
    requires a in was && b in was && a in mid && b in mid && Crossed(was, mid, a, b)
    requires Paired(Lefts(was), Parents(was)) && Paired(Rights(was), Parents(was))
    ensures BelowIn(was, mid, a, b)
  {
  }

  /** The third phase. */
  method EndExchange(a: AVLNode, aLeft: bool, aRight: bool, b: AVLNode, bLeft: bool, bRight: bool,
                     rootIn: AVLNode?, ghost s: set<AVLNode>, ghost was: map<AVLNode, Links>,
                         ghost mid: map<AVLNode, Links>)
    returns (root: AVLNode?)
    requires mid == Snapshot(s) && BelowIn(was, mid, a, b)
    requires aLeft == Here(Lefts(was), Parents(was), a) && aRight == Here(Rights(was), Parents(was), a)
    requires bLeft == Here(Lefts(was), Parents(was), b) && bRight == Here(Rights(was), Parents(was), b)
    requires !(aLeft && aRight) && !(bLeft && bRight)
    modifies s
    ensures HungIn(was, mid, Snapshot(s), a, b)
    ensures root == if aLeft || aRight then if bLeft || bRight then rootIn else a else b
    ensures a.depth == old(a.depth) && b.depth == old(b.depth)
  {
    assert mid[a].parent == a.parent && mid[b].parent == b.parent;
    root := HangBoth(a, aLeft, aRight, b, bLeft, bRight, rootIn, s);
  }

  lemma {:induction false} AgreeAt(s: set<AVLNode>, root: AVLNode?, p: AVLNode)
    requires Agree(s, root) && p in s
    ensures p.parent != null ==> p.parent in s && (p.parent.left != p || p.parent.right != p)
    ensures p.parent != null ==> p.parent.left == p || p.parent.right == p
    ensures p.parent == null <==> root == p
    ensures var was := Snapshot(s);
            && Here(Lefts(was), Parents(was), p) == (p.parent != null && p.parent.left == p)
            && Here(Rights(was), Parents(was), p) == (p.parent != null && p.parent.right == p)
  {
  }

  /** swapPosition as a whole. */
  method Exchange(a: AVLNode, b: AVLNode, rootIn: AVLNode?, ghost s: set<AVLNode>) returns (root: AVLNode?)
    requires Agree(s, rootIn) && a in s && b in s && a != b
    requires forall p | p in s :: allocated(p)
    modifies s
    ensures Exchanged(old(Snapshot(s)), a, b)
    ensures root == ImageOf(rootIn, a, b)
    ensures if old(b.parent) == a then a.depth == old(a.depth) && b.depth == old(b.depth)
            else a.depth == old(b.depth) && b.depth == old(a.depth)
  {
    var aLeft := a.parent != null && a.parent.left == a;
    var aRight := a.parent != null && a.parent.right == a;
    var bLeft := b.parent != null && b.parent.left == b;
    var bRight := b.parent != null && b.parent.right == b;
    AgreeAt(s, rootIn, a);
    AgreeAt(s, rootIn, b);
    ghost var was, mid := BeginExchange(a, b, rootIn, s);
    root := EndExchange(a, aLeft, aRight, b, bLeft, bRight, rootIn, s, was, mid);
    AllHung(was, mid, Snapshot(s), a, b);
  }
}
