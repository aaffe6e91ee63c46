/** Merging two binary trees: where both trees have a node the merged tree
    holds the sum of their values, where only one has a node the merged tree
    takes that tree's subtree as it is. */
module MergeBinaryTrees {

  import opened Wrappers

  /** `Node(data)` with its `left` and `right` children; `None` is `Nil`. */
  datatype Tree = Nil | Node(left: Tree, data: int, right: Tree)

  /** `merge(t1, t2)`: empty only when both inputs are, and holding all of
      both trees' values. */
  function Merge(t1: Tree, t2: Tree): (r: Tree)
    ensures r == Nil <==> t1 == Nil && t2 == Nil
    ensures Sum(r) == Sum(t1) + Sum(t2)
  {
    if t1 == Nil then t2
    else if t2 == Nil then t1
    else Node(Merge(t1.left, t2.left), t1.data + t2.data, Merge(t1.right, t2.right))
  }

  /** A position in a tree: the turns from the root, `false` for left and
      `true` for right. */
  type Position = seq<bool>

  /** The value of the node at position `p`, if there is one. */
  function At(t: Tree, p: Position): Option<int>
    decreases |p|
  {
    if t == Nil then None
    else if p == [] then Some(t.data)
    else At(if p[0] then t.right else t.left, p[1..])
  }

  /** The value a merged position should hold: the sum of the values present. */
  function Plus(x: Option<int>, y: Option<int>): Option<int> {
    match (x, y)
    case (None, _) => y
    case (_, None) => x
    case (Some(a), Some(b)) => Some(a + b)
  }

  /** The sum of all values of a tree. */
  function Sum(t: Tree): int {
    if t == Nil then 0 else Sum(t.left) + t.data + Sum(t.right)
  }

  /** An empty tree leaves the other tree as it is, on either side. */
  lemma MergeNil(t: Tree)
    ensures Merge(Nil, t) == t && Merge(t, Nil) == t
  {
  }

  /** At every position the merged tree has a node exactly when one of the
      inputs has, and its value is the sum of the values the inputs have there. */
  lemma {:induction false} MergeAt(t1: Tree, t2: Tree, p: Position)
    ensures At(Merge(t1, t2), p) == Plus(At(t1, p), At(t2, p))
    decreases |p|
  {
    if t1 != Nil && t2 != Nil && p != [] {
      if p[0] {
        MergeAt(t1.right, t2.right, p[1..]);
      } else {
        MergeAt(t1.left, t2.left, p[1..]);
      }
    }
  }

  /** The shape half of `MergeAt`. */
  lemma MergeShape(t1: Tree, t2: Tree, p: Position)
    ensures At(Merge(t1, t2), p).Some? <==> At(t1, p).Some? || At(t2, p).Some?
  {
    MergeAt(t1, t2, p);
  }

  /** A tree is determined by its values at all positions. */
  lemma {:induction false} AtDetermines(s: Tree, t: Tree)
    requires forall p :: At(s, p) == At(t, p)
    ensures s == t
  {
    assert At(s, []) == At(t, []);
    if s != Nil {
      forall p ensures At(s.left, p) == At(t.left, p) && At(s.right, p) == At(t.right, p) {
        assert At(s, [false] + p) == At(t, [false] + p);
        assert At(s, [true] + p) == At(t, [true] + p);
        assert ([false] + p)[1..] == p && ([true] + p)[1..] == p;
      }
      AtDetermines(s.left, t.left);
      AtDetermines(s.right, t.right);
    }
  }

  /** So the positionwise description is a complete specification: any tree
      with those values at those positions is the merge. */
  lemma MergeUnique(t1: Tree, t2: Tree, t: Tree)
    requires forall p :: At(t, p) == Plus(At(t1, p), At(t2, p))
    ensures t == Merge(t1, t2)
  {
    forall p ensures At(t, p) == At(Merge(t1, t2), p) {
      MergeAt(t1, t2, p);
    }
    AtDetermines(t, Merge(t1, t2));
  }

  /** The order of the two trees does not matter. */
  lemma {:induction false} MergeComm(t1: Tree, t2: Tree)
    ensures Merge(t1, t2) == Merge(t2, t1)
  {
    if t1 != Nil && t2 != Nil {
      MergeComm(t1.left, t2.left);
      MergeComm(t1.right, t2.right);
    }
  }

  /** Merging three trees gives the same tree whichever pair is merged first. */
  lemma {:induction false} MergeAssoc(t1: Tree, t2: Tree, t3: Tree)
    ensures Merge(Merge(t1, t2), t3) == Merge(t1, Merge(t2, t3))
  {
    if t1 != Nil && t2 != Nil && t3 != Nil {
      MergeAssoc(t1.left, t2.left, t3.left);
      MergeAssoc(t1.right, t2.right, t3.right);
    }
  }

  function Leaf(data: int): Tree {
    Node(Nil, data, Nil)
  }

  /** The demonstration trees: 4 over (5 over 1, 4) and 5 over (8 over 3)
      merge into 9 over (13 over 4, 4). */
  lemma Example()
    ensures Merge(Node(Node(Leaf(1), 5, Nil), 4, Leaf(4)), Node(Node(Leaf(3), 8, Nil), 5, Nil))
         == Node(Node(Leaf(4), 13, Nil), 9, Leaf(4))
  {
  }
}
