/** The flat-array expression tree: nodes stored in one array, composite
    children referring to other nodes by index. The constructors merge the
    operands' arrays, shifting the right operand's indices past the left
    one, and append the new root; `lhs_most` walks the left spine. */
module ExpressionTree {
  import opened Wrappers

  // ---------------------------------------------------------------------
  // Nodes

  datatype NodeSubtype = InvalidSubtype | CompositeOperator | ForLoopIndex | DenseArray | ValueScalar

  datatype NumericType = InvalidNumericType | IntType | OtherNumericType(code: int)

  /** A child slot of a node (`tree_node`): the subtype tag, the element
      type and one payload field per kind of leaf. An array is its handle,
      a scalar the bits of its value. */
  datatype TreeNode = TreeNode(subtype: NodeSubtype, dtype: NumericType, nodeIndex: nat,
                               forIdx: int, arrayRef: int, vscalar: int)

  /** What a child slot can be filled with: the arguments of the `fill`
      overloads. */
  datatype Fillable =
    | InvalidNode
    | NodeIndex(index: nat)
    | ForIdx(level: int)
    | ArrayRef(handle: int, elementType: NumericType)
    | ScalarValue(values: int, scalarType: NumericType)

  /** The operands the constructors accept as leaves; a node index only
      comes from the constructors themselves. */
  predicate IsLeaf(p: Fillable) {
    !p.NodeIndex?
  }

  /** The payload a child slot holds, read according to its tag. */
  function Read(x: TreeNode): Fillable {
    match x.subtype
    case InvalidSubtype => InvalidNode
    case CompositeOperator => NodeIndex(x.nodeIndex)
    case ForLoopIndex => ForIdx(x.forIdx)
    case DenseArray => ArrayRef(x.arrayRef, x.dtype)
    case ValueScalar => ScalarValue(x.vscalar, x.dtype)
  }

  /** The element type a filled slot gets: that of an array or scalar,
      invalid for everything else. */
  function TypeOf(p: Fillable): NumericType {
    match p
    case ArrayRef(_, t) => t
    case ScalarValue(_, t) => t
    case _ => InvalidNumericType
  }

  /** `fill`: sets the tag matching the payload, the element type and the
      payload's own field. The node has one field per payload kind, and
      the other payload fields keep what they held. */
  function Fill(x: TreeNode, p: Fillable): (y: TreeNode)
    ensures Read(y) == p && y.dtype == TypeOf(p)
    ensures y.subtype == CompositeOperator <==> p.NodeIndex?
    ensures !p.NodeIndex? ==> y.nodeIndex == x.nodeIndex
    ensures !p.ForIdx? ==> y.forIdx == x.forIdx
    ensures !p.ArrayRef? ==> y.arrayRef == x.arrayRef
    ensures !p.ScalarValue? ==> y.vscalar == x.vscalar
  {
    match p
    case InvalidNode => x.(subtype := InvalidSubtype, dtype := InvalidNumericType)
    case NodeIndex(i) => x.(subtype := CompositeOperator, dtype := InvalidNumericType, nodeIndex := i)
    case ForIdx(k) => x.(subtype := ForLoopIndex, dtype := InvalidNumericType, forIdx := k)
    case ArrayRef(h, t) => x.(subtype := DenseArray, dtype := t, arrayRef := h)
    case ScalarValue(v, t) => x.(dtype := t, subtype := ValueScalar, vscalar := v)
  }

  /** Filling twice keeps only the second payload: nothing of the first
      can be read back. */
  lemma FillOverwrites(x: TreeNode, p: Fillable, q: Fillable)
    ensures Read(Fill(Fill(x, p), q)) == q
    ensures Read(Fill(x, q)) == Read(Fill(Fill(x, p), q))
  {
  }

  datatype OpFamily = UnaryTypeFamily | BinaryTypeFamily | OtherFamily(code: int)

  datatype OpType = Sub | Negate | Assign | OtherOp(code: int)

  datatype OpElement = OpElement(family: OpFamily, kind: OpType)

  datatype Node = Node(lhs: TreeNode, op: OpElement, rhs: TreeNode)

  /** An expression tree. The context is a handle, `None` for the null
      context of the context-free leaf constructors. */
  datatype Expr = Expr(tree: seq<Node>, root: nat, context: Option<int>, dtype: NumericType, shape: seq<int>)

  /** The unspecified content of a freshly sized `tree_`: the node types'
      default constructors initialize nothing. */
  const BlankSlot: TreeNode := TreeNode(InvalidSubtype, InvalidNumericType, 0, 0, 0, 0)
  const Blank: Node := Node(BlankSlot, OpElement(OtherFamily(0), OtherOp(0)), BlankSlot)

  // ---------------------------------------------------------------------
  // Well-formedness

  predicate ChildBelow(x: TreeNode, n: nat) {
    x.subtype == CompositeOperator ==> x.nodeIndex < n
  }

  /** Every composite child index, and the root, is in range. */
  predicate InRange(e: Expr) {
    && e.root < |e.tree|
    && forall i :: 0 <= i < |e.tree| ==> ChildBelow(e.tree[i].lhs, |e.tree|) && ChildBelow(e.tree[i].rhs, |e.tree|)
  }

  /** Every composite child comes before its parent: links strictly
      decrease, so the left spine ends. */
  predicate Ordered(tree: seq<Node>) {
    forall i :: 0 <= i < |tree| ==> ChildBelow(tree[i].lhs, i) && ChildBelow(tree[i].rhs, i)
  }

  /** A child slot with its composite index moved by `k`. */
  function Shift(x: TreeNode, k: nat): (y: TreeNode)
    ensures Read(y) == (if x.subtype == CompositeOperator then NodeIndex(x.nodeIndex + k) else Read(x))
    ensures y.subtype == x.subtype && y.dtype == x.dtype
  {
    if x.subtype == CompositeOperator then x.(nodeIndex := x.nodeIndex + k) else x
  }

  function ShiftNode(n: Node, k: nat): Node {
    Node(Shift(n.lhs, k), n.op, Shift(n.rhs, k))
  }

  // ---------------------------------------------------------------------
  // Building the array

  /** `std::copy(src.begin(), src.end(), a + at)`. */
  method CopyInto(a: array<Node>, src: seq<Node>, at: nat)
    requires at + |src| <= a.Length
    modifies a
    ensures forall i :: 0 <= i < a.Length ==> a[i] == if at <= i < at + |src| then src[i - at] else old(a[i])
  {
    var k := 0;
    while k < |src|
      invariant 0 <= k <= |src|
      invariant forall i :: 0 <= i < a.Length ==> a[i] == if at <= i < at + k then src[i - at] else old(a[i])
    {
      a[at + k] := src[k];
      k := k + 1;
    }
  }

  /** The three statements that fill the node at `r`. */
  method FillRoot(a: array<Node>, r: nat, lhs: Fillable, op: OpElement, rhs: Fillable)
    requires r < a.Length
    modifies a
    ensures forall i :: 0 <= i < a.Length && i != r ==> a[i] == old(a[i])
    ensures Read(a[r].lhs) == lhs && a[r].op == op && Read(a[r].rhs) == rhs
    ensures a[r].lhs.subtype == CompositeOperator <==> lhs.NodeIndex?
    ensures a[r].rhs.subtype == CompositeOperator <==> rhs.NodeIndex?
  {
    a[r] := a[r].(lhs := Fill(a[r].lhs, lhs));
    a[r] := a[r].(op := op);
    a[r] := a[r].(rhs := Fill(a[r].rhs, rhs));
  }

  // ---------------------------------------------------------------------
  // The constructors

  /** The loop of the tree/tree constructor: every composite child in
      `[from, to)` gets `k` added to its index; nothing else changes. */
  method ShiftRange(a: array<Node>, from: nat, to: nat, k: nat)
    requires from <= to <= a.Length
    modifies a
    ensures forall j :: 0 <= j < a.Length ==> a[j] == if from <= j < to then ShiftNode(old(a[j]), k) else old(a[j])
  {
    var i := from;
    while i < to
      invariant from <= i <= to
      invariant forall j :: 0 <= j < a.Length ==> a[j] == if from <= j < i then ShiftNode(old(a[j]), k) else old(a[j])
    {
      if a[i].lhs.subtype == CompositeOperator {
        a[i] := a[i].(lhs := a[i].lhs.(nodeIndex := a[i].lhs.nodeIndex + k));
      }
      if a[i].rhs.subtype == CompositeOperator {
        a[i] := a[i].(rhs := a[i].rhs.(nodeIndex := a[i].rhs.nodeIndex + k));
      }
      i := i + 1;
    }
  }

  /** The leaf/leaf constructors: one node, the root, holding both
      leaves. */
  function LeafLeaf(lhs: Fillable, rhs: Fillable, op: OpElement, context: Option<int>,
                    dtype: NumericType, shape: seq<int>): (e: Expr)
    requires IsLeaf(lhs) && IsLeaf(rhs)
    ensures |e.tree| == 1 && e.root == 0 && e.context == context && e.dtype == dtype && e.shape == shape
    ensures Read(e.tree[0].lhs) == lhs && e.tree[0].op == op && Read(e.tree[0].rhs) == rhs
    ensures InRange(e) && Ordered(e.tree)
  {
    var n := Blank.(lhs := Fill(Blank.lhs, lhs));
    var n := n.(op := op);
    var n := n.(rhs := Fill(n.rhs, rhs));
    Expr([n], 0, context, dtype, shape)
  }

  /** The constructor from two loop indices: null context, the shape
      `(1)` and no numeric type. */
  function IndexPair(lhs: int, rhs: int, op: OpElement): (e: Expr)
    ensures e.context == None && e.shape == [1] && e.dtype == InvalidNumericType && |e.tree| == 1 && e.root == 0
    ensures Read(e.tree[0].lhs) == ForIdx(lhs) && e.tree[0].op == op && Read(e.tree[0].rhs) == ForIdx(rhs)
    ensures InRange(e) && Ordered(e.tree)
  {
    LeafLeaf(ForIdx(lhs), ForIdx(rhs), op, None, InvalidNumericType, [1])
  }

  /** The constructors from a loop index and a scalar, either way round:
      null context, the shape `(1)` and the given numeric type. */
  function Unbound(lhs: Fillable, rhs: Fillable, op: OpElement, dtype: NumericType): (e: Expr)
    requires (lhs.ForIdx? && rhs.ScalarValue?) || (lhs.ScalarValue? && rhs.ForIdx?)
    ensures e.context == None && e.shape == [1] && e.dtype == dtype && |e.tree| == 1 && e.root == 0
    ensures Read(e.tree[0].lhs) == lhs && e.tree[0].op == op && Read(e.tree[0].rhs) == rhs
    ensures InRange(e) && Ordered(e.tree)
  {
    LeafLeaf(lhs, rhs, op, None, dtype, [1])
  }

  /** The tree/leaf constructor: the left operand's nodes unchanged, then
      a root whose left child is the operand's root. */
  method TreeLeaf(lhs: Expr, rhs: Fillable, op: OpElement, context: int, dtype: NumericType, shape: seq<int>)
    returns (e: Expr)
    requires IsLeaf(rhs)
    ensures |e.tree| == |lhs.tree| + 1 && e.root == |lhs.tree|
    ensures e.context == Some(context) && e.dtype == dtype && e.shape == shape
    ensures e.tree[..|lhs.tree|] == lhs.tree
    ensures Read(e.tree[e.root].lhs) == NodeIndex(lhs.root) && e.tree[e.root].op == op
    ensures Read(e.tree[e.root].rhs) == rhs
    ensures InRange(lhs) ==> InRange(e)
    ensures InRange(lhs) && Ordered(lhs.tree) ==> Ordered(e.tree)
    ensures InRange(lhs) && Ordered(lhs.tree) ==>
      Follow(e.tree, e.tree[e.root]) == Follow(lhs.tree, lhs.tree[lhs.root])
  {
    var n := |lhs.tree|;
    var a := new Node[n + 1](_ => Blank);
    CopyInto(a, lhs.tree, 0);
    FillRoot(a, n, NodeIndex(lhs.root), op, rhs);
    e := Expr(a[..], n, Some(context), dtype, shape);
    assert e.tree[..n] == lhs.tree;
    ExtendedRanges(lhs.tree, e.tree);
    if InRange(lhs) && Ordered(lhs.tree) {
      SpineOfMerged(lhs, e);
    }
  }

  /** The leaf/tree constructor: the right operand's nodes unchanged, then
      a root whose right child is the operand's root. */
  method LeafTree(lhs: Fillable, rhs: Expr, op: OpElement, context: int, dtype: NumericType, shape: seq<int>)
    returns (e: Expr)
    requires IsLeaf(lhs)
    ensures |e.tree| == |rhs.tree| + 1 && e.root == |rhs.tree|
    ensures e.context == Some(context) && e.dtype == dtype && e.shape == shape
    ensures e.tree[..|rhs.tree|] == rhs.tree
    ensures Read(e.tree[e.root].lhs) == lhs && e.tree[e.root].op == op
    ensures Read(e.tree[e.root].rhs) == NodeIndex(rhs.root)
    ensures InRange(rhs) ==> InRange(e)
    ensures InRange(rhs) && Ordered(rhs.tree) ==> Ordered(e.tree)
    ensures InRange(rhs) && Ordered(rhs.tree) ==> Follow(e.tree, e.tree[e.root]) == e.tree[e.root]
  {
    var n := |rhs.tree|;
    var a := new Node[n + 1](_ => Blank);
    CopyInto(a, rhs.tree, 0);
    FillRoot(a, n, lhs, op, NodeIndex(rhs.root));
    e := Expr(a[..], n, Some(context), dtype, shape);
    assert e.tree[..n] == rhs.tree;
    ExtendedRanges(rhs.tree, e.tree);
  }

  /** One more node after `tree`, with children below it, keeps the
      indices in range and ordered. */
  lemma ExtendedRanges(tree: seq<Node>, ext: seq<Node>)
    requires |ext| == |tree| + 1 && ext[..|tree|] == tree
    ensures (forall i :: 0 <= i < |tree| ==> ChildBelow(tree[i].lhs, |tree|) && ChildBelow(tree[i].rhs, |tree|)) &&
            ChildBelow(ext[|tree|].lhs, |ext|) && ChildBelow(ext[|tree|].rhs, |ext|) ==>
      forall i :: 0 <= i < |ext| ==> ChildBelow(ext[i].lhs, |ext|) && ChildBelow(ext[i].rhs, |ext|)
    ensures Ordered(tree) && ChildBelow(ext[|tree|].lhs, |tree|) && ChildBelow(ext[|tree|].rhs, |tree|) ==> Ordered(ext)
  {
    assert forall i :: 0 <= i < |tree| ==> ext[i] == tree[i];
  }

  /** The tree/tree constructor: the left operand's nodes, the right
      operand's nodes with every composite index moved past the left ones
      (the in-place loop), and the root joining both operands' roots. */
  method TreeTree(lhs: Expr, rhs: Expr, op: OpElement, context: int, dtype: NumericType, shape: seq<int>)
    returns (e: Expr)
    ensures |e.tree| == |lhs.tree| + |rhs.tree| + 1 && e.root == |e.tree| - 1
    ensures e.context == Some(context) && e.dtype == dtype && e.shape == shape
    ensures e.tree[..|lhs.tree|] == lhs.tree
    ensures forall j :: 0 <= j < |rhs.tree| ==> e.tree[|lhs.tree| + j] == ShiftNode(rhs.tree[j], |lhs.tree|)
    ensures Read(e.tree[e.root].lhs) == NodeIndex(lhs.root) && e.tree[e.root].op == op
    ensures Read(e.tree[e.root].rhs) == NodeIndex(|lhs.tree| + rhs.root)
    ensures InRange(lhs) && InRange(rhs) ==> InRange(e)
    ensures InRange(lhs) && InRange(rhs) && Ordered(lhs.tree) && Ordered(rhs.tree) ==> Ordered(e.tree)
    ensures InRange(lhs) && InRange(rhs) && Ordered(lhs.tree) && Ordered(rhs.tree) ==>
      Follow(e.tree, e.tree[e.root]) == Follow(lhs.tree, lhs.tree[lhs.root])
  {
    var lsize := |lhs.tree|;
    var a := new Node[lsize + |rhs.tree| + 1](_ => Blank);
    CopyInto(a, lhs.tree, 0);
    CopyInto(a, rhs.tree, lsize);
    var root := a.Length - 1;
    FillRoot(a, root, NodeIndex(lhs.root), op, NodeIndex(lsize + rhs.root));
    ShiftRange(a, lsize, root, lsize);
    e := Expr(a[..], root, Some(context), dtype, shape);
    assert e.tree[..lsize] == lhs.tree;
    MergedRanges(lhs, rhs, e.tree);
    if InRange(lhs) && InRange(rhs) && Ordered(lhs.tree) && Ordered(rhs.tree) {
      SpineOfMerged(lhs, e);
    }
  }

  /** The merged array keeps every index in range, and keeps children
      before their parents. */
  lemma MergedRanges(lhs: Expr, rhs: Expr, t: seq<Node>)
    requires |t| == |lhs.tree| + |rhs.tree| + 1 && t[..|lhs.tree|] == lhs.tree
    requires forall j :: 0 <= j < |rhs.tree| ==> t[|lhs.tree| + j] == ShiftNode(rhs.tree[j], |lhs.tree|)
    requires Read(t[|t| - 1].lhs) == NodeIndex(lhs.root) && Read(t[|t| - 1].rhs) == NodeIndex(|lhs.tree| + rhs.root)
    ensures InRange(lhs) && InRange(rhs) ==> InRange(Expr(t, |t| - 1, None, InvalidNumericType, []))
    ensures InRange(lhs) && InRange(rhs) && Ordered(lhs.tree) && Ordered(rhs.tree) ==> Ordered(t)
  {
    var n := |lhs.tree|;
    if InRange(lhs) && InRange(rhs) {
      forall i | 0 <= i < |t|
        ensures ChildBelow(t[i].lhs, |t|) && ChildBelow(t[i].rhs, |t|)
        ensures Ordered(lhs.tree) && Ordered(rhs.tree) ==> ChildBelow(t[i].lhs, i) && ChildBelow(t[i].rhs, i)
      {
        if i < n {
          assert t[i] == lhs.tree[i];
        } else if i < |t| - 1 {
          assert t[i] == ShiftNode(rhs.tree[i - n], n);
        }
      }
    }
  }

  /** `operator-`: a unary SUB root over the tree and an invalid right
      child, with the tree's type and shape. The context must be set. */
  method Minus(x: Expr) returns (e: Expr)
    requires x.context.Some?
    ensures |e.tree| == |x.tree| + 1 && e.root == |x.tree| && e.tree[..|x.tree|] == x.tree
    ensures e.tree[e.root].op == OpElement(UnaryTypeFamily, Sub)
    ensures Read(e.tree[e.root].lhs) == NodeIndex(x.root) && Read(e.tree[e.root].rhs) == InvalidNode
    ensures e.dtype == x.dtype && e.shape == x.shape && e.context == x.context
    ensures InRange(x) ==> InRange(e)
    ensures InRange(x) && Ordered(x.tree) ==>
      Ordered(e.tree) && Follow(e.tree, e.tree[e.root]) == Follow(x.tree, x.tree[x.root])
  {
    e := TreeLeaf(x, InvalidNode, OpElement(UnaryTypeFamily, Sub), x.context.value, x.dtype, x.shape);
  }

  /** `operator!`: a unary NEGATE root; the result is an integer tree. */
  method Not(x: Expr) returns (e: Expr)
    requires x.context.Some?
    ensures |e.tree| == |x.tree| + 1 && e.root == |x.tree| && e.tree[..|x.tree|] == x.tree
    ensures e.tree[e.root].op == OpElement(UnaryTypeFamily, Negate)
    ensures Read(e.tree[e.root].lhs) == NodeIndex(x.root) && Read(e.tree[e.root].rhs) == InvalidNode
    ensures e.dtype == IntType && e.shape == x.shape && e.context == x.context
    ensures InRange(x) ==> InRange(e)
    ensures InRange(x) && Ordered(x.tree) ==>
      Ordered(e.tree) && Follow(e.tree, e.tree[e.root]) == Follow(x.tree, x.tree[x.root])
  {
    e := TreeLeaf(x, InvalidNode, OpElement(UnaryTypeFamily, Negate), x.context.value, IntType, x.shape);
  }

  /** `for_idx_t::operator=(value_scalar)`: a binary ASSIGN of the loop
      index and the scalar, without a context, typed by the scalar. */
  function AssignScalar(index: int, r: Fillable): (e: Expr)
    requires r.ScalarValue?
    ensures |e.tree| == 1 && e.root == 0 && e.context == None && e.dtype == r.scalarType && e.shape == [1]
    ensures Read(e.tree[0].lhs) == ForIdx(index) && Read(e.tree[0].rhs) == r
    ensures e.tree[0].op == OpElement(BinaryTypeFamily, Assign)
    ensures InRange(e) && Ordered(e.tree)
  {
    Unbound(ForIdx(index), r, OpElement(BinaryTypeFamily, Assign), r.scalarType)
  }

  /** `for_idx_t::operator=(expression_tree)`: a binary ASSIGN root with the
      loop index on the left and the tree on the right, taking the tree's
      context, type and shape. The context must be set. */
  method AssignTree(index: int, r: Expr) returns (e: Expr)
    requires r.context.Some?
    ensures |e.tree| == |r.tree| + 1 && e.root == |r.tree| && e.tree[..|r.tree|] == r.tree
    ensures e.tree[e.root].op == OpElement(BinaryTypeFamily, Assign)
    ensures Read(e.tree[e.root].lhs) == ForIdx(index) && Read(e.tree[e.root].rhs) == NodeIndex(r.root)
    ensures e.dtype == r.dtype && e.shape == r.shape && e.context == r.context
    ensures InRange(r) ==> InRange(e)
    ensures InRange(r) && Ordered(r.tree) ==> Ordered(e.tree) && Follow(e.tree, e.tree[e.root]) == e.tree[e.root]
  {
    e := LeafTree(ForIdx(index), r, OpElement(BinaryTypeFamily, Assign), r.context.value, r.dtype, r.shape);
  }

  // ---------------------------------------------------------------------
  // The left spine

  /** The node reached by following composite left children from `init`. */
  function Follow(tree: seq<Node>, init: Node): (r: Node)
    requires Ordered(tree) && ChildBelow(init.lhs, |tree|)
    ensures r.lhs.subtype != CompositeOperator
    ensures r == init || r in tree
    decreases if init.lhs.subtype == CompositeOperator then init.lhs.nodeIndex + 1 else 0
  {
    if init.lhs.subtype == CompositeOperator then
      var k := init.lhs.nodeIndex;
      assert ChildBelow(tree[k].lhs, k);
      Follow(tree, tree[k])
    else
      init
  }

  /** `lhs_most(array, init)`: the pointer loop. */
  method LhsMost(tree: seq<Node>, init: Node) returns (r: Node)
    requires Ordered(tree) && ChildBelow(init.lhs, |tree|)
    ensures r == Follow(tree, init)
    ensures r.lhs.subtype != CompositeOperator
  {
    r := init;
    while r.lhs.subtype == CompositeOperator
      invariant ChildBelow(r.lhs, |tree|) && Follow(tree, r) == Follow(tree, init)
      decreases if r.lhs.subtype == CompositeOperator then r.lhs.nodeIndex + 1 else 0
    {
      var k := r.lhs.nodeIndex;
      assert ChildBelow(tree[k].lhs, k);
      r := tree[k];
    }
  }

  /** `lhs_most(array, root)`. */
  method LhsMostAt(tree: seq<Node>, root: nat) returns (r: Node)
    requires Ordered(tree) && root < |tree|
    ensures r == Follow(tree, tree[root])
    ensures r.lhs.subtype != CompositeOperator
  {
    assert ChildBelow(tree[root].lhs, root);
    r := LhsMost(tree, tree[root]);
  }

  /** Appending nodes after an ordered array does not change where a
      left spine starting in it ends. */
  lemma {:induction false} FollowExtended(tree: seq<Node>, ext: seq<Node>, init: Node)
    requires Ordered(tree) && Ordered(ext) && |tree| <= |ext| && ext[..|tree|] == tree
    requires ChildBelow(init.lhs, |tree|)
    ensures Follow(ext, init) == Follow(tree, init)
    decreases if init.lhs.subtype == CompositeOperator then init.lhs.nodeIndex + 1 else 0
  {
    if init.lhs.subtype == CompositeOperator {
      var k := init.lhs.nodeIndex;
      assert ext[k] == ext[..|tree|][k] == tree[k];
      assert ChildBelow(tree[k].lhs, k);
      FollowExtended(tree, ext, tree[k]);
    }
  }

  /** A root whose left child is the left operand's root leads to the
      same left-most node as that operand: the merges keep the left spine. */
  lemma SpineOfMerged(lhs: Expr, e: Expr)
    requires InRange(lhs) && Ordered(lhs.tree) && Ordered(e.tree) && InRange(e)
    requires |lhs.tree| <= |e.tree| && e.tree[..|lhs.tree|] == lhs.tree
    requires Read(e.tree[e.root].lhs) == NodeIndex(lhs.root)
    ensures Follow(e.tree, e.tree[e.root]) == Follow(lhs.tree, lhs.tree[lhs.root])
  {
    var r := lhs.root;
    assert e.tree[r] == e.tree[..|lhs.tree|][r] == lhs.tree[r];
    assert e.tree[e.root].lhs.subtype == CompositeOperator && e.tree[e.root].lhs.nodeIndex == r;
    assert ChildBelow(lhs.tree[r].lhs, r);
    assert ChildBelow(e.tree[e.root].lhs, |e.tree|);
    FollowExtended(lhs.tree, e.tree, lhs.tree[r]);
  }
}
