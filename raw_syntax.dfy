/**
 * The immutable raw syntax tree (RawSyntax): a node is either a token, which
 * carries its own text and trivia, or a "layout" node, which carries an
 * ordered list of children, some of which may be null.
 *
 * Nodes are values here. Their construction, which draws a node id from a
 * global counter, lives in module RawSyntaxFactory.
 */
module RawSyntax {
  import opened Optional

  /** Exclusive bound of a 16-bit bitfield (TokenKind). */
  const Bits16: nat := 0x1_0000
  /** Exclusive bound of a 32-bit bitfield (TextLength, NumChildren, TotalSubNodeCount, trivia and text lengths). */
  const Bits32: nat := 0x1_0000_0000

  /** Whether a piece of syntax was written in the source or only expected there. */
  datatype SourcePresence = Present | Missing

  /** The kind of a syntax node: the distinguished kind Token, or one of the other kinds, by its number. */
  datatype SyntaxKind = Token | NodeKind(code: nat)

  /** The number of a token kind (the `tok` enumeration). */
  type TokKind = nat

  /** A layout slot: a child node, or null. */
  type Slot = Option<RawNode>

  datatype RawNode =
    | TokenNode(id: nat, tokenKind: TokKind, text: string, leadingTrivia: string,
                trailingTrivia: string, textLength: nat, presence: SourcePresence)
    | LayoutNode(id: nat, kind: SyntaxKind, layout: seq<Slot>, textLength: nat,
                 totalSubNodeCount: nat, presence: SourcePresence)
  {
    predicate IsToken() { TokenNode? }

    predicate IsMissing() { presence == Missing }

    predicate IsPresent() { presence == Present }

    /** A token reports the kind Token; a layout node the kind it was built with. */
    function GetKind(): SyntaxKind {
      if TokenNode? then Token else kind
    }

    /** The number of transitive children, not counting the node itself. */
    function GetTotalSubNodeCount(): nat {
      if TokenNode? then 0 else totalSubNodeCount
    }

    /** The number of nodes in the subtree, counting the node itself. */
    function GetTotalNodes(): nat {
      GetTotalSubNodeCount() + 1
    }

    function GetNumChildren(): nat {
      if TokenNode? then 0 else |layout|
    }

    function GetLayout(): seq<Slot> {
      if TokenNode? then [] else layout
    }

    function GetChild(index: nat): Slot
      requires index < GetNumChildren()
    {
      GetLayout()[index]
    }

    /** Bytes this node takes when spelled out in the source, trivia included. */
    function GetTextLength(): nat { textLength }

    function GetLeadingTriviaLength(): nat
      requires TokenNode?
    {
      |leadingTrivia|
    }

    function GetTrailingTriviaLength(): nat
      requires TokenNode?
    {
      |trailingTrivia|
    }
  }

  /** What one slot adds to its parent's TotalSubNodeCount: nothing for null, the child's subtree otherwise. */
  function SlotSubNodes(slot: Slot): nat {
    match slot
    case None => 0
    case Some(child) => child.GetTotalSubNodeCount() + 1
  }

  /** Sum of SlotSubNodes over a layout. */
  function SubNodeCount(layout: seq<Slot>): nat {
    if layout == [] then 0
    else SubNodeCount(layout[..|layout| - 1]) + SlotSubNodes(layout[|layout| - 1])
  }

  /** What one slot adds to its parent's text length: nothing for null. */
  function SlotTextLength(slot: Slot): nat {
    match slot
    case None => 0
    case Some(child) => child.GetTextLength()
  }

  /** Sum of the text lengths of the non-null children of a layout. */
  function ChildrenTextLength(layout: seq<Slot>): nat {
    if layout == [] then 0
    else ChildrenTextLength(layout[..|layout| - 1]) + SlotTextLength(layout[|layout| - 1])
  }

  /** What one slot adds to the length computeTextLength finds: nothing for null or missing children. */
  function PresentSlotTextLength(slot: Slot): nat {
    match slot
    case None => 0
    case Some(child) => if child.IsMissing() then 0 else child.GetTextLength()
  }

  /** Sum of the text lengths of the non-null children that are present in the source. */
  function PresentChildrenTextLength(layout: seq<Slot>): nat {
    if layout == [] then 0
    else PresentChildrenTextLength(layout[..|layout| - 1]) + PresentSlotTextLength(layout[|layout| - 1])
  }

  /** The length a token must carry: its three parts when present, 0 when missing. */
  function TokenTextLength(presence: SourcePresence, leadingTrivia: string, text: string,
                           trailingTrivia: string): nat
  {
    if presence == Missing then 0 else |leadingTrivia| + |text| + |trailingTrivia|
  }

  /** Every non-null slot of the layout holds a well-formed node. */
  ghost predicate ChildrenWellFormed(layout: seq<Slot>) {
    forall i :: 0 <= i < |layout| && layout[i].Some? ==> WellFormed(layout[i].value)
  }

  /**
   * What the two constructors check and compute, recursively: a token's length
   * agrees with its parts, a layout node is never of kind Token and caches the
   * sub-node count of its children, and every counter fits its bitfield.
   */
  ghost predicate WellFormed(n: RawNode)
    decreases n, 1
  {
    match n
    case TokenNode(_, tokenKind, text, leadingTrivia, trailingTrivia, textLength, presence) =>
      && tokenKind < Bits16
      && |leadingTrivia| < Bits32 && |text| < Bits32 && |trailingTrivia| < Bits32
      && textLength < Bits32
      && textLength == TokenTextLength(presence, leadingTrivia, text, trailingTrivia)
    case LayoutNode(_, kind, layout, textLength, totalSubNodeCount, _) =>
      && kind != Token
      && |layout| < Bits32
      && textLength < Bits32
      && totalSubNodeCount < Bits32
      && totalSubNodeCount == SubNodeCount(layout)
      && (forall i :: 0 <= i < |layout| && layout[i].Some? ==> WellFormed(layout[i].value))
  }

  /** The number of nodes in the tree rooted at n, counted by walking it. */
  ghost function TreeSize(n: RawNode): nat
    decreases n, 1
  {
    if n.TokenNode? then 1 else 1 + LayoutTreeSize(n, |n.layout|)
  }

  /** The number of nodes in the subtrees of the first k children of layout node n. */
  ghost function LayoutTreeSize(n: RawNode, k: nat): nat
    requires n.LayoutNode? && k <= |n.layout|
    decreases n, 0, k
  {
    if k == 0 then 0
    else
      LayoutTreeSize(n, k - 1) +
      match n.layout[k - 1]
      case None => 0
      case Some(child) => TreeSize(child)
  }

  lemma TokensHaveNoChildren(n: RawNode)
    requires n.IsToken()
    ensures n.GetNumChildren() == 0 && n.GetLayout() == []
    ensures n.GetTotalSubNodeCount() == 0 && n.GetTotalNodes() == 1
  {
  }

  /** getKind answers Token exactly for tokens, because the layout constructor refuses Token. */
  lemma KindIsTokenExactlyForTokens(n: RawNode)
    requires WellFormed(n)
    ensures n.GetKind() == Token <==> n.IsToken()
  {
  }

  /** getChild returns the slot passed at construction, at the same position. */
  lemma ChildIsLayoutElement(n: RawNode, index: nat)
    requires n.LayoutNode? && index < |n.layout|
    ensures n.GetNumChildren() == |n.layout|
    ensures n.GetChild(index) == n.layout[index]
  {
  }

  /** The cached TotalSubNodeCount of a well-formed node is the number of nodes below it in the tree. */
  lemma {:induction false} TotalNodesCountsTree(n: RawNode)
    requires WellFormed(n)
    ensures n.GetTotalNodes() == TreeSize(n)
    decreases n, 1
  {
    if n.LayoutNode? {
      SubNodesCountLayout(n, |n.layout|);
      assert n.layout[..|n.layout|] == n.layout;
    }
  }

  lemma {:induction false} SubNodesCountLayout(n: RawNode, k: nat)
    requires n.LayoutNode? && k <= |n.layout| && WellFormed(n)
    ensures SubNodeCount(n.layout[..k]) == LayoutTreeSize(n, k)
    decreases n, 0, k
  {
    if k > 0 {
      SubNodesCountLayout(n, k - 1);
      var prefix := n.layout[..k];
      assert prefix[..k - 1] == n.layout[..k - 1];
      match n.layout[k - 1]
      case None =>
      case Some(child) =>
        TotalNodesCountsTree(child);
    }
  }

  /**
   * The rule the header states for TextLength: a missing node spells nothing.
   * The token constructor checks it; the layout constructor does not.
   */
  predicate MissingIsEmpty(n: RawNode) {
    n.IsMissing() ==> n.GetTextLength() == 0
  }

  /** When every non-null child keeps MissingIsEmpty, skipping missing children changes nothing. */
  lemma {:induction false} PresentLengthIsChildrenLength(layout: seq<Slot>)
    requires forall i :: 0 <= i < |layout| && layout[i].Some? ==> MissingIsEmpty(layout[i].value)
    ensures PresentChildrenTextLength(layout) == ChildrenTextLength(layout)
  {
    if layout != [] {
      PresentLengthIsChildrenLength(layout[..|layout| - 1]);
    }
  }

  /**
   * For a layout node whose length makeAndCalcLength computed, computeTextLength
   * finds that same length again, provided every child keeps MissingIsEmpty.
   */
  lemma CachedLengthIsComputedLength(n: RawNode)
    requires n.LayoutNode? && n.textLength == ChildrenTextLength(n.layout)
    requires forall i :: 0 <= i < |n.layout| && n.layout[i].Some? ==> MissingIsEmpty(n.layout[i].value)
    ensures PresentChildrenTextLength(n.GetLayout()) == n.GetTextLength()
  {
    PresentLengthIsChildrenLength(n.layout);
  }

  /** A well-formed missing token spells nothing. */
  lemma MissingTokenIsEmpty(n: RawNode)
    requires WellFormed(n) && n.IsToken() && n.IsMissing()
    ensures n.GetTextLength() == 0
  {
  }

  /**
   * computeTextLength: sums the text lengths of the node's children, skipping
   * null and missing ones.
   */
  method ComputeTextLength(n: RawNode) returns (total: nat)
    ensures total == PresentChildrenTextLength(n.GetLayout())
  {
    total := 0;
    var numChildren := n.GetNumChildren();
    for i := 0 to numChildren
      invariant total == PresentChildrenTextLength(n.GetLayout()[..i])
    {
      var childNode := n.GetChild(i);
      assert n.GetLayout()[..i + 1][..i] == n.GetLayout()[..i];
      if childNode.Some? && !childNode.value.IsMissing() {
        total := total + childNode.value.GetTextLength();
      }
    }
    assert n.GetLayout()[..numChildren] == n.GetLayout();
  }
}
