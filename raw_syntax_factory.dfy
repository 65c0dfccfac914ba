/**
 * Construction of raw syntax nodes. Every node receives a node id from the
 * counter RawSyntax::NextFreeNodeId, a single global shared by all nodes; the
 * class NodeFactory owns that counter, so every factory method that builds a
 * node is a method that may change it.
 */
module RawSyntaxFactory {
  import opened Optional
  import opened RawSyntax

  function Max(a: nat, b: nat): nat { if a < b then b else a }

  /** The id a node receives: the explicit one when given, the counter's value otherwise. */
  function AssignedId(counter: nat, nodeId: Option<nat>): nat {
    if nodeId.Some? then nodeId.value else counter
  }

  /**
   * The counter after a node is built: past an explicit id if it was not
   * already, one further otherwise. It never goes back and always lies above
   * the id just assigned.
   */
  function CounterAfter(counter: nat, nodeId: Option<nat>): (next: nat)
    ensures counter <= next && AssignedId(counter, nodeId) < next
    ensures nodeId.None? ==> next == counter + 1
  {
    if nodeId.Some? then Max(nodeId.value + 1, counter) else counter + 1
  }

  class NodeFactory {
    /** The id the next node built without an explicit id receives. */
    var nextFreeNodeId: nat
    /** Every id handed to a node so far. */
    ghost var issued: set<nat>

    /** The counter lies above every id issued so far. */
    ghost predicate Valid()
      reads this
    {
      forall id :: id in issued ==> id < nextFreeNodeId
    }

    /** The static counter's initial value is defined outside this header, so it is a parameter. */
    constructor (start: nat)
      ensures Valid() && nextFreeNodeId == start && issued == {}
    {
      nextFreeNodeId := start;
      issued := {};
    }

    /**
     * The id rule shared by both node constructors: an explicit id is used as
     * given and pushes the counter past it; otherwise the counter's value is
     * used and the counter moves on by one. An explicit id must not have been
     * used before.
     */
    method TakeNodeId(nodeId: Option<nat>) returns (id: nat)
      requires Valid()
      requires nodeId.Some? ==> nodeId.value !in issued
      modifies this
      ensures Valid() && nextFreeNodeId == CounterAfter(old(nextFreeNodeId), nodeId)
      ensures id == AssignedId(old(nextFreeNodeId), nodeId)
      ensures id !in old(issued) && issued == old(issued) + {id}
    {
      if nodeId.Some? {
        id := nodeId.value;
        nextFreeNodeId := Max(id + 1, nextFreeNodeId);
      } else {
        id := nextFreeNodeId;
        nextFreeNodeId := nextFreeNodeId + 1;
      }
      issued := issued + {id};
    }

    /**
     * make for layout nodes: the layout constructor refuses the kind Token,
     * counts the sub-nodes of the non-null children and keeps the layout as
     * given.
     */
    method MakeLayout(kind: SyntaxKind, layout: seq<Slot>, textLength: nat,
                      presence: SourcePresence, nodeId: Option<nat>) returns (n: RawNode)
      requires Valid()
      requires nodeId.Some? ==> nodeId.value !in issued
      requires kind != Token
      requires |layout| < Bits32 && textLength < Bits32 && SubNodeCount(layout) < Bits32
      modifies this
      ensures Valid() && nextFreeNodeId == CounterAfter(old(nextFreeNodeId), nodeId)
      ensures n.id == AssignedId(old(nextFreeNodeId), nodeId)
      ensures n.id !in old(issued) && issued == old(issued) + {n.id}
      ensures n.LayoutNode? && n.kind == kind && n.layout == layout
      ensures n.textLength == textLength && n.presence == presence
      ensures n.totalSubNodeCount == SubNodeCount(layout)
      ensures ChildrenWellFormed(layout) ==> WellFormed(n)
    {
      var totalSubNodeCount := 0;
      for i := 0 to |layout|
        invariant totalSubNodeCount == SubNodeCount(layout[..i])
      {
        assert layout[..i + 1][..i] == layout[..i];
        if layout[i].Some? {
          totalSubNodeCount := totalSubNodeCount + layout[i].value.GetTotalSubNodeCount() + 1;
        }
      }
      assert layout[..|layout|] == layout;
      var id := TakeNodeId(nodeId);
      n := LayoutNode(id, kind, layout, textLength, totalSubNodeCount, presence);
    }

    /** makeAndCalcLength for layout nodes: the length is the sum over the non-null children. */
    method MakeLayoutAndCalcLength(kind: SyntaxKind, layout: seq<Slot>, presence: SourcePresence,
                                   nodeId: Option<nat>) returns (n: RawNode)
      requires Valid()
      requires nodeId.Some? ==> nodeId.value !in issued
      requires kind != Token
      requires |layout| < Bits32 && ChildrenTextLength(layout) < Bits32 && SubNodeCount(layout) < Bits32
      modifies this
      ensures Valid() && nextFreeNodeId == CounterAfter(old(nextFreeNodeId), nodeId)
      ensures n.id == AssignedId(old(nextFreeNodeId), nodeId)
      ensures n.id !in old(issued) && issued == old(issued) + {n.id}
      ensures n.LayoutNode? && n.kind == kind && n.layout == layout && n.presence == presence
      ensures n.textLength == ChildrenTextLength(layout)
      ensures n.totalSubNodeCount == SubNodeCount(layout)
      ensures ChildrenWellFormed(layout) ==> WellFormed(n)
    {
      var textLength := 0;
      for i := 0 to |layout|
        invariant textLength == ChildrenTextLength(layout[..i])
      {
        assert layout[..i + 1][..i] == layout[..i];
        if layout[i].Some? {
          textLength := textLength + layout[i].value.GetTextLength();
        }
      }
      assert layout[..|layout|] == layout;
      n := MakeLayout(kind, layout, textLength, presence, nodeId);
    }

    /**
     * make for tokens: the token constructor demands a length of 0 for a
     * missing token and the sum of the three parts for a present one.
     */
    method MakeToken(tokenKind: TokKind, text: string, textLength: nat, leadingTrivia: string,
                     trailingTrivia: string, presence: SourcePresence,
                     nodeId: Option<nat>) returns (n: RawNode)
      requires Valid()
      requires nodeId.Some? ==> nodeId.value !in issued
      requires textLength == TokenTextLength(presence, leadingTrivia, text, trailingTrivia)
      requires tokenKind < Bits16 && textLength < Bits32
      requires |leadingTrivia| < Bits32 && |text| < Bits32 && |trailingTrivia| < Bits32
      modifies this
      ensures Valid() && nextFreeNodeId == CounterAfter(old(nextFreeNodeId), nodeId)
      ensures n.id == AssignedId(old(nextFreeNodeId), nodeId)
      ensures n.id !in old(issued) && issued == old(issued) + {n.id}
      ensures n == TokenNode(n.id, tokenKind, text, leadingTrivia, trailingTrivia, textLength, presence)
      ensures WellFormed(n)
    {
      var id := TakeNodeId(nodeId);
      n := TokenNode(id, tokenKind, text, leadingTrivia, trailingTrivia, textLength, presence);
    }

    /** makeAndCalcLength for tokens: the length is computed from the parts, so the constructor's check holds. */
    method MakeTokenAndCalcLength(tokenKind: TokKind, text: string, leadingTrivia: string,
                                  trailingTrivia: string, presence: SourcePresence,
                                  nodeId: Option<nat>) returns (n: RawNode)
      requires Valid()
      requires nodeId.Some? ==> nodeId.value !in issued
      requires tokenKind < Bits16
      requires |leadingTrivia| + |text| + |trailingTrivia| < Bits32
      modifies this
      ensures Valid() && nextFreeNodeId == CounterAfter(old(nextFreeNodeId), nodeId)
      ensures n.id == AssignedId(old(nextFreeNodeId), nodeId)
      ensures n.id !in old(issued) && issued == old(issued) + {n.id}
      ensures n.TokenNode? && n.tokenKind == tokenKind && n.text == text && n.presence == presence
      ensures n.leadingTrivia == leadingTrivia && n.trailingTrivia == trailingTrivia
      ensures presence == Present ==> n.textLength == |leadingTrivia| + |text| + |trailingTrivia|
      ensures presence == Missing ==> n.textLength == 0
      ensures WellFormed(n)
    {
      var textLength := 0;
      if presence != Missing {
        textLength := textLength + |leadingTrivia|;
        textLength := textLength + |text|;
        textLength := textLength + |trailingTrivia|;
      }
      n := MakeToken(tokenKind, text, textLength, leadingTrivia, trailingTrivia, presence, nodeId);
    }

    /** missing for layout nodes: a missing node of the kind, with no children and no text. */
    method MissingLayout(kind: SyntaxKind) returns (n: RawNode)
      requires Valid()
      requires kind != Token
      modifies this
      ensures Valid() && nextFreeNodeId == old(nextFreeNodeId) + 1
      ensures issued == old(issued) + {n.id} && n.id == old(nextFreeNodeId)
      ensures n.LayoutNode? && n.kind == kind && n.presence == Missing
      ensures n.layout == [] && n.textLength == 0 && n.GetTotalSubNodeCount() == 0
      ensures WellFormed(n)
    {
      n := MakeLayout(kind, [], 0, Missing, None);
    }

    /** missing for tokens: a missing token keeps its text but has no trivia and no length. */
    method MissingToken(tokenKind: TokKind, text: string) returns (n: RawNode)
      requires Valid()
      requires tokenKind < Bits16 && |text| < Bits32
      modifies this
      ensures Valid() && nextFreeNodeId == old(nextFreeNodeId) + 1
      ensures issued == old(issued) + {n.id} && n.id == old(nextFreeNodeId)
      ensures n.TokenNode? && n.tokenKind == tokenKind && n.text == text && n.presence == Missing
      ensures n.leadingTrivia == [] && n.trailingTrivia == [] && n.textLength == 0
      ensures n.GetNumChildren() == 0
      ensures WellFormed(n)
    {
      n := MakeToken(tokenKind, text, 0, [], [], Missing, None);
    }

    /**
     * withLeadingTrivia: a new token (with a new id) like the given one, with
     * the leading trivia replaced and the length recomputed.
     */
    method WithLeadingTrivia(token: RawNode, newLeadingTrivia: string) returns (n: RawNode)
      requires Valid()
      requires token.TokenNode? && token.tokenKind < Bits16
      requires |newLeadingTrivia| + |token.text| + |token.trailingTrivia| < Bits32
      modifies this
      ensures Valid() && nextFreeNodeId == old(nextFreeNodeId) + 1
      ensures issued == old(issued) + {n.id} && n.id == old(nextFreeNodeId)
      ensures n.TokenNode? && n.tokenKind == token.tokenKind && n.text == token.text
      ensures n.trailingTrivia == token.trailingTrivia && n.presence == token.presence
      ensures n.leadingTrivia == newLeadingTrivia
      ensures n.textLength == TokenTextLength(n.presence, newLeadingTrivia, n.text, n.trailingTrivia)
      ensures WellFormed(n)
    {
      n := MakeTokenAndCalcLength(token.tokenKind, token.text, newLeadingTrivia,
                                  token.trailingTrivia, token.presence, None);
    }

    /**
     * withTrailingTrivia: a new token (with a new id) like the given one, with
     * the trailing trivia replaced and the length recomputed.
     */
    method WithTrailingTrivia(token: RawNode, newTrailingTrivia: string) returns (n: RawNode)
      requires Valid()
      requires token.TokenNode? && token.tokenKind < Bits16
      requires |token.leadingTrivia| + |token.text| + |newTrailingTrivia| < Bits32
      modifies this
      ensures Valid() && nextFreeNodeId == old(nextFreeNodeId) + 1
      ensures issued == old(issued) + {n.id} && n.id == old(nextFreeNodeId)
      ensures n.TokenNode? && n.tokenKind == token.tokenKind && n.text == token.text
      ensures n.leadingTrivia == token.leadingTrivia && n.presence == token.presence
      ensures n.trailingTrivia == newTrailingTrivia
      ensures n.textLength == TokenTextLength(n.presence, n.leadingTrivia, n.text, newTrailingTrivia)
      ensures WellFormed(n)
    {
      n := MakeTokenAndCalcLength(token.tokenKind, token.text, token.leadingTrivia,
                                  newTrailingTrivia, token.presence, None);
    }
  }

  /**
   * makeAndCalcLength accepts a missing layout node over a present child: the
   * node is well formed as the constructor checks it, yet carries the child's
   * length although it is missing. A parent's computeTextLength then skips it
   * while the parent's makeAndCalcLength counts it.
   */
  method MissingLayoutWithText() returns (n: RawNode)
    ensures WellFormed(n) && n.IsMissing() && !MissingIsEmpty(n) && n.GetTextLength() == 1
    ensures PresentChildrenTextLength([Some(n)]) == 0 && ChildrenTextLength([Some(n)]) == 1
  {
    var factory := new NodeFactory(0);
    var token := factory.MakeTokenAndCalcLength(0, "x", "", "", Present, None);
    var layout: seq<Slot> := [Some(token)];
    assert layout[..0] == [];
    assert ChildrenWellFormed(layout);
    n := factory.MakeLayoutAndCalcLength(NodeKind(0), layout, Missing, None);
    assert [Some(n)][..0] == [];
  }
}
