/**
 * The parser-facing tree builder: it turns the lexer's tokens and the
 * parser's productions into raw syntax nodes whose text points into the
 * arena's copy of the source buffer.
 */
module SyntaxParse {
  import opened Optional
  import opened RawSyntax
  import opened RawSyntaxFactory

  /** A byte range of the source buffer: its start, as an offset in the buffer, and its length. */
  datatype CharSourceRange = CharSourceRange(start: nat, byteLength: nat)

  /** The three contiguous pieces a token's range is cut into. */
  datatype TokenPieces = TokenPieces(leadingTrivia: string, text: string, trailingTrivia: string)

  /** The incremental-parse cache: the node it holds for a lexer offset and a kind. */
  type SyntaxParsingCache = map<(nat, SyntaxKind), RawNode>

  /**
   * The offset arithmetic of recordToken: the token text starts right after
   * the leading trivia, the trailing trivia right after the token text, and
   * the three pieces together are exactly the range.
   */
  function SplitTokenRange(buffer: string, range: CharSourceRange, leadingSize: nat,
                           trailingSize: nat): (pieces: TokenPieces)
    requires range.start + range.byteLength <= |buffer|
    requires leadingSize + trailingSize <= range.byteLength
    ensures |pieces.leadingTrivia| == leadingSize && |pieces.trailingTrivia| == trailingSize
    ensures |pieces.text| == range.byteLength - leadingSize - trailingSize
    ensures pieces.leadingTrivia + pieces.text + pieces.trailingTrivia
            == buffer[range.start..range.start + range.byteLength]
  {
    var tokLength := range.byteLength - leadingSize - trailingSize;
    var leadingTriviaStartOffset := range.start;
    var tokStartOffset := leadingTriviaStartOffset + leadingSize;
    var trailingTriviaStartOffset := tokStartOffset + tokLength;
    var pieces := TokenPieces(buffer[leadingTriviaStartOffset..leadingTriviaStartOffset + leadingSize],
                              buffer[tokStartOffset..tokStartOffset + tokLength],
                              buffer[trailingTriviaStartOffset..trailingTriviaStartOffset + trailingSize]);
    assert pieces.leadingTrivia + pieces.text + pieces.trailingTrivia
           == buffer[range.start..range.start + range.byteLength];
    pieces
  }

  /** Cutting a range and joining the pieces gives back the range, whatever trivia sizes the lexer reports. */
  lemma SplitPiecesAreDisjointAndContiguous(buffer: string, range: CharSourceRange, leadingSize: nat,
                                            trailingSize: nat, i: nat)
    requires range.start + range.byteLength <= |buffer|
    requires leadingSize + trailingSize <= range.byteLength
    requires i < range.byteLength
    ensures var p := SplitTokenRange(buffer, range, leadingSize, trailingSize);
            && (i < leadingSize ==> p.leadingTrivia[i] == buffer[range.start + i])
            && (leadingSize <= i < range.byteLength - trailingSize ==>
                  p.text[i - leadingSize] == buffer[range.start + i])
            && (range.byteLength - trailingSize <= i ==>
                  p.trailingTrivia[i - (range.byteLength - trailingSize)] == buffer[range.start + i])
  {
    var p := SplitTokenRange(buffer, range, leadingSize, trailingSize);
    var whole := p.leadingTrivia + p.text + p.trailingTrivia;
    assert whole[i] == buffer[range.start + i];
  }

  class SyntaxTreeCreator {
    /** The arena's copy of the whole source buffer. */
    const arenaSourceBuffer: string
    /** The cache of a previous parse, if incremental parsing is on. */
    const syntaxCache: Option<SyntaxParsingCache>
    /** The spelling of each token kind (getTokenText). */
    const tokenSpelling: TokKind -> string
    /** The owner of RawSyntax::NextFreeNodeId. */
    const nodes: NodeFactory

    /** The constructor copies the buffer's text into the arena, unchanged. */
    constructor (bufferContent: string, syntaxCache: Option<SyntaxParsingCache>,
                 tokenSpelling: TokKind -> string, nodes: NodeFactory)
      ensures |arenaSourceBuffer| == |bufferContent|
      ensures forall i :: 0 <= i < |bufferContent| ==> arenaSourceBuffer[i] == bufferContent[i]
      ensures this.syntaxCache == syntaxCache && this.tokenSpelling == tokenSpelling
      ensures this.nodes == nodes
    {
      arenaSourceBuffer := bufferContent;
      this.syntaxCache := syntaxCache;
      this.tokenSpelling := tokenSpelling;
      this.nodes := nodes;
    }

    /**
     * recordToken: cuts the token's range of the arena buffer into leading
     * trivia, text and trailing trivia of the sizes the lexer reports, and
     * builds a present token whose length is the range's length.
     */
    method RecordToken(tokenKind: TokKind, leadingTrivia: string, trailingTrivia: string,
                       range: CharSourceRange) returns (n: RawNode)
      requires nodes.Valid()
      requires range.start + range.byteLength <= |arenaSourceBuffer|
      requires |leadingTrivia| + |trailingTrivia| <= range.byteLength
      requires tokenKind < Bits16 && range.byteLength < Bits32
      modifies nodes
      ensures nodes.Valid() && nodes.nextFreeNodeId == old(nodes.nextFreeNodeId) + 1
      ensures n.id == old(nodes.nextFreeNodeId) && nodes.issued == old(nodes.issued) + {n.id}
      ensures n.TokenNode? && n.tokenKind == tokenKind && n.presence == Present
      ensures n.textLength == range.byteLength
      ensures |n.leadingTrivia| == |leadingTrivia| && |n.trailingTrivia| == |trailingTrivia|
      ensures n.leadingTrivia + n.text + n.trailingTrivia
              == arenaSourceBuffer[range.start..range.start + range.byteLength]
      ensures WellFormed(n)
    {
      var pieces := SplitTokenRange(arenaSourceBuffer, range, |leadingTrivia|, |trailingTrivia|);
      n := nodes.MakeToken(tokenKind, pieces.text, range.byteLength, pieces.leadingTrivia,
                           pieces.trailingTrivia, Present, None);
    }

    /** recordMissingToken: a missing token of the kind, spelled as the kind is spelled, with no length. */
    method RecordMissingToken(kind: TokKind) returns (n: RawNode)
      requires nodes.Valid()
      requires kind < Bits16 && |tokenSpelling(kind)| < Bits32
      modifies nodes
      ensures nodes.Valid() && nodes.nextFreeNodeId == old(nodes.nextFreeNodeId) + 1
      ensures n.id == old(nodes.nextFreeNodeId) && nodes.issued == old(nodes.issued) + {n.id}
      ensures n.TokenNode? && n.tokenKind == kind && n.presence == Missing
      ensures n.text == tokenSpelling(kind)
      ensures n.textLength == 0 && n.leadingTrivia == [] && n.trailingTrivia == []
      ensures WellFormed(n)
    {
      n := nodes.MissingToken(kind, tokenSpelling(kind));
    }

    /**
     * recordRawSyntax: a present layout node of the kind whose children are
     * the elements, in order, and whose length is the sum of the non-null
     * elements' lengths.
     */
    method RecordRawSyntax(kind: SyntaxKind, elements: seq<Slot>) returns (n: RawNode)
      requires nodes.Valid()
      requires kind != Token
      requires |elements| < Bits32 && ChildrenTextLength(elements) < Bits32
      requires SubNodeCount(elements) < Bits32
      modifies nodes
      ensures nodes.Valid() && nodes.nextFreeNodeId == old(nodes.nextFreeNodeId) + 1
      ensures n.id == old(nodes.nextFreeNodeId) && nodes.issued == old(nodes.issued) + {n.id}
      ensures n.LayoutNode? && n.kind == kind && n.presence == Present
      ensures n.GetNumChildren() == |elements|
      ensures forall i :: 0 <= i < |elements| ==> n.GetChild(i) == elements[i]
      ensures n.textLength == ChildrenTextLength(elements)
      ensures n.GetTotalSubNodeCount() == SubNodeCount(elements)
      ensures ChildrenWellFormed(elements) ==> WellFormed(n)
    {
      var parts: seq<Slot> := [];
      var textLength := 0;
      for i := 0 to |elements|
        invariant parts == elements[..i]
        invariant textLength == ChildrenTextLength(elements[..i])
      {
        assert elements[..i + 1][..i] == elements[..i];
        var raw := elements[i];
        parts := parts + [raw];
        if raw.Some? {
          textLength := textLength + raw.value.GetTextLength();
        }
      }
      assert elements[..|elements|] == elements;
      n := nodes.MakeLayout(kind, parts, textLength, Present, None);
    }

    /**
     * lookupNode: without a cache, or when the cache holds nothing for the
     * offset and kind, (0, null); otherwise the cached node with its length.
     */
    function LookupNode(lexerOffset: nat, kind: SyntaxKind): (r: (nat, Slot))
      ensures r.1.Some? <==> syntaxCache.Some? && (lexerOffset, kind) in syntaxCache.value
      ensures r.1.None? ==> r.0 == 0
      ensures r.1.Some? ==> r.1.value == syntaxCache.value[(lexerOffset, kind)]
                            && r.0 == r.1.value.GetTextLength()
    {
      if syntaxCache.None? then (0, None)
      else if (lexerOffset, kind) !in syntaxCache.value then (0, None)
      else
        var raw := syntaxCache.value[(lexerOffset, kind)];
        (raw.GetTextLength(), Some(raw))
    }
  }
}
