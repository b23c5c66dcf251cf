/** What the successful stages of a complete stream contain. */
module ParserStages {
  import opened Results
  import opened PreorderTrees
  import opened ParserStream

  // --- encoded bytes ------------------------------------------------------------------

  /** What the rules for a single value leave possible in an encoder stage. */
  lemma EncoderValue(v: Value, earlier: seq<Value>, stage: Stage, request: Request)
    requires EncodeStage(stage) && Placed(v, earlier, stage, request)
    ensures if v.ByteHeader? then CountKind(ByteHeaderKind, earlier) == 0 && v.length >= 0
            else v.Chunk? && ByteLength(earlier).Some? && v.offset == |Bytes(earlier)| && 0 < |v.data| <= MAX_CHUNK
                 && |Bytes(earlier)| + |v.data| <= ByteLength(earlier).value
  {
    hide CountKind, ByteLength, Bytes;
  }

  lemma {:induction false} EncoderPrefix(values: seq<Value>, stage: Stage, request: Request, owed: nat, i: nat)
    requires EncodeStage(stage) && ValuesOk(values, stage, request, owed) && 1 <= i <= |values|
    ensures values[0].ByteHeader?
    ensures ByteLength(values[..i]) == Some(values[0].length) && |Bytes(values[..i])| <= values[0].length
    ensures CountKind(ByteHeaderKind, values[..i]) == 1
    ensures forall j | 0 < j < i ::
              values[j].Chunk? && 0 < |values[j].data| <= MAX_CHUNK && values[j].offset == |Bytes(values[..j])|
  {
    hide Pending, Placed;
    EncoderValue(values[i - 1], values[..i - 1], stage, request);
    assert values[..i][..i - 1] == values[..i - 1];
    if i == 1 {
      assert values[..i - 1] == [] && ByteLength([]) == None;
      assert values[..1][0] == values[0] && values[..1][..0] == [];
      assert ByteLength(values[..1]) == Some(values[0].length) && Bytes(values[..1]) == Bytes([]);
    } else {
      EncoderPrefix(values, stage, request, owed, i - 1);
    }
  }

  /** In an encoder stage the header comes first and once, and the chunks tile
      the bytes from offset 0 without a gap; a successful stage shows exactly as
      many bytes as its header announces. */
  lemma EncoderTiles(values: seq<Value>, stage: Stage, request: Request, owed: nat)
    requires EncodeStage(stage) && ValuesOk(values, stage, request, owed) && values != []
    ensures values[0].ByteHeader? && |Bytes(values)| <= values[0].length
    ensures forall i | 0 < i < |values| ::
              values[i].Chunk? && 0 < |values[i].data| <= MAX_CHUNK && values[i].offset == |Bytes(values[..i])|
    ensures Shows(values, stage, request, owed) <==> |Bytes(values)| == values[0].length
  {
    EncoderPrefix(values, stage, request, owed, |values|);
    assert values[..|values|] == values;
  }

  lemma EarlierOk(values: seq<Value>, stage: Stage, request: Request, owed: nat)
    requires ValuesOk(values, stage, request, owed) && values != []
    ensures ValuesOk(values[..|values| - 1], stage, request, owed)
  {
    hide Placed;
    var earlier := values[..|values| - 1];
    assert forall i | 0 <= i < |earlier| :: values[i] == earlier[i] && values[..i] == earlier[..i];
  }

  // --- the node table -------------------------------------------------------------------

  /** Node values are numbered by their position among the node values, the first
      is the nil sentinel, and a successful index stage shows the whole table. */
  lemma NodesNumbered(values: seq<Value>, stage: Stage, request: Request, owed: nat)
    requires IndexStage(stage) && ValuesOk(values, stage, request, owed)
    ensures forall i | 0 <= i < |values| && values[i].Node? ::
              && values[i].index == CountKind(NodeKind, values[..i])
              && (values[i].index == 0 ==> values[i].node.None?)
    ensures Shows(values, stage, request, owed) ==>
              exists i | 0 <= i < |values| :: values[i] == Table(CountKind(NodeKind, values))
  {
    forall i | 0 <= i < |values| && values[i].Node?
      ensures values[i].index == CountKind(NodeKind, values[..i]) && (values[i].index == 0 ==> values[i].node.None?)
    {
      assert Placed(values[i], values[..i], stage, request);
    }
    if Shows(values, stage, request, owed) {
      var i := FindTable(values, CountKind(NodeKind, values));
    }
  }

  lemma {:induction false} FindTable(values: seq<Value>, length: int) returns (i: nat)
    requires TableLength(values) == Some(length)
    ensures i < |values| && values[i] == Table(length)
  {
    if values[|values| - 1].Table? {
      i := |values| - 1;
    } else {
      i := FindTable(values[..|values| - 1], length);
    }
  }

  // --- the decoded tree --------------------------------------------------------------------

  lemma {:induction false} PendingIsOwed(owed: nat, values: seq<Value>)
    requires forall v <- values :: !v.Root?
    ensures Pending(owed, values) == Owed(owed, Arities(values))
  {
    if values != [] {
      var n := |values| - 1;
      PendingIsOwed(owed, values[..n]);
      assert values[n] in values;
      if values[n].TreeNode? {
        OwedSnoc(owed, Arities(values[..n]), values[n].children);
      } else {
        assert Arities(values) == Arities(values[..n]);
      }
    }
  }

  /** Tree nodes numbered from 0, which is all a decoded-tree stage can hold. */
  predicate TreeNodes(values: seq<Value>) {
    forall i | 0 <= i < |values| :: values[i].TreeNode? && values[i].index == i
  }

  lemma {:induction false} TreeNodesCount(values: seq<Value>)
    requires TreeNodes(values)
    ensures CountKind(TreeNodeKind, values) == |values| == |Arities(values)|
    ensures forall i | 0 <= i < |values| :: Arities(values)[i] == values[i].children
  {
    if values != [] {
      TreeNodesCount(values[..|values| - 1]);
    }
  }

  lemma TreeValue(v: Value, earlier: seq<Value>, request: Request)
    requires Placed(v, earlier, DecodedTree, request)
    ensures v.TreeNode? && v.index == CountKind(TreeNodeKind, earlier)
  {
    hide CountKind, ByteLength, Bytes, TableLength;
  }

  lemma {:induction false} PlacedTreeNodes(values: seq<Value>, request: Request, owed: nat)
    requires ValuesOk(values, DecodedTree, request, owed)
    ensures TreeNodes(values)
  {
    hide Placed, Pending, CountKind;
    if values != [] {
      var n := |values| - 1;
      EarlierOk(values, DecodedTree, request, owed);
      PlacedTreeNodes(values[..n], request, owed);
      TreeNodesCount(values[..n]);
      TreeValue(values[n], values[..n], request);
      assert forall i | 0 <= i < n :: values[i] == values[..n][i];
    }
  }

  lemma TreeNodesPlaced(values: seq<Value>, request: Request)
    requires TreeNodes(values)
    ensures forall i | 0 <= i < |values| :: Placed(values[i], values[..i], DecodedTree, request)
  {
    forall i | 0 <= i < |values|
      ensures Placed(values[i], values[..i], DecodedTree, request)
    {
      TreeNodesCount(values[..i]);
    }
  }

  /** Numbered tree nodes succeed exactly when their counts settle. */
  lemma TreeNodesSucceed(values: seq<Value>, request: Request)
    requires TreeNodes(values)
    ensures ValuesOk(values, DecodedTree, request, 1) && Shows(values, DecodedTree, request, 1)
            <==> exists tree :: Preorder(tree) == Arities(values)
    ensures ValuesOk(values, DecodedTree, request, 0) && Shows(values, DecodedTree, request, 0) <==> values == []
  {
    hide Placed, Owe;
    TreeNodesPlaced(values, request);
    TreeNodesCount(values);
    PendingIsOwed(1, values);
    PendingIsOwed(0, values);
    TreeOrNil(Arities(values));
  }

  /** A decoded-tree stage under a non-nil root can succeed exactly when it holds
      tree nodes numbered from 0 whose child counts are the pre-order
      serialisation of a tree, and then of one tree only; under a nil root,
      exactly when it is empty. */
  lemma TreeStageIffPreorder(values: seq<Value>, request: Request)
    ensures ValuesOk(values, DecodedTree, request, 1) && Shows(values, DecodedTree, request, 1)
            <==> TreeNodes(values) && exists tree :: Preorder(tree) == Arities(values)
    ensures ValuesOk(values, DecodedTree, request, 0) && Shows(values, DecodedTree, request, 0) <==> values == []
    ensures forall tree, other :: Preorder(tree) == Arities(values) && Preorder(other) == Arities(values) ==> tree == other
  {
    hide ValuesOk, Shows, Preorder;
    TreeOrNil(Arities(values));
    if TreeNodes(values) {
      TreeNodesSucceed(values, request);
    }
    if ValuesOk(values, DecodedTree, request, 1) {
      PlacedTreeNodes(values, request, 1);
    }
    if ValuesOk(values, DecodedTree, request, 0) {
      PlacedTreeNodes(values, request, 0);
    }
  }

  lemma DecodeValue(v: Value, earlier: seq<Value>, request: Request)
    requires Placed(v, earlier, Decode, request)
    ensures v.Root? && KindOf(v) == RootKind
  {
    hide CountKind, ByteLength, Bytes;
  }

  lemma {:induction false} AllRoots(values: seq<Value>, request: Request, owed: nat)
    requires ValuesOk(values, Decode, request, owed)
    ensures CountKind(RootKind, values) == |values|
    ensures forall v <- values :: v.Root?
  {
    hide Placed, Pending;
    if values != [] {
      var n := |values| - 1;
      EarlierOk(values, Decode, request, owed);
      AllRoots(values[..n], request, owed);
      DecodeValue(values[n], values[..n], request);
      assert values == values[..n] + [values[n]];
    }
  }

  lemma OneRoot(values: seq<Value>, request: Request, owed: nat)
    requires ValuesOk(values, Decode, request, owed) && Shows(values, Decode, request, owed)
    ensures exists node :: values == [Root(node)]
    ensures Pending(owed, values) == Accepted(if values[0].node.Some? then 1 else 0)
  {
    AllRoots(values, request, owed);
    assert values == [values[0]] && values[0] in values;
    assert values == [Root(values[0].node)];
    assert values[..0] == [];
  }

  /** In a complete stream, a successful decoded-tree stage follows a decode
      stage with one root and serialises that root's tree. */
  lemma DecodedTreeIsSerialised(blocks: seq<Block>, request: Request, i: nat)
    requires StagesOk(blocks, request) && i < |blocks|
    requires StagesFor(request)[i].DecodedTree? && blocks[i].outcome.Ok?
    ensures i > 0 && exists node :: blocks[i - 1].values == [Root(node)]
    ensures var counts := Arities(blocks[i].values);
            if blocks[i - 1].values[0].node.None? then counts == []
            else exists tree :: Preorder(tree) == counts && forall other :: Preorder(other) == counts ==> other == tree
  {
    hide Placed, ValuesOk, Shows, Arities;
    assert StageOk(blocks, i, request) && StageOk(blocks, i - 1, request);
    assert StagesFor(request)[i - 1].Decode? && blocks[i - 1].outcome.Ok?;
    var owed := OwedAfter(blocks[..i - 1]).value;
    OneRoot(blocks[i - 1].values, request, owed);
    assert blocks[..i][..i - 1] == blocks[..i - 1];
    assert OwedAfter(blocks[..i]) == Pending(owed, blocks[i - 1].values);
    PlacedTreeNodes(blocks[i].values, request, OwedAfter(blocks[..i]).value);
    TreeStageIffPreorder(blocks[i].values, request);
    TreeNodesCount(blocks[i].values);
  }
}
