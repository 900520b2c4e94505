/**
 * A hand-built concrete tree for the Go source `func hello() { sayHello() }`
 * (27 bytes), with the invisible `_statement_list` node the grammar puts
 * inside a block, and the walks the visiting test performs on it.
 */
module GoExample {
  import opened Wrappers
  import opened TSZipper
  import opened Preorder
  import opened VisibleTree

  const SourceFile: nat := 1
  const FunctionDeclaration: nat := 2
  const Func: nat := 3
  const Identifier: nat := 4
  const ParameterList: nat := 5
  const LParen: nat := 6
  const RParen: nat := 7
  const Block: nat := 8
  const LBrace: nat := 9
  const CallExpression: nat := 10
  const ArgumentList: nat := 11
  const RBrace: nat := 12
  const StatementList: nat := 13

  function Leaf(symbol: nat, padding: int, size: int): Subtree {
    Subtree(symbol, true, false, size, padding, 0, 0, [])
  }

  function Inner(symbol: nat, padding: int, size: int, children: seq<Subtree>): Subtree {
    Subtree(symbol, true, false, size, padding, 0, |children|, children)
  }

  const Parens := Inner(ParameterList, 0, 2, [Leaf(LParen, 0, 1), Leaf(RParen, 0, 1)])
  const Arguments := Inner(ArgumentList, 0, 2, [Leaf(LParen, 0, 1), Leaf(RParen, 0, 1)])
  const Call := Inner(CallExpression, 1, 10, [Leaf(Identifier, 1, 8), Arguments])
  const Statements := Subtree(StatementList, false, false, 10, 1, 0, 1, [Call])
  const Body := Inner(Block, 1, 14, [Leaf(LBrace, 1, 1), Statements, Leaf(RBrace, 1, 1)])
  const Declaration := Inner(FunctionDeclaration, 0, 27,
    [Leaf(Func, 0, 4), Leaf(Identifier, 1, 5), Parens, Body])
  const Source := Inner(SourceFile, 0, 27, [Declaration])

  /** No production of this tree is aliased. */
  const NoAliases: AliasTable := []

  /** The zipper at the root, as the tree handle builds it. */
  const Root := Zipper(None, 0, Source, Source.padding, 0, 0)

  /** The visible positions in pre-order, and the invisible statement list. */
  const ZDeclaration := ChildZipper(Root, 0)
  const ZFunc := ChildZipper(ZDeclaration, 0)
  const ZHello := ChildZipper(ZDeclaration, 1)
  const ZParams := ChildZipper(ZDeclaration, 2)
  const ZParamsOpen := ChildZipper(ZParams, 0)
  const ZParamsClose := ChildZipper(ZParams, 1)
  const ZBody := ChildZipper(ZDeclaration, 3)
  const ZOpen := ChildZipper(ZBody, 0)
  const ZStatements := ChildZipper(ZBody, 1)
  const ZCall := ChildZipper(ZStatements, 0)
  const ZSayHello := ChildZipper(ZCall, 0)
  const ZArguments := ChildZipper(ZCall, 1)
  const ZArgumentsOpen := ChildZipper(ZArguments, 0)
  const ZArgumentsClose := ChildZipper(ZArguments, 1)
  const ZClose := ChildZipper(ZBody, 2)

  // One lemma per step of the walk keeps each proof small.

  lemma ValidPositions()
    ensures Consistent(Root) && Consistent(ZDeclaration) && Consistent(ZParams)
    ensures Consistent(ZBody) && Consistent(ZStatements) && Consistent(ZCall) && Consistent(ZArguments)
  {
  }

  lemma StepRoot()
    ensures Valid(Root) && Next(NoAliases, Root) == Some(ZDeclaration)
    ensures Traverse(NoAliases, Root) == [SourceFile] + Traverse(NoAliases, ZDeclaration)
  {
    DownToFirstChild(NoAliases, Root);
  }

  lemma StepDeclaration()
    ensures Valid(ZDeclaration) && Next(NoAliases, ZDeclaration) == Some(ZFunc)
    ensures Traverse(NoAliases, ZDeclaration) == [FunctionDeclaration] + Traverse(NoAliases, ZFunc)
  {
    ValidPositions();
    ConsistentIsValid(ZDeclaration);
    DownToFirstChild(NoAliases, ZDeclaration);
  }

  lemma StepFunc()
    ensures Valid(ZFunc) && Next(NoAliases, ZFunc) == Some(ZHello)
    ensures Traverse(NoAliases, ZFunc) == [Func] + Traverse(NoAliases, ZHello)
  {
    ValidPositions();
    ConsistentIsValid(ZDeclaration);
    RightToSibling(NoAliases, ZDeclaration, 0);
  }

  lemma StepHello()
    ensures Valid(ZHello) && Next(NoAliases, ZHello) == Some(ZParams)
    ensures Traverse(NoAliases, ZHello) == [Identifier] + Traverse(NoAliases, ZParams)
  {
    ValidPositions();
    ConsistentIsValid(ZDeclaration);
    RightToSibling(NoAliases, ZDeclaration, 1);
  }

  lemma StepParams()
    ensures Valid(ZParams) && Next(NoAliases, ZParams) == Some(ZParamsOpen)
    ensures Traverse(NoAliases, ZParams) == [ParameterList] + Traverse(NoAliases, ZParamsOpen)
  {
    ValidPositions();
    ConsistentIsValid(ZParams);
    DownToFirstChild(NoAliases, ZParams);
  }

  lemma StepParamsOpen()
    ensures Valid(ZParamsOpen) && Next(NoAliases, ZParamsOpen) == Some(ZParamsClose)
    ensures Traverse(NoAliases, ZParamsOpen) == [LParen] + Traverse(NoAliases, ZParamsClose)
  {
    ValidPositions();
    ConsistentIsValid(ZParams);
    RightToSibling(NoAliases, ZParams, 0);
  }

  lemma StepParamsClose()
    ensures Valid(ZParamsClose) && Next(NoAliases, ZParamsClose) == Some(ZBody)
    ensures Traverse(NoAliases, ZParamsClose) == [RParen] + Traverse(NoAliases, ZBody)
  {
    ValidPositions();
    ConsistentIsValid(ZParams);
    ConsistentIsValid(ZDeclaration);
    RightFromLast(NoAliases, ZParams);
    RightToSibling(NoAliases, ZDeclaration, 2);
    assert Up(NoAliases, ZParamsClose) == Some(ZParams);
  }

  lemma StepBody()
    ensures Valid(ZBody) && Next(NoAliases, ZBody) == Some(ZOpen)
    ensures Traverse(NoAliases, ZBody) == [Block] + Traverse(NoAliases, ZOpen)
  {
    ValidPositions();
    ConsistentIsValid(ZBody);
    DownToFirstChild(NoAliases, ZBody);
  }

  lemma StepOpen()
    ensures Valid(ZOpen) && Next(NoAliases, ZOpen) == Some(ZCall)
    ensures Traverse(NoAliases, ZOpen) == [LBrace] + Traverse(NoAliases, ZCall)
  {
    ValidPositions();
    ConsistentIsValid(ZBody);
    ConsistentIsValid(ZStatements);
    DownToFirstChild(NoAliases, ZStatements);
    RightIntoSibling(NoAliases, ZBody, 0);
  }

  lemma StepCall()
    ensures Valid(ZCall) && Next(NoAliases, ZCall) == Some(ZSayHello)
    ensures Traverse(NoAliases, ZCall) == [CallExpression] + Traverse(NoAliases, ZSayHello)
  {
    ValidPositions();
    ConsistentIsValid(ZCall);
    DownToFirstChild(NoAliases, ZCall);
  }

  lemma StepSayHello()
    ensures Valid(ZSayHello) && Next(NoAliases, ZSayHello) == Some(ZArguments)
    ensures Traverse(NoAliases, ZSayHello) == [Identifier] + Traverse(NoAliases, ZArguments)
  {
    ValidPositions();
    ConsistentIsValid(ZCall);
    RightToSibling(NoAliases, ZCall, 0);
  }

  lemma StepArguments()
    ensures Valid(ZArguments) && Next(NoAliases, ZArguments) == Some(ZArgumentsOpen)
    ensures Traverse(NoAliases, ZArguments) == [ArgumentList] + Traverse(NoAliases, ZArgumentsOpen)
  {
    ValidPositions();
    ConsistentIsValid(ZArguments);
    DownToFirstChild(NoAliases, ZArguments);
  }

  lemma StepArgumentsOpen()
    ensures Valid(ZArgumentsOpen) && Next(NoAliases, ZArgumentsOpen) == Some(ZArgumentsClose)
    ensures Traverse(NoAliases, ZArgumentsOpen) == [LParen] + Traverse(NoAliases, ZArgumentsClose)
  {
    ValidPositions();
    ConsistentIsValid(ZArguments);
    RightToSibling(NoAliases, ZArguments, 0);
  }

  /** From the last `)` the walk climbs out of the call and the hidden statement list to the `}`. */
  lemma StepArgumentsClose()
    ensures Valid(ZArgumentsClose) && Next(NoAliases, ZArgumentsClose) == Some(ZClose)
    ensures Traverse(NoAliases, ZArgumentsClose) == [RParen] + Traverse(NoAliases, ZClose)
  {
    ValidPositions();
    ConsistentIsValid(ZArguments);
    ConsistentIsValid(ZCall);
    ConsistentIsValid(ZStatements);
    ConsistentIsValid(ZBody);
    RightFromLast(NoAliases, ZArguments);
    RightFromLast(NoAliases, ZCall);
    RightFromLast(NoAliases, ZStatements);
    RightToSibling(NoAliases, ZBody, 1);
    assert Up(NoAliases, ZArgumentsClose) == Some(ZArguments);
    assert Up(NoAliases, ZArguments) == Some(ZCall);
    assert Right(NoAliases, ZArgumentsClose) == None;
    assert Right(NoAliases, ZArguments) == None;
    assert Right(NoAliases, ZCall) == Some(ZClose);
    assert ClimbRight(NoAliases, ZArguments) == Some(ZClose);
    assert ClimbRight(NoAliases, ZArgumentsClose) == Some(ZClose);
  }

  lemma StepClose()
    ensures Valid(ZClose) && Next(NoAliases, ZClose) == None
    ensures Traverse(NoAliases, ZClose) == [RBrace]
  {
    ValidPositions();
    ConsistentIsValid(ZBody);
    ConsistentIsValid(ZDeclaration);
    RightFromLast(NoAliases, ZBody);
    RightFromLast(NoAliases, ZDeclaration);
    RightFromLast(NoAliases, Root);
    assert Up(NoAliases, ZClose) == Some(ZBody);
    assert Up(NoAliases, ZBody) == Some(ZDeclaration);
    assert Up(NoAliases, ZDeclaration) == Some(Root);
  }

  /** The walk from the call expression to the end. */
  lemma TraverseFromCall()
    ensures Valid(ZCall)
    ensures Traverse(NoAliases, ZCall) == [CallExpression, Identifier, ArgumentList, LParen, RParen, RBrace]
  {
    StepCall(); StepSayHello(); StepArguments(); StepArgumentsOpen(); StepArgumentsClose(); StepClose();
  }

  /** The walk from the block to the end. */
  lemma TraverseFromBody()
    ensures Valid(ZBody)
    ensures Traverse(NoAliases, ZBody) ==
      [Block, LBrace, CallExpression, Identifier, ArgumentList, LParen, RParen, RBrace]
  {
    TraverseFromCall();
    StepBody(); StepOpen();
    Prepend2(Traverse(NoAliases, ZBody), Block, Traverse(NoAliases, ZOpen), LBrace, Traverse(NoAliases, ZCall));
  }

  /** Two steps of a walk prepend their two symbols. */
  lemma Prepend2(s0: seq<nat>, x: nat, s1: seq<nat>, y: nat, s2: seq<nat>)
    requires s0 == [x] + s1 && s1 == [y] + s2
    ensures s0 == [x, y] + s2
  {
  }

  /** The walk from the parameter list to the end. */
  lemma TraverseFromParams()
    ensures Valid(ZParams)
    ensures Traverse(NoAliases, ZParams) ==
      [ParameterList, LParen, RParen, Block, LBrace, CallExpression, Identifier, ArgumentList, LParen, RParen, RBrace]
  {
    TraverseFromBody();
    StepParams(); StepParamsOpen(); StepParamsClose();
  }

  /** The walk from the `func` keyword to the end. */
  lemma TraverseFromFunc()
    ensures Valid(ZFunc)
    ensures Traverse(NoAliases, ZFunc) ==
      [Func, Identifier, ParameterList, LParen, RParen, Block, LBrace, CallExpression, Identifier,
       ArgumentList, LParen, RParen, RBrace]
  {
    TraverseFromParams();
    StepFunc(); StepHello();
  }

  /**
   * The visiting test walks `next` from the root and collects fifteen node
   * types: the invisible statement list is skipped.
   */
  lemma GoTraversal()
    ensures Traverse(NoAliases, Root) ==
      [SourceFile, FunctionDeclaration, Func, Identifier, ParameterList, LParen, RParen,
       Block, LBrace, CallExpression, Identifier, ArgumentList, LParen, RParen, RBrace]
  {
    TraverseFromFunc();
    StepRoot(); StepDeclaration();
  }

  /**
   * down, down, right, right, right, down, right from the root reaches the
   * call expression, which starts at byte 15.
   */
  lemma GoNavigation()
    ensures var z1 := Down(NoAliases, Root);
      z1.Some? && var z2 := Down(NoAliases, z1.value);
      z2.Some? && var z3 := Right(NoAliases, z2.value);
      z3.Some? && var z4 := Right(NoAliases, z3.value);
      z4.Some? && var z5 := Right(NoAliases, z4.value);
      z5.Some? && var z6 := Down(NoAliases, z5.value);
      z6.Some? && var z7 := Right(NoAliases, z6.value);
      z7.Some? && z7.value.node.symbol == CallExpression && z7.value.byteOffset == 15
  {
    StepRoot(); StepDeclaration(); StepFunc(); StepHello(); StepOpen();
    ValidPositions();
    ConsistentIsValid(ZDeclaration);
    ConsistentIsValid(ZBody);
    RightToSibling(NoAliases, ZDeclaration, 2);
    assert Right(NoAliases, ZParams) == Some(ZBody);
  }

  // ---------------------------------------------------------------------
  // The tree's stored counts are right, so the general results apply.

  lemma LeafCounts(z: Zipper)
    requires z.node.children == [] && z.node.visibleChildCount == 0
    ensures CountsAgree(NoAliases, z)
  {
    assert VisibleChildren(NoAliases, z) == Parts(NoAliases, z, 0, 0);
  }

  lemma {:induction false} AllChildrenShown(p: Zipper, i: nat, j: nat)
    requires i <= j <= |p.node.children|
    requires forall k :: i <= k < j ==> Visible(NoAliases, ChildZipper(p, k))
    ensures |Parts(NoAliases, p, i, j)| == j - i
    decreases j - i
  {
    if i < j {
      AllChildrenShown(p, i + 1, j);
    }
  }

  /** Every visible child count of the Go tree is the number of visible children. */
  lemma GoTreeWellFormed()
    ensures WellFormed(NoAliases, Root)
  {
    LeafCounts(ZFunc);
    LeafCounts(ZHello);
    LeafCounts(ZParamsOpen);
    LeafCounts(ZParamsClose);
    LeafCounts(ZOpen);
    LeafCounts(ZSayHello);
    LeafCounts(ZArgumentsOpen);
    LeafCounts(ZArgumentsClose);
    LeafCounts(ZClose);
    AllChildrenShown(ZParams, 0, 2);
    assert CountsAgree(NoAliases, ZParams);
    AllChildrenShown(ZArguments, 0, 2);
    assert CountsAgree(NoAliases, ZArguments);
    AllChildrenShown(ZCall, 0, 2);
    assert CountsAgree(NoAliases, ZCall);
    AllChildrenShown(ZStatements, 0, 1);
    assert CountsAgree(NoAliases, ZStatements);
    assert |Shown(NoAliases, ZStatements)| == 1;
    assert |Parts(NoAliases, ZBody, 2, 3)| == 1 by {
      assert Parts(NoAliases, ZBody, 2, 3) == Shown(NoAliases, ZClose) + Parts(NoAliases, ZBody, 3, 3);
    }
    assert |Parts(NoAliases, ZBody, 1, 3)| == 2 by {
      assert Parts(NoAliases, ZBody, 1, 3) == Shown(NoAliases, ZStatements) + Parts(NoAliases, ZBody, 2, 3);
    }
    assert |VisibleChildren(NoAliases, ZBody)| == 3 by {
      assert Parts(NoAliases, ZBody, 0, 3) == Shown(NoAliases, ZOpen) + Parts(NoAliases, ZBody, 1, 3);
    }
    assert CountsAgree(NoAliases, ZBody);
    AllChildrenShown(ZDeclaration, 0, 4);
    assert CountsAgree(NoAliases, ZDeclaration);
    AllChildrenShown(Root, 0, 1);
  }
}
