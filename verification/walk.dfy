/**
  The first half of the template builder: `walk` turns the scope-tagged tokens of a view
  into a list of tree nodes (text, inline expressions and code blocks, with include
  directives inside blocks).

  `WalkFrom` and the functions around it describe the walk as recursive descent over the
  position of the current token; `Walk` is the single left-to-right pass with an index
  cursor and nested loops, proved to compute the same result.
*/
module Walk {
  import opened Wrappers
  import opened Strings

  /** A position in a view: a line and a column, as the tokenizer numbers them. */
  datatype Pos = Pos(line: int, column: int)

  datatype Loc = Loc(start: Pos, end: Pos)

  /** A token as `walk` reads it: its text, its space-separated scope names and its range. */
  datatype BToken = BToken(value: string, scope: string, start: Pos, end: Pos)

  /** A child of a node: a token's text, or (inside a block) an include directive. */
  datatype Child =
    | Leaf(value: string, loc: Loc)
    | Include(loc: Loc, args: seq<string>)

  datatype NodeType = BlockNode | InlineNode | TextNode

  datatype Tree = Tree(kind: NodeType, loc: Loc, children: seq<Child>)

  /** Reading the scope of a token past the end of the list, which throws. */
  datatype WalkError = ScopeOfUndefined

  const PlainText: string := "plain.text.exp"
  const InlineStart: string := "inline.begin.exp"
  const InlineEnd: string := "inline.end.exp"
  const BlockStart: string := "block.begin.exp"
  const BlockEnd: string := "block.end.exp"
  const IncludeStart: string := "include.begin.exp"
  const IncludeEnd: string := "include.end.exp"

  /** Whether one of the space-separated scope names of `t` is `name`. */
  predicate HasScope(t: BToken, name: string)
  {
    name in Split(t.scope, ' ')
  }

  /** The token at `q` has scope `name`; false past the end (an undefined token). */
  predicate Has(tokens: seq<BToken>, q: nat, name: string)
  {
    q < |tokens| && HasScope(tokens[q], name)
  }

  /** The end of a region that stops at `q`: that token's end, or the last token's end. */
  function EndAt(tokens: seq<BToken>, q: nat): Pos
    requires |tokens| > 0
  {
    if q < |tokens| then tokens[q].end else tokens[|tokens| - 1].end
  }

  function LeafOf(t: BToken): Child
  {
    Leaf(t.value, Loc(t.start, t.end))
  }

  function TextTree(t: BToken): Tree
  {
    Tree(TextNode, Loc(t.start, t.end), [LeafOf(t)])
  }

  /**
    The parameters of an include directive from `q` on: the values up to the next
    include end token (or the end of the list) appended to `params`, and where it stopped.
  */
  function ScanParams(tokens: seq<BToken>, q: nat, params: string): (r: (string, nat))
    requires q <= |tokens|
    ensures q <= r.1 <= |tokens|
    decreases |tokens| - q
  {
    if q == |tokens| || Has(tokens, q, IncludeEnd) then (params, q)
    else ScanParams(tokens, q + 1, params + tokens[q].value)
  }

  /** The children of an inline expression from `q` on: every token up to the next inline end. */
  function ScanInline(tokens: seq<BToken>, q: nat, acc: seq<Child>): (r: (seq<Child>, nat))
    requires q <= |tokens|
    ensures q <= r.1 <= |tokens|
    decreases |tokens| - q
  {
    if q == |tokens| || Has(tokens, q, InlineEnd) then (acc, q)
    else ScanInline(tokens, q + 1, acc + [LeafOf(tokens[q])])
  }

  /**
    The children of a block from `q` on, up to the next block end token (or the end of
    the list), appended to `acc`, and where it stopped.
  */
  function ScanBlock(tokens: seq<BToken>, q: nat, acc: seq<Child>): (r: Result<(seq<Child>, nat), WalkError>)
    requires q <= |tokens|
    ensures r.Ok? ==> q <= r.value.1 <= |tokens|
    decreases |tokens| - q, 1
  {
    if q == |tokens| || Has(tokens, q, BlockEnd) then Ok((acc, q))
    else AfterIncludes(tokens, q, acc)
  }

  /**
    Inside a block, at a token that is not a block end: a run of include directives, each
    followed by the token after its end, and then one token pushed as a child whatever its
    scope (a block end included). Running out of tokens right after a directive is the
    source's read of `scope` on an undefined token.
  */
  function AfterIncludes(tokens: seq<BToken>, q: nat, acc: seq<Child>): (r: Result<(seq<Child>, nat), WalkError>)
    requires q < |tokens|
    ensures r.Ok? ==> q < r.value.1 <= |tokens|
    decreases |tokens| - q, 0
  {
    if Has(tokens, q, IncludeStart) then
      var (params, e) := ScanParams(tokens, q + 1, "");
      var directive := Include(Loc(tokens[q].start, EndAt(tokens, e)), Split(params, ','));
      if e + 1 >= |tokens| then Err(ScopeOfUndefined)
      else AfterIncludes(tokens, e + 1, acc + [directive])
    else ScanBlock(tokens, q + 1, acc + [LeafOf(tokens[q])])
  }

  /** The outer loop from cursor `i` on, with the nodes `tree` already emitted. */
  function WalkFrom(tokens: seq<BToken>, i: nat, tree: seq<Tree>): Result<seq<Tree>, WalkError>
    requires i <= |tokens| + 1
    decreases |tokens| + 1 - i, 3
  {
    if i >= |tokens| then Ok(tree) else BlockCheck(tokens, i, tree)
  }

  /** The first check on the current token `c`: a block start opens a block. */
  function BlockCheck(tokens: seq<BToken>, c: nat, tree: seq<Tree>): Result<seq<Tree>, WalkError>
    requires c < |tokens|
    decreases |tokens| + 1 - c, 2
  {
    if Has(tokens, c, BlockStart) then
      match ScanBlock(tokens, c + 1, [])
      case Err(e) => Err(e)
      case Ok((children, q)) =>
        InlineCheck(tokens, q, tree + [Tree(BlockNode, Loc(tokens[c].start, EndAt(tokens, q)), children)])
    else InlineCheck(tokens, c, tree)
  }

  /** The second check, on the token the first one ended on: an inline start opens an expression. */
  function InlineCheck(tokens: seq<BToken>, c: nat, tree: seq<Tree>): Result<seq<Tree>, WalkError>
    requires c <= |tokens|
    requires |tokens| > 0
    decreases |tokens| + 1 - c, 1
  {
    if Has(tokens, c, InlineStart) then
      var (children, q) := ScanInline(tokens, c + 1, []);
      TextCheck(tokens, q, tree + [Tree(InlineNode, Loc(tokens[c].start, EndAt(tokens, q)), children)])
    else TextCheck(tokens, c, tree)
  }

  /** The third check, on the token the second one ended on: plain text is a text node. */
  function TextCheck(tokens: seq<BToken>, c: nat, tree: seq<Tree>): Result<seq<Tree>, WalkError>
    requires c <= |tokens|
    decreases |tokens| + 1 - c, 0
  {
    WalkFrom(tokens, c + 1, if Has(tokens, c, PlainText) then tree + [TextTree(tokens[c])] else tree)
  }

  /** What `walk` returns for a token list. */
  function WalkSpec(tokens: seq<BToken>): Result<seq<Tree>, WalkError>
  {
    WalkFrom(tokens, 0, [])
  }

  /**
    The `walk` pass: an index cursor over the tokens. The loops over the inside of a
    block, of an include directive and of an inline expression are `ReadBlock`,
    `ReadParams` and `ReadInline`; each hands back the position of the token it stopped on.
  */
  method Walk(tokens: seq<BToken>) returns (r: Result<seq<Tree>, WalkError>)
    ensures r == WalkSpec(tokens)
  {
    var n := |tokens|;
    var tree: seq<Tree> := [];
    var index := 0;
    while index < n
      invariant 0 <= index <= n + 1
      invariant WalkFrom(tokens, index, tree) == WalkSpec(tokens)
      decreases n + 1 - index
    {
      var cur := index;
      index := index + 1;
      assert BlockCheck(tokens, cur, tree) == WalkSpec(tokens);
      if HasScope(tokens[cur], BlockStart) {
        var start := tokens[cur].start;
        var scanned := ReadBlock(tokens, cur);
        if scanned.Err? {
          assert BlockCheck(tokens, cur, tree) == Err(scanned.error);
          return Err(scanned.error);
        }
        var block;
        block, cur := scanned.value.0, scanned.value.1;
        BlockOpens(tokens, index - 1, tree);
        index := cur + 1;
        tree := tree + [Tree(BlockNode, Loc(start, EndAt(tokens, cur)), block)];
      }
      assert InlineCheck(tokens, cur, tree) == WalkSpec(tokens);
      if cur < n && HasScope(tokens[cur], InlineStart) {
        var start := tokens[cur].start;
        InlineOpens(tokens, cur, tree);
        var block;
        block, cur := ReadInline(tokens, cur);
        index := cur + 1;
        tree := tree + [Tree(InlineNode, Loc(start, EndAt(tokens, cur)), block)];
      }
      assert TextCheck(tokens, cur, tree) == WalkSpec(tokens);
      if cur < n && HasScope(tokens[cur], PlainText) {
        tree := tree + [TextTree(tokens[cur])];
      }
    }
    return Ok(tree);
  }

  /** The loop over the inside of a block whose start token is at `c`. */
  method ReadBlock(tokens: seq<BToken>, c: nat) returns (r: Result<(seq<Child>, nat), WalkError>)
    requires c < |tokens|
    ensures r == ScanBlock(tokens, c + 1, [])
  {
    var n := |tokens|;
    var block: seq<Child> := [];
    var index := c + 1;
    var cur := index;
    index := index + 1;
    while cur < n && !HasScope(tokens[cur], BlockEnd)
      invariant c < cur <= n && index == cur + 1
      invariant ScanBlock(tokens, c + 1, []) == ScanBlock(tokens, cur, block)
      decreases n - cur
    {
      while HasScope(tokens[cur], IncludeStart)
        invariant c < cur < n && index == cur + 1
        invariant ScanBlock(tokens, c + 1, []) == AfterIncludes(tokens, cur, block)
        decreases n - cur
      {
        var includeStart := tokens[cur].start;
        var params;
        params, cur := ReadParams(tokens, cur);
        index := cur + 1;
        block := block + [Include(Loc(includeStart, EndAt(tokens, cur)), Split(params, ','))];
        cur := index;
        index := index + 1;
        if cur >= n {
          return Err(ScopeOfUndefined);
        }
      }
      block := block + [LeafOf(tokens[cur])];
      cur := index;
      index := index + 1;
    }
    return Ok((block, cur));
  }

  /** The loop over the parameters of an include directive whose start token is at `c`. */
  method ReadParams(tokens: seq<BToken>, c: nat) returns (params: string, cur: nat)
    requires c < |tokens|
    ensures (params, cur) == ScanParams(tokens, c + 1, "")
  {
    var n := |tokens|;
    params := "";
    var index := c + 1;
    cur := index;
    index := index + 1;
    while cur < n && !HasScope(tokens[cur], IncludeEnd)
      invariant c < cur <= n && index == cur + 1
      invariant ScanParams(tokens, c + 1, "") == ScanParams(tokens, cur, params)
      decreases n - cur
    {
      params := params + tokens[cur].value;
      cur := index;
      index := index + 1;
    }
  }

  /** The loop over the inside of an inline expression whose start token is at `c`. */
  method ReadInline(tokens: seq<BToken>, c: nat) returns (block: seq<Child>, cur: nat)
    requires c < |tokens|
    ensures (block, cur) == ScanInline(tokens, c + 1, [])
  {
    var n := |tokens|;
    block := [];
    var index := c + 1;
    cur := index;
    index := index + 1;
    while cur < n && !HasScope(tokens[cur], InlineEnd)
      invariant c < cur <= n && index == cur + 1
      invariant ScanInline(tokens, c + 1, []) == ScanInline(tokens, cur, block)
      decreases n - cur
    {
      block := block + [LeafOf(tokens[cur])];
      cur := index;
      index := index + 1;
    }
  }

  // ---------------------------------------------------------------------------------
  // Properties of the walk.
  // ---------------------------------------------------------------------------------

  /** A plain-text token the cursor reaches outside any region is exactly one text node. */
  lemma PlainTextStep(tokens: seq<BToken>, i: nat, tree: seq<Tree>)
    requires i < |tokens|
    requires !Has(tokens, i, BlockStart) && !Has(tokens, i, InlineStart) && Has(tokens, i, PlainText)
    ensures WalkFrom(tokens, i, tree) == WalkFrom(tokens, i + 1, tree + [TextTree(tokens[i])])
  {
    assert WalkFrom(tokens, i, tree) == InlineCheck(tokens, i, tree);
  }

  /** A token the cursor reaches that opens no region and is not plain text (a stray end marker) is dropped. */
  lemma StrayTokenStep(tokens: seq<BToken>, i: nat, tree: seq<Tree>)
    requires i < |tokens|
    requires !Has(tokens, i, BlockStart) && !Has(tokens, i, InlineStart) && !Has(tokens, i, PlainText)
    ensures WalkFrom(tokens, i, tree) == WalkFrom(tokens, i + 1, tree)
  {
    assert WalkFrom(tokens, i, tree) == InlineCheck(tokens, i, tree);
  }

  /** A view of plain text only gives one text node per token, each with that token's range and value. */
  lemma {:induction false} WalkAllText(tokens: seq<BToken>, i: nat, tree: seq<Tree>)
    requires i <= |tokens|
    requires forall k :: 0 <= k < |tokens| ==>
      !HasScope(tokens[k], BlockStart) && !HasScope(tokens[k], InlineStart) && HasScope(tokens[k], PlainText)
    ensures WalkFrom(tokens, i, tree) ==
      Ok(tree + seq(|tokens| - i, k requires 0 <= k < |tokens| - i => TextTree(tokens[i + k])))
    decreases |tokens| - i
  {
    var texts := seq(|tokens| - i, k requires 0 <= k < |tokens| - i => TextTree(tokens[i + k]));
    if i == |tokens| {
      assert texts == [];
      assert tree + texts == tree;
    } else {
      PlainTextStep(tokens, i, tree);
      WalkAllText(tokens, i + 1, tree + [TextTree(tokens[i])]);
      var rest := seq(|tokens| - (i + 1), k requires 0 <= k < |tokens| - (i + 1) => TextTree(tokens[i + 1 + k]));
      assert texts == [TextTree(tokens[i])] + rest;
      assert tree + [TextTree(tokens[i])] + rest == tree + texts;
    }
  }

  /**
    An inline expression's children are, in order, exactly the tokens from `q` up to the
    first inline end token (or the end of the list), none of them an inline end.
  */
  lemma {:induction false} ScanInlineChildren(tokens: seq<BToken>, q: nat, acc: seq<Child>)
    requires q <= |tokens|
    ensures var (children, e) := ScanInline(tokens, q, acc);
      && (forall k :: q <= k < e ==> !Has(tokens, k, InlineEnd))
      && (e < |tokens| ==> Has(tokens, e, InlineEnd))
      && children == acc + seq(e - q, k requires 0 <= k < e - q => LeafOf(tokens[q + k]))
    decreases |tokens| - q
  {
    if q < |tokens| && !Has(tokens, q, InlineEnd) {
      ScanInlineChildren(tokens, q + 1, acc + [LeafOf(tokens[q])]);
      var e := ScanInline(tokens, q, acc).1;
      var tail := seq(e - (q + 1), k requires 0 <= k < e - (q + 1) => LeafOf(tokens[q + 1 + k]));
      assert seq(e - q, k requires 0 <= k < e - q => LeafOf(tokens[q + k])) == [LeafOf(tokens[q])] + tail;
    }
  }

  /**
    An inline start the cursor reaches outside a block becomes one inline node: it starts
    at the start token, ends at the inline end token (or at the last token when
    unterminated), and holds exactly the tokens strictly between. This step never fails.
  */
  lemma InlineStep(tokens: seq<BToken>, c: nat, tree: seq<Tree>)
    requires c < |tokens|
    requires !Has(tokens, c, BlockStart) && Has(tokens, c, InlineStart)
    ensures var (children, e) := ScanInline(tokens, c + 1, []);
      && WalkFrom(tokens, c, tree) ==
           TextCheck(tokens, e, tree + [Tree(InlineNode, Loc(tokens[c].start, EndAt(tokens, e)), children)])
      && (forall k :: c < k < e ==> !Has(tokens, k, InlineEnd))
      && (e < |tokens| ==> Has(tokens, e, InlineEnd))
      && (e == |tokens| ==> EndAt(tokens, e) == tokens[|tokens| - 1].end)
      && children == seq(e - c - 1, k requires 0 <= k < e - c - 1 => LeafOf(tokens[c + 1 + k]))
  {
    ScanInlineChildren(tokens, c + 1, []);
    assert WalkFrom(tokens, c, tree) == BlockCheck(tokens, c, tree);
    assert BlockCheck(tokens, c, tree) == InlineCheck(tokens, c, tree);
  }

  /** A block start whose inside scans opens a block node and hands over to the inline check. */
  lemma BlockOpens(tokens: seq<BToken>, c: nat, tree: seq<Tree>)
    requires c < |tokens| && Has(tokens, c, BlockStart) && ScanBlock(tokens, c + 1, []).Ok?
    ensures var (children, q) := ScanBlock(tokens, c + 1, []).value;
      BlockCheck(tokens, c, tree) ==
        InlineCheck(tokens, q, tree + [Tree(BlockNode, Loc(tokens[c].start, EndAt(tokens, q)), children)])
  {
  }

  /** An inline start opens an inline node and hands over to the text check. */
  lemma InlineOpens(tokens: seq<BToken>, c: nat, tree: seq<Tree>)
    requires c < |tokens| && Has(tokens, c, InlineStart)
    ensures var (children, q) := ScanInline(tokens, c + 1, []);
      InlineCheck(tokens, c, tree) ==
        TextCheck(tokens, q, tree + [Tree(InlineNode, Loc(tokens[c].start, EndAt(tokens, q)), children)])
  {
  }

  /** The values of a list of tokens, concatenated. */
  function Values(ts: seq<BToken>): string
    decreases |ts|
  {
    if ts == [] then [] else ts[0].value + Values(ts[1..])
  }

  /**
    The parameters of an include directive are the concatenated values of the tokens from
    `q` up to the first include end token (or the end of the list), none of them an include end.
  */
  lemma {:induction false} ScanParamsValues(tokens: seq<BToken>, q: nat, params: string)
    requires q <= |tokens|
    ensures var (p, e) := ScanParams(tokens, q, params);
      && (forall k :: q <= k < e ==> !Has(tokens, k, IncludeEnd))
      && (e < |tokens| ==> Has(tokens, e, IncludeEnd))
      && p == params + Values(tokens[q..e])
    decreases |tokens| - q
  {
    var e := ScanParams(tokens, q, params).1;
    if q < |tokens| && !Has(tokens, q, IncludeEnd) {
      ScanParamsValues(tokens, q + 1, params + tokens[q].value);
      assert tokens[q..e][1..] == tokens[q + 1..e];
    } else {
      assert tokens[q..e] == [];
    }
  }

  /** Every include directive has at least one argument. */
  predicate ArgsNonEmpty(children: seq<Child>)
  {
    forall i :: 0 <= i < |children| && children[i].Include? ==> |children[i].args| >= 1
  }

  /**
    An include directive at `q` carries the parameter text split on commas, which is never
    empty, and that text is the concatenation of the values between its start and end tokens.
  */
  lemma IncludeDirective(tokens: seq<BToken>, q: nat)
    requires q < |tokens| && Has(tokens, q, IncludeStart)
    ensures var (params, e) := ScanParams(tokens, q + 1, "");
      && params == Values(tokens[q + 1..e])
      && |Split(params, ',')| >= 1
      && Join(Split(params, ','), ",") == params
  {
    var (params, e) := ScanParams(tokens, q + 1, "");
    ScanParamsValues(tokens, q + 1, "");
    JoinSplit(params, ',');
  }

  /** Blocks only ever hold include directives with at least one argument. */
  lemma {:induction false} ScanBlockArgs(tokens: seq<BToken>, q: nat, acc: seq<Child>)
    requires q <= |tokens|
    requires ArgsNonEmpty(acc)
    ensures ScanBlock(tokens, q, acc).Ok? ==> ArgsNonEmpty(ScanBlock(tokens, q, acc).value.0)
    decreases |tokens| - q, 1
  {
    if q < |tokens| && !Has(tokens, q, BlockEnd) {
      AfterIncludesArgs(tokens, q, acc);
    }
  }

  lemma {:induction false} AfterIncludesArgs(tokens: seq<BToken>, q: nat, acc: seq<Child>)
    requires q < |tokens|
    requires ArgsNonEmpty(acc)
    ensures AfterIncludes(tokens, q, acc).Ok? ==> ArgsNonEmpty(AfterIncludes(tokens, q, acc).value.0)
    decreases |tokens| - q, 0
  {
    if Has(tokens, q, IncludeStart) {
      var (params, e) := ScanParams(tokens, q + 1, "");
      var directive := Include(Loc(tokens[q].start, EndAt(tokens, e)), Split(params, ','));
      if e + 1 < |tokens| {
        AfterIncludesArgs(tokens, e + 1, acc + [directive]);
      }
    } else {
      ScanBlockArgs(tokens, q + 1, acc + [LeafOf(tokens[q])]);
    }
  }

  /** No token opens an include directive. */
  predicate NoIncludes(tokens: seq<BToken>)
  {
    forall k :: 0 <= k < |tokens| ==> !HasScope(tokens[k], IncludeStart)
  }

  /** Without include directives the inside of a block is always read to its end. */
  lemma {:induction false} ScanBlockNoIncludes(tokens: seq<BToken>, q: nat, acc: seq<Child>)
    requires q <= |tokens| && NoIncludes(tokens)
    ensures ScanBlock(tokens, q, acc).Ok?
    decreases |tokens| - q
  {
    if q < |tokens| && !Has(tokens, q, BlockEnd) {
      ScanBlockNoIncludes(tokens, q + 1, acc + [LeafOf(tokens[q])]);
    }
  }

  /** The shape `compile` relies on: a text node holds one token, an inline node only tokens. */
  predicate WellFormed(t: Tree)
  {
    && (t.kind == TextNode ==> |t.children| == 1 && t.children[0].Leaf?)
    && (t.kind == InlineNode ==> forall i :: 0 <= i < |t.children| ==> t.children[i].Leaf?)
  }

  predicate AllWellFormed(tree: seq<Tree>)
  {
    forall i :: 0 <= i < |tree| ==> WellFormed(tree[i])
  }

  /**
    The cursor only advances: from cursor `i`, the walk emits at most one node per token
    left, every node it emits is well formed, and it fails only if some token opens an
    include directive.
  */
  lemma {:induction false} WalkFromShape(tokens: seq<BToken>, i: nat, tree: seq<Tree>)
    requires i <= |tokens| + 1
    requires AllWellFormed(tree)
    ensures WalkFrom(tokens, i, tree).Ok? ==>
      && |WalkFrom(tokens, i, tree).value| <= |tree| + (if i <= |tokens| then |tokens| - i else 0)
      && AllWellFormed(WalkFrom(tokens, i, tree).value)
    ensures NoIncludes(tokens) ==> WalkFrom(tokens, i, tree).Ok?
    decreases |tokens| + 1 - i, 3
  {
    if i < |tokens| {
      BlockCheckShape(tokens, i, tree);
    }
  }

  lemma {:induction false} BlockCheckShape(tokens: seq<BToken>, c: nat, tree: seq<Tree>)
    requires c < |tokens|
    requires AllWellFormed(tree)
    ensures BlockCheck(tokens, c, tree).Ok? ==>
      && |BlockCheck(tokens, c, tree).value| <= |tree| + |tokens| - c
      && AllWellFormed(BlockCheck(tokens, c, tree).value)
    ensures NoIncludes(tokens) ==> BlockCheck(tokens, c, tree).Ok?
    decreases |tokens| + 1 - c, 2
  {
    if Has(tokens, c, BlockStart) {
      if NoIncludes(tokens) {
        ScanBlockNoIncludes(tokens, c + 1, []);
      }
      match ScanBlock(tokens, c + 1, [])
      case Err(_) =>
      case Ok((children, q)) =>
        var node := Tree(BlockNode, Loc(tokens[c].start, EndAt(tokens, q)), children);
        assert AllWellFormed(tree + [node]) by {
          assert forall i :: 0 <= i < |tree| ==> (tree + [node])[i] == tree[i];
        }
        InlineCheckShape(tokens, q, tree + [node]);
    } else {
      InlineCheckShape(tokens, c, tree);
    }
  }

  lemma {:induction false} InlineCheckShape(tokens: seq<BToken>, c: nat, tree: seq<Tree>)
    requires c <= |tokens| && |tokens| > 0
    requires AllWellFormed(tree)
    ensures InlineCheck(tokens, c, tree).Ok? ==>
      && |InlineCheck(tokens, c, tree).value| <= |tree| + |tokens| - c
      && AllWellFormed(InlineCheck(tokens, c, tree).value)
    ensures NoIncludes(tokens) ==> InlineCheck(tokens, c, tree).Ok?
    decreases |tokens| + 1 - c, 1
  {
    if Has(tokens, c, InlineStart) {
      var scanned := ScanInline(tokens, c + 1, []);
      var children, q := scanned.0, scanned.1;
      ScanInlineChildren(tokens, c + 1, []);
      var node := Tree(InlineNode, Loc(tokens[c].start, EndAt(tokens, q)), children);
      forall k | 0 <= k < |children| ensures children[k].Leaf? {
        assert children[k] == LeafOf(tokens[c + 1 + k]);
      }
      assert AllWellFormed(tree + [node]) by {
        assert forall i :: 0 <= i < |tree| ==> (tree + [node])[i] == tree[i];
      }
      TextCheckShape(tokens, q, tree + [node]);
    } else {
      TextCheckShape(tokens, c, tree);
    }
  }

  lemma {:induction false} TextCheckShape(tokens: seq<BToken>, c: nat, tree: seq<Tree>)
    requires c <= |tokens|
    requires AllWellFormed(tree)
    ensures TextCheck(tokens, c, tree).Ok? ==>
      && |TextCheck(tokens, c, tree).value| <= |tree| + |tokens| - c
      && AllWellFormed(TextCheck(tokens, c, tree).value)
    ensures NoIncludes(tokens) ==> TextCheck(tokens, c, tree).Ok?
    decreases |tokens| + 1 - c, 0
  {
    var next := if Has(tokens, c, PlainText) then tree + [TextTree(tokens[c])] else tree;
    assert AllWellFormed(next) by {
      assert forall i :: 0 <= i < |tree| ==> next[i] == tree[i];
    }
    WalkFromShape(tokens, c + 1, next);
  }

  /**
    `walk` emits at most one node per token, every node well formed, and it fails only
    on a view with include directives.
  */
  lemma WalkShape(tokens: seq<BToken>)
    ensures WalkSpec(tokens).Ok? ==> |WalkSpec(tokens).value| <= |tokens| && AllWellFormed(WalkSpec(tokens).value)
    ensures NoIncludes(tokens) ==> WalkSpec(tokens).Ok?
  {
    WalkFromShape(tokens, 0, []);
  }

  /** An include directive that is the last thing in the list makes `walk` fail. */
  lemma IncludeAtEndFails(s: BToken, i: BToken)
    requires HasScope(s, BlockStart) && !HasScope(i, BlockEnd) && HasScope(i, IncludeStart)
    ensures WalkSpec([s, i]).Err?
  {
    var tokens := [s, i];
    assert Has(tokens, 0, BlockStart) && !Has(tokens, 1, BlockEnd) && Has(tokens, 1, IncludeStart);
    assert ScanParams(tokens, 2, "") == ("", 2);
    assert AfterIncludes(tokens, 1, []) == Err(ScopeOfUndefined);
    assert ScanBlock(tokens, 1, []).Err?;
    assert BlockCheck(tokens, 0, []).Err?;
  }
}
