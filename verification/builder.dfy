/**
  The second half of the template builder. `compile` turns the tree nodes of a view into
  nodes of the `source-map` library whose text is the generated JavaScript; `include`
  parses an included view once and caches it; the builder records every include it
  resolved and every include that failed; `getIncludeTraces` follows those records back
  from a generated position to the chain of include directives that produced it.
*/
module Builder {
  import opened Wrappers
  import opened Strings
  import opened Utils
  import opened Walk

  // ---------------------------------------------------------------------------------
  // Source-map nodes and the code they stand for.
  // ---------------------------------------------------------------------------------

  /** A chunk of a source-map node: generated text, or a nested node. */
  datatype Chunk = Str(text: string) | Node(node: SourceNode)

  /**
    A node of the `source-map` library: the original position it maps (a 1-based line
    and column), if any, the original file and the chunks of generated code.
  */
  datatype SourceNode = SourceNode(pos: Option<(int, int)>, source: string, children: seq<Chunk>)

  /** The generated code of a node: the text of its chunks, in order. */
  function Code(n: SourceNode): string
  {
    ChunksCode(n.children)
  }

  function ChunkCode(c: Chunk): string
    decreases c
  {
    match c
    case Str(s) => s
    case Node(m) => ChunksCode(m.children)
  }

  function ChunksCode(cs: seq<Chunk>): string
    decreases cs
  {
    if cs == [] then "" else ChunkCode(cs[0]) + ChunksCode(cs[1..])
  }

  lemma {:induction false} ChunksCodeConcat(a: seq<Chunk>, b: seq<Chunk>)
    ensures ChunksCode(a + b) == ChunksCode(a) + ChunksCode(b)
    decreases |a|
  {
    if a == [] {
      assert a + b == b;
    } else {
      assert (a + b)[0] == a[0] && (a + b)[1..] == a[1..] + b;
      ChunksCodeConcat(a[1..], b);
    }
  }

  /** Where the node of a tree node or token points: its start, counted from 1. */
  function Origin(loc: Loc): (int, int)
  {
    (loc.start.line + 1, loc.start.column + 1)
  }

  function Fragment(loc: Loc, source: string, chunks: seq<Chunk>): SourceNode
  {
    SourceNode(Some(Origin(loc)), source, chunks)
  }

  // ---------------------------------------------------------------------------------
  // Compiling the nodes that do not include anything.
  // ---------------------------------------------------------------------------------

  /**
    The code of a text node: a `write` call on a double-quoted string literal holding the
    text with its quotes escaped and every line break written as the escape `\n`.
  */
  function TextCode(value: string): string
  {
    ";write(\"" + JoinLines(EscapeQuotes(value), "\\n") + "\");"
  }

  /** The literal holds the text's lines, each with its quotes escaped, and no line feed. */
  lemma TextCodeLines(value: string)
    ensures TextCode(value) == ";write(\"" + Join(EscapeEach(SplitLines(value)), "\\n") + "\");"
    ensures '\n' !in TextCode(value)
  {
    SplitLinesEscapeQuotes(value);
    JoinWithout(SplitLines(EscapeQuotes(value)), "\\n", '\n');
  }

  /** Text without quotes or line feeds is written as it is. */
  lemma TextCodePlain(value: string)
    requires QuoteCount(value) == 0 && '\n' !in value
    ensures TextCode(value) == ";write(\"" + value + "\");"
  {
    EscapeQuotesPlain(value);
    SingleLine(value);
  }

  /**
    The character a backslash escape stands for in a JavaScript string literal, for the
    escape character `c`: the single-character escapes `b`, `f`, `n`, `r`, `t` and `v`
    have their control characters, and any other character stands for itself. None for
    the escapes this model does not read: digits, `x`, `u` and a backslash before a line
    break (a line continuation); a text node's literal holds none of them.
  */
  function EscapeValue(c: char): Option<string>
  {
    if c == 'n' then Some("\n")
    else if c == 'r' then Some("\r")
    else if c == 't' then Some("\t")
    else if c == 'b' then Some("\U{8}")
    else if c == 'f' then Some("\U{C}")
    else if c == 'v' then Some("\U{B}")
    else if c == 'x' || c == 'u' || '0' <= c <= '9' || c == '\n' || c == '\r' || c == '\U{2028}' || c == '\U{2029}' then None
    else Some([c])
  }

  /**
    The value of the body of a double-quoted JavaScript string literal. None when the body
    is not one literal body: a raw line feed or carriage return is a syntax error, a raw
    double quote ends the literal, and a final lone backslash escapes the closing quote.
    None also for an escape `EscapeValue` does not read.
  */
  function Unescape(s: string): Option<string>
    decreases |s|
  {
    if s == [] then Some([])
    else if s[0] == '"' || s[0] == '\n' || s[0] == '\r' then None
    else if s[0] == '\\' then
      if |s| < 2 then None
      else
        var v := EscapeValue(s[1]);
        var rest := Unescape(s[2..]);
        if v.Some? && rest.Some? then Some(v.value + rest.value) else None
    else
      var rest := Unescape(s[1..]);
      if rest.Some? then Some([s[0]] + rest.value) else None
  }

  /** A line break anywhere in a literal body makes it no literal this model reads. */
  lemma {:induction false} UnescapeRejectsBreaks(s: string)
    requires '\r' in s || '\n' in s
    ensures Unescape(s).None?
    decreases |s|
  {
    if s[0] == '"' || s[0] == '\n' || s[0] == '\r' {
    } else if s[0] == '\\' {
      if |s| >= 2 && s[1] != '\n' && s[1] != '\r' {
        assert s == s[..2] + s[2..];
        UnescapeRejectsBreaks(s[2..]);
      }
    } else {
      assert s == [s[0]] + s[1..];
      UnescapeRejectsBreaks(s[1..]);
    }
  }

  /** A plain character is read as itself, in front of what the rest reads as. */
  lemma UnescapeCons(c: char, t: string)
    requires c != '"' && c != '\n' && c != '\r' && c != '\\'
    ensures Unescape([c] + t) == if Unescape(t).Some? then Some([c] + Unescape(t).value) else None
  {
    assert ([c] + t)[1..] == t;
  }

  /** An escape is read as the character it stands for, in front of what the rest reads as. */
  lemma UnescapeEscaped(c: char, t: string)
    requires EscapeValue(c).Some?
    ensures Unescape(['\\', c] + t) ==
      if Unescape(t).Some? then Some(EscapeValue(c).value + Unescape(t).value) else None
  {
    assert (['\\', c] + t)[2..] == t;
  }

  /**
    Reading the escaped form of backslash-free text on one line gives the text back, and
    the rest of the body reads as it would alone.
  */
  lemma {:induction false} UnescapeEscapeQuotes(x: string, rest: string)
    requires '\\' !in x && '\n' !in x && '\r' !in x
    ensures Unescape(rest).Some? ==> Unescape(EscapeQuotes(x) + rest) == Some(x + Unescape(rest).value)
    ensures Unescape(rest).None? ==> Unescape(EscapeQuotes(x) + rest).None?
    decreases |x|
  {
    if x == [] {
      assert EscapeQuotes(x) + rest == rest;
      assert Unescape(rest).Some? ==> x + Unescape(rest).value == Unescape(rest).value;
    } else {
      var c := x[0];
      var t := EscapeQuotes(x[1..]) + rest;
      UnescapeEscapeQuotes(x[1..], rest);
      var head := if IsQuote(c) then ['\\', c] else [c];
      assert EscapeQuotes(x) == head + EscapeQuotes(x[1..]);
      assert EscapeQuotes(x) + rest == head + t;
      var ut := Unescape(t);
      if IsQuote(c) {
        assert EscapeValue(c) == Some([c]);
        UnescapeEscaped(c, t);
      } else {
        UnescapeCons(c, t);
      }
      assert Unescape(head + t) == if ut.Some? then Some([c] + ut.value) else None;
      if Unescape(rest).Some? {
        var u := Unescape(rest).value;
        assert ut == Some(x[1..] + u);
        assert [c] + (x[1..] + u) == x + u;
      }
    }
  }

  lemma {:induction false} UnescapeLines(lines: seq<string>)
    requires forall i :: 0 <= i < |lines| ==> '\\' !in lines[i] && '\n' !in lines[i] && '\r' !in lines[i]
    ensures Unescape(Join(EscapeEach(lines), "\\n")) == Some(Join(lines, "\n"))
    decreases |lines|
  {
    var es := EscapeEach(lines);
    if |lines| == 1 {
      assert Join(es, "\\n") == EscapeQuotes(lines[0]) + [];
      assert Unescape([]) == Some([]);
      UnescapeEscapeQuotes(lines[0], []);
      assert Join(lines, "\n") == lines[0] + [];
    } else if |lines| > 1 {
      UnescapeLines(lines[1..]);
      assert es[1..] == EscapeEach(lines[1..]);
      var tail := Join(es[1..], "\\n");
      var after := "\\n" + tail;
      assert Join(es, "\\n") == EscapeQuotes(lines[0]) + after;
      assert after == ['\\', 'n'] + tail;
      assert EscapeValue('n') == Some("\n");
      UnescapeEscaped('n', tail);
      var j := Join(lines[1..], "\n");
      assert Unescape(after) == Some("\n" + j);
      UnescapeEscapeQuotes(lines[0], after);
      assert Join(lines, "\n") == lines[0] + "\n" + j;
      assert lines[0] + ("\n" + j) == lines[0] + "\n" + j;
    } else {
      assert Join(es, "\\n") == [];
    }
  }

  lemma {:induction false} SplitLinesWithout(s: string, c: char)
    requires c !in s
    ensures forall i :: 0 <= i < |SplitLines(s)| ==> c !in SplitLines(s)[i]
    decreases |s|
  {
    if s == [] {
    } else if |s| >= 2 && s[0] == '\r' && s[1] == '\n' {
      SplitLinesWithout(s[2..], c);
    } else if s[0] == '\n' {
      SplitLinesWithout(s[1..], c);
    } else {
      SplitLinesWithout(s[1..], c);
      var rest := SplitLines(s[1..]);
      assert SplitLines(s) == [[s[0]] + rest[0]] + rest[1..];
      assert c != s[0];
    }
  }

  /**
    Running the generated literal gives the text back, its line breaks as line feeds, as
    long as the text holds no backslash (`escapeQuotes` leaves backslashes as they are) and
    no lone carriage return. A lone carriage return is no line break to
    `split(/\r\n|\n/)`: it stays in the literal as a raw carriage return, and the
    generated code does not parse.
  */
  lemma TextLiteral(value: string)
    requires '\\' !in value
    ensures !HasLoneCR(value) ==> Unescape(JoinLines(EscapeQuotes(value), "\\n")) == Some(JoinLines(value, "\n"))
    ensures '\r' !in value ==> Unescape(JoinLines(EscapeQuotes(value), "\\n")) == Some(value)
    ensures HasLoneCR(value) ==> Unescape(JoinLines(EscapeQuotes(value), "\\n")).None?
  {
    var body := JoinLines(EscapeQuotes(value), "\\n");
    if HasLoneCR(value) {
      TextLoneCR(value);
      UnescapeRejectsBreaks(body);
    } else {
      SplitLinesEscapeQuotes(value);
      SplitLinesWithout(value, '\\');
      SplitLinesNoCR(value);
      UnescapeLines(SplitLines(value));
      if '\r' !in value {
        JoinSplitLines(value);
      }
    }
  }

  /** A lone carriage return in a text node is written raw into its literal. */
  lemma TextLoneCR(value: string)
    requires HasLoneCR(value)
    ensures '\r' in JoinLines(EscapeQuotes(value), "\\n")
    ensures '\r' in TextCode(value)
  {
    EscapeQuotesKeepsLoneCR(value);
    JoinLinesKeepsLoneCR(EscapeQuotes(value), "\\n");
  }

  /** A backslash in the text is not escaped: the text `\n` is written out as a line feed. */
  lemma TextBackslash()
    ensures Unescape(JoinLines(EscapeQuotes("\\n"), "\\n")) == Some("\n")
  {
    var v := "\\n";
    assert EscapeQuotes(v[1..]) == "n";
    assert EscapeQuotes(v) == v;
    SingleLine(v);
    assert JoinLines(v, "\\n") == v;
    assert v == ['\\', 'n'] + [];
    assert EscapeValue('n') == Some("\n");
    UnescapeEscaped('n', []);
    assert Unescape([]) == Some([]);
    assert Unescape(v) == Some("\n" + []);
    assert "\n" + [] == "\n";
    assert JoinLines(EscapeQuotes("\\n"), "\\n") == v;
  }

  /** A node whose children are all tokens (a text or inline node, or a block without includes). */
  predicate LeavesOnly(cs: seq<Child>)
  {
    forall i :: 0 <= i < |cs| ==> cs[i].Leaf?
  }

  /**
    A token compiles to a node holding its text; an empty text adds no chunk, since a
    source node keeps only non-empty strings.
  */
  function CompileLeaf(c: Child, source: string): SourceNode
    requires c.Leaf?
  {
    Fragment(c.loc, source, TextChunks(c.value))
  }

  /** The chunks a source node keeps of a string given to it: none for the empty string. */
  function TextChunks(value: string): (r: seq<Chunk>)
    ensures ChunksCode(r) == value
  {
    if value == "" then [] else assert ChunksCode([Str(value)]) == value + ""; [Str(value)]
  }

  function LeafNodes(cs: seq<Child>, source: string): (r: seq<Chunk>)
    requires LeavesOnly(cs)
    ensures |r| == |cs|
  {
    seq(|cs|, i requires 0 <= i < |cs| => Node(CompileLeaf(cs[i], source)))
  }

  /** The values of a list of tokens, concatenated. */
  function LeafValues(cs: seq<Child>): string
    requires LeavesOnly(cs)
    decreases |cs|
  {
    if cs == [] then "" else cs[0].value + LeafValues(cs[1..])
  }

  lemma {:induction false} LeafNodesCode(cs: seq<Child>, source: string)
    requires LeavesOnly(cs)
    ensures ChunksCode(LeafNodes(cs, source)) == LeafValues(cs)
    decreases |cs|
  {
    if cs != [] {
      LeafNodesCode(cs[1..], source);
      assert LeafNodes(cs, source)[1..] == LeafNodes(cs[1..], source);
      assert Code(CompileLeaf(cs[0], source)) == ChunksCode(TextChunks(cs[0].value)) == cs[0].value;
    }
  }

  function CompileText(t: Tree, source: string): SourceNode
    requires t.kind == TextNode && WellFormed(t)
  {
    Fragment(t.loc, source, [Str(TextCode(t.children[0].value))])
  }

  function CompileInline(t: Tree, source: string): SourceNode
    requires t.kind == InlineNode && WellFormed(t)
  {
    Fragment(t.loc, source, [Str(";write(")] + LeafNodes(t.children, source) + [Str(");")])
  }

  /** A node compiled when no include directive is involved. */
  function CompileTree(t: Tree, source: string): (r: SourceNode)
    requires WellFormed(t) && LeavesOnly(t.children)
    ensures r.pos == Some(Origin(t.loc)) && r.source == source
  {
    match t.kind
    case BlockNode => Fragment(t.loc, source, LeafNodes(t.children, source))
    case InlineNode => CompileInline(t, source)
    case TextNode => CompileText(t, source)
  }

  /**
    The generated code of each node: a block's tokens are copied as they are, an inline
    expression's tokens are wrapped in a `write` call and a text node is written as a
    string literal.
  */
  lemma CompileTreeCode(t: Tree, source: string)
    requires WellFormed(t) && LeavesOnly(t.children)
    ensures t.kind == BlockNode ==> Code(CompileTree(t, source)) == LeafValues(t.children)
    ensures t.kind == InlineNode ==> Code(CompileTree(t, source)) == ";write(" + LeafValues(t.children) + ");"
    ensures t.kind == TextNode ==> Code(CompileTree(t, source)) == TextCode(t.children[0].value)
  {
    var leaves := LeafNodes(t.children, source);
    LeafNodesCode(t.children, source);
    match t.kind
    case BlockNode =>
    case InlineNode =>
      ChunksCodeConcat([Str(";write(")] + leaves, [Str(");")]);
      ChunksCodeConcat([Str(";write(")], leaves);
      assert ChunksCode([Str(");")]) == ");" + "";
      assert ChunksCode([Str(";write(")]) == ";write(" + "";
    case TextNode =>
      assert ChunksCode([Str(TextCode(t.children[0].value))]) == TextCode(t.children[0].value) + "";
  }

  predicate AllLeavesOnly(tree: seq<Tree>)
  {
    forall i :: 0 <= i < |tree| ==> LeavesOnly(tree[i].children)
  }

  /** The nodes of a view compiled when no include directive is involved. */
  function CompileAll(tree: seq<Tree>, source: string): (r: seq<Chunk>)
    requires AllWellFormed(tree) && AllLeavesOnly(tree)
    ensures |r| == |tree|
  {
    seq(|tree|, i requires 0 <= i < |tree| => Node(CompileTree(tree[i], source)))
  }

  /** The code of a view of text only: each token written out by its own `write` call. */
  function TextViewCode(tokens: seq<BToken>): string
    decreases |tokens|
  {
    if tokens == [] then "" else TextCode(tokens[0].value) + TextViewCode(tokens[1..])
  }

  /** One text node per token. */
  function TextTrees(tokens: seq<BToken>): (r: seq<Tree>)
    ensures |r| == |tokens|
  {
    seq(|tokens|, k requires 0 <= k < |tokens| => TextTree(tokens[k]))
  }

  lemma {:induction false} TextTreesCode(tokens: seq<BToken>, source: string)
    ensures AllWellFormed(TextTrees(tokens)) && AllLeavesOnly(TextTrees(tokens))
    ensures ChunksCode(CompileAll(TextTrees(tokens), source)) == TextViewCode(tokens)
    decreases |tokens|
  {
    var texts := TextTrees(tokens);
    if tokens != [] {
      TextTreesCode(tokens[1..], source);
      var rest := TextTrees(tokens[1..]);
      assert texts[1..] == rest;
      assert CompileAll(texts, source)[1..] == CompileAll(rest, source);
      CompileTreeCode(texts[0], source);
    }
  }

  /**
    A view of plain text only is walked without error into one text node per token, and its
    generated code is the `write` calls of those tokens, in order.
  */
  lemma TextViewCompiles(tokens: seq<BToken>, source: string)
    requires forall k :: 0 <= k < |tokens| ==>
      !HasScope(tokens[k], BlockStart) && !HasScope(tokens[k], InlineStart) && HasScope(tokens[k], PlainText)
    ensures WalkSpec(tokens) == Ok(TextTrees(tokens))
    ensures AllWellFormed(TextTrees(tokens)) && AllLeavesOnly(TextTrees(tokens))
    ensures ChunksCode(CompileAll(TextTrees(tokens), source)) == TextViewCode(tokens)
  {
    TextViewWalk(tokens);
    TextTreesCode(tokens, source);
  }

  lemma TextViewWalk(tokens: seq<BToken>)
    requires forall k :: 0 <= k < |tokens| ==>
      !HasScope(tokens[k], BlockStart) && !HasScope(tokens[k], InlineStart) && HasScope(tokens[k], PlainText)
    ensures WalkSpec(tokens) == Ok(TextTrees(tokens))
  {
    WalkAllText(tokens, 0, []);
    var texts := seq(|tokens| - 0, k requires 0 <= k < |tokens| - 0 => TextTree(tokens[0 + k]));
    assert texts == TextTrees(tokens);
    assert [] + texts == texts;
  }

  // ---------------------------------------------------------------------------------
  // The last node of a tree (`getLast`) and the positions walk (`walkPosition`).
  // ---------------------------------------------------------------------------------

  /** The index of the last chunk that is a node, if any. */
  function LastNodeIndex(cs: seq<Chunk>): (r: Option<nat>)
    ensures r.Some? ==> r.value < |cs| && cs[r.value].Node? && forall j :: r.value < j < |cs| ==> cs[j].Str?
    ensures r.None? ==> forall j :: 0 <= j < |cs| ==> cs[j].Str?
    decreases |cs|
  {
    if cs == [] then None
    else if cs[|cs| - 1].Node? then Some(|cs| - 1)
    else LastNodeIndex(cs[..|cs| - 1])
  }

  /**
    Descending through the last chunk that is a node, the first node reached that has no
    node among its chunks.
  */
  function LastDescendant(n: SourceNode): (r: SourceNode)
    ensures forall j :: 0 <= j < |r.children| ==> r.children[j].Str?
    decreases n
  {
    match LastNodeIndex(n.children)
    case None => n
    case Some(k) =>
      assert n.children[k] in n.children;
      LastDescendant(n.children[k].node)
  }

  /** The first chunk of a node, which the source reads as `children[0]` (undefined when there is none). */
  function FirstChild(n: SourceNode): (r: Option<Chunk>)
    ensures r.Some? <==> |n.children| > 0
    ensures r.Some? ==> r.value == n.children[0]
  {
    if |n.children| > 0 then Some(n.children[0]) else None
  }

  /** A generated position as the source-map consumer reports it; every field may be null. */
  datatype GenPos = GenPos(line: Option<int>, column: Option<int>, lastColumn: Option<int>)

  /**
    The consumer's `allGeneratedPositionsFor`: the generated positions of an original
    file and position, as the node's source and position give them.
  */
  type Consumer = (string, Option<(int, int)>) -> seq<GenPos>

  /** A nullable number in a JavaScript comparison: null counts as 0. */
  function Num(x: Option<int>): int
  {
    if x.Some? then x.value else 0
  }

  /**
    `walkPosition`: the generated positions of a node or, when it has none and has
    children, those of its first (or last) child, looked for again from that child's first
    child down. None when the walk reaches a text chunk, for which the consumer throws.
  */
  function WalkPosition(c: Chunk, consumer: Consumer, first: bool): Option<seq<GenPos>>
    decreases c
  {
    match c
    case Str(_) => None
    case Node(n) =>
      var pos := consumer(n.source, n.pos);
      if |pos| == 0 && |n.children| > 0 then
        assert n.children[0] in n.children && n.children[|n.children| - 1] in n.children;
        WalkPosition(if first then n.children[0] else n.children[|n.children| - 1], consumer, true)
      else Some(pos)
  }

  /** Every chunk of the tree below `c`, and `c` itself, is a node. */
  predicate NodesOnly(c: Chunk)
    decreases c
  {
    && c.Node?
    && forall i :: 0 <= i < |c.node.children| ==> NodesOnly(c.node.children[i])
  }

  /** On a tree of nodes only the walk never throws, and it comes back empty only at a leaf node. */
  lemma {:induction false} WalkPositionNodes(c: Chunk, consumer: Consumer, first: bool)
    requires NodesOnly(c)
    ensures WalkPosition(c, consumer, first).Some?
    ensures |WalkPosition(c, consumer, first).value| == 0 ==>
      |consumer(c.node.source, c.node.pos)| == 0 || |c.node.children| == 0
    decreases c
  {
    var n := c.node;
    if |consumer(n.source, n.pos)| == 0 && |n.children| > 0 {
      var k := if first then 0 else |n.children| - 1;
      assert n.children[k] in n.children;
      WalkPositionNodes(n.children[k], consumer, true);
    }
  }

  /** A node with positions of its own gives those positions. */
  lemma WalkPositionOwn(n: SourceNode, consumer: Consumer, first: bool)
    requires |consumer(n.source, n.pos)| > 0 || |n.children| == 0
    ensures WalkPosition(Node(n), consumer, first) == Some(consumer(n.source, n.pos))
  {
  }

  /**
    Looking for the last positions descends to the last child only once: below it the
    walk goes to first children. In this tree the walk from the root for the last position
    gives the positions of the first grandchild `b1` under the last child `b`, not those of
    the last grandchild `b2`.
  */
  lemma WalkPositionLastDescendsFirst(q1: seq<GenPos>, q2: seq<GenPos>)
    requires |q1| > 0 && |q2| > 0
    ensures var b1 := SourceNode(None, "b1", []);
      var b2 := SourceNode(None, "b2", []);
      var b := SourceNode(None, "b", [Node(b1), Node(b2)]);
      var root := SourceNode(None, "root", [Node(SourceNode(None, "a", [])), Node(b)]);
      var consumer: Consumer := (s: string, p: Option<(int, int)>) => if s == "b1" then q1 else if s == "b2" then q2 else [];
      WalkPosition(Node(root), consumer, false) == Some(q1)
  {
    var b1 := SourceNode(None, "b1", []);
    var b2 := SourceNode(None, "b2", []);
    var b := SourceNode(None, "b", [Node(b1), Node(b2)]);
    var root := SourceNode(None, "root", [Node(SourceNode(None, "a", [])), Node(b)]);
    var consumer: Consumer := (s: string, p: Option<(int, int)>) => if s == "b1" then q1 else if s == "b2" then q2 else [];
    assert consumer("root", None) == [];
    assert consumer("b", None) == [];
    assert consumer("b1", None) == q1;
    assert WalkPosition(Node(b1), consumer, true) == Some(q1);
    assert WalkPosition(Node(b), consumer, true) == WalkPosition(Node(b1), consumer, true);
    assert WalkPosition(Node(root), consumer, false) == WalkPosition(Node(b), consumer, true);
  }

  // ---------------------------------------------------------------------------------
  // The builder's records.
  // ---------------------------------------------------------------------------------

  /** A parsed view and the file it was read from. */
  datatype Cache = Cache(source: string, node: SourceNode)

  /**
    A resolved include: the including file, the included file, the 1-based position of
    the directive, and the first chunk and last node of the included view.
  */
  datatype IncludeEntry = IncludeEntry(source: string, included: string, line: int, column: int, first: Option<Chunk>, last: SourceNode)

  /** An include that failed: the including file, the error, the directive's position and the placeholder node. */
  datatype IncludeError = IncludeError(source: string, error: JsError, line: int, column: int, node: SourceNode)

  /** The first cache entry for `source`, the way `filter(...)[0]` finds it. */
  function FirstCache(caches: seq<Cache>, source: string): (r: Option<Cache>)
    ensures r.Some? ==> r.value in caches && r.value.source == source
    ensures r.None? <==> forall i :: 0 <= i < |caches| ==> caches[i].source != source
    decreases |caches|
  {
    if caches == [] then None
    else if caches[0].source == source then Some(caches[0])
    else FirstCache(caches[1..], source)
  }

  /** It is the entry at the first index with that source. */
  lemma {:induction false} FirstCacheAt(caches: seq<Cache>, source: string, i: nat)
    requires i < |caches| && caches[i].source == source
    requires forall j :: 0 <= j < i ==> caches[j].source != source
    ensures FirstCache(caches, source) == Some(caches[i])
    decreases i
  {
    if i > 0 {
      FirstCacheAt(caches[1..], source, i - 1);
    }
  }

  /**
    Appending to the cache never changes what a lookup that already succeeded finds, and a
    lookup that failed finds the first appended entry for that file.
  */
  lemma {:induction false} FirstCacheAppend(caches: seq<Cache>, more: seq<Cache>, source: string)
    ensures FirstCache(caches, source).Some? ==> FirstCache(caches + more, source) == FirstCache(caches, source)
    ensures FirstCache(caches, source).None? ==> FirstCache(caches + more, source) == FirstCache(more, source)
    decreases |caches|
  {
    if caches == [] {
      assert caches + more == more;
    } else {
      assert (caches + more)[0] == caches[0] && (caches + more)[1..] == caches[1..] + more;
      FirstCacheAppend(caches[1..], more, source);
    }
  }

  /** `filePath.replace(/\.exp$/, '')`: one trailing `.exp` removed. */
  function StripExp(p: string): (r: string)
    ensures |r| <= |p| && r == p[..|r|]
  {
    if |p| >= 4 && p[|p| - 4..] == ".exp" then p[..|p| - 4] else p
  }

  /** A path with one trailing `.exp` removed and `.exp` added back. */
  function WithExp(p: string): string
  {
    StripExp(p) + ".exp"
  }

  /** A path already ending in `.exp` is kept; any other path gets `.exp` appended. */
  lemma WithExpCases(p: string)
    ensures |p| >= 4 && p[|p| - 4..] == ".exp" ==> WithExp(p) == p
    ensures !(|p| >= 4 && p[|p| - 4..] == ".exp") ==> WithExp(p) == p + ".exp"
    ensures StripExp(WithExp(p)) == StripExp(p)
  {
    var q := WithExp(p);
    assert q[|q| - 4..] == ".exp";
    assert q[..|q| - 4] == StripExp(p);
    if |p| >= 4 && p[|p| - 4..] == ".exp" {
      assert p == p[..|p| - 4] + p[|p| - 4..];
    }
  }

  /** The services the builder calls and that are not part of this model. */
  datatype Host = Host(
    /** The tokenizer, as tokens in the shape `walk` reads. */
    tokenize: string -> seq<BToken>,
    /** `eval` of one include argument; an error is the exception it throws. */
    evaluate: string -> Result<string, JsError>,
    /** `path.join` of the evaluated arguments. */
    joinPaths: seq<string> -> string,
    /** `resolve(dirname(from), file)`. */
    resolveFrom: (string, string) -> string,
    /** `readFileSync(file, "utf-8")`; an error is the exception it throws. */
    readFile: string -> Result<string, JsError>)

  /** `node.args.map(eval)`: the arguments evaluated in order; the first exception stops it. */
  function EvalArgs(host: Host, args: seq<string>): (r: Result<seq<string>, JsError>)
    ensures r.Ok? ==> |r.value| == |args| && forall i :: 0 <= i < |args| ==> host.evaluate(args[i]) == Ok(r.value[i])
    ensures r.Err? ==> exists i :: 0 <= i < |args| && host.evaluate(args[i]) == Err(r.error)
    decreases |args|
  {
    if args == [] then Ok([])
    else
      match host.evaluate(args[0])
      case Err(e) => Err(e)
      case Ok(v) =>
        match EvalArgs(host, args[1..])
        case Err(e) => Err(e)
        case Ok(vs) => Ok([v] + vs)
  }

  /** The exception `walk` throws, reading the scope of a token past the end of the list. */
  const WalkFailure: JsError := JsError(None, "TypeError", "Cannot read properties of undefined (reading 'scope')")

  /** Includes nested deeper than the model's bound: the engine's stack overflow. */
  const StackOverflow: JsError := JsError(None, "RangeError", "Maximum call stack size exceeded")

  /**
    What `parse` gives for the walk `walked` of a view read from `source`: the walk's
    exception when the walk fails; otherwise a node without a position of its own, holding
    one node per tree node at that node's position, which is the pure compilation when no
    include directive is involved.
  */
  predicate ParseOutcome(walked: Result<seq<Tree>, WalkError>, source: string, r: Result<SourceNode, JsError>)
  {
    && (r.Err? <==> walked.Err?)
    && (r.Err? ==> r.error == WalkFailure)
    && (r.Ok? ==>
          && r.value.pos.None? && r.value.source == source
          && |r.value.children| == |walked.value|
          && forall i :: 0 <= i < |walked.value| ==>
               r.value.children[i].Node? && r.value.children[i].node.pos == Some(Origin(walked.value[i].loc)))
    && (walked.Ok? && AllLeavesOnly(walked.value) ==>
          AllWellFormed(walked.value) && r == Ok(SourceNode(None, source, CompileAll(walked.value, source))))
  }

  /**
    What `include` gives for a file that is not cached: the exception of reading it, a
    stack overflow past the nesting bound, or what `parse` gives for its content.
  */
  predicate IncludedView(host: Host, file: string, fuel: nat, r: Result<SourceNode, JsError>)
  {
    match host.readFile(file)
    case Err(e) => r == Err(e)
    case Ok(content) =>
      if fuel == 0 then r == Err(StackOverflow)
      else ParseOutcome(WalkSpec(host.tokenize(content)), file, r)
  }

  /**
    The outcome of including a file that is not cached is decided by the file: it is a view
    exactly when the file is read, the bound is not reached and the walk succeeds; otherwise
    it is the read's exception, a stack overflow or the walk's exception, in that order.
  */
  lemma IncludedViewOutcome(host: Host, file: string, fuel: nat, r: Result<SourceNode, JsError>)
    requires IncludedView(host, file, fuel, r)
    ensures r.Ok? <==>
      host.readFile(file).Ok? && fuel > 0 && WalkSpec(host.tokenize(host.readFile(file).value)).Ok?
    ensures r.Err? ==>
      r.error == (if host.readFile(file).Err? then host.readFile(file).error
                  else if fuel == 0 then StackOverflow else WalkFailure)
    ensures r.Ok? ==> r.value.pos.None? && r.value.source == file
  {
  }

  /** The node an include directive compiles to: the included view, or a `" "` placeholder. */
  predicate IncludeShape(n: SourceNode)
  {
    |n.children| == 1 && (n.children[0].Node? || n.children[0] == Str(" "))
  }

  // ---------------------------------------------------------------------------------
  // The builder.
  // ---------------------------------------------------------------------------------

  class Builder {
    const host: Host
    /** The caller's own way to find a view (`_resolveIncludePath`), if it gave one. */
    const customResolve: Option<string -> string>
    /** Every view parsed for an include, in the order they were parsed. */
    var sourceCaches: seq<Cache>
    /** Every include resolved, in the order they were compiled. */
    var includeMap: seq<IncludeEntry>
    /** Every include that failed, in the order they were compiled. */
    var includeErrors: seq<IncludeError>

    constructor(host: Host, resolveIncludePath: Option<string -> string>)
      ensures this.host == host && customResolve == resolveIncludePath
      ensures sourceCaches == [] && includeMap == [] && includeErrors == []
    {
      this.host := host;
      customResolve := resolveIncludePath;
      sourceCaches := [];
      includeMap := [];
      includeErrors := [];
    }

    /** The three records only ever grow at their ends. */
    twostate predicate Extends()
      reads this
    {
      && old(sourceCaches) <= sourceCaches
      && old(includeMap) <= includeMap
      && old(includeErrors) <= includeErrors
    }

    /** The cached view of a file: a cache entry for it, and none only when there is no entry for it. */
    function GetCachedSource(source: string): (r: Option<Cache>)
      reads this
      ensures r.Some? ==> r.value in sourceCaches && r.value.source == source
      ensures r.None? <==> forall i :: 0 <= i < |sourceCaches| ==> sourceCaches[i].source != source
    {
      FirstCache(sourceCaches, source)
    }

    /**
      The file an include path names, from the file `from` that includes it: a trailing
      `.exp` is dropped, then the caller's strategy is asked or, without one, the path with
      `.exp` is resolved against the directory of `from`.
    */
    function ResolveIncludePath(filePath: string, from: string): (r: string)
      ensures customResolve.Some? ==> r == customResolve.value(StripExp(filePath))
      ensures customResolve.None? ==> r == host.resolveFrom(from, WithExp(filePath))
    {
      var stripped := StripExp(filePath);
      if customResolve.Some? then customResolve.value(stripped) else host.resolveFrom(from, stripped + ".exp")
    }

    /** Naming a view with or without its `.exp` extension resolves to the same file. */
    lemma ResolveIgnoresExp(filePath: string, from: string)
      ensures ResolveIncludePath(WithExp(filePath), from) == ResolveIncludePath(filePath, from)
    {
      WithExpCases(filePath);
    }

    /**
      `include`: the view an include path names, parsed once. A cached view is returned
      and nothing changes; a view read and parsed without error is appended to the cache;
      an error (reading or walking the view) leaves every record as it was.
    */
    method Include(filePath: string, from: string, fuel: nat) returns (r: Result<SourceNode, JsError>)
      modifies this
      decreases fuel, 0
      ensures Extends()
      ensures var file := ResolveIncludePath(filePath, from);
        old(FirstCache(sourceCaches, file)).Some? ==>
          r == Ok(old(FirstCache(sourceCaches, file)).value.node) && unchanged(this)
      ensures var file := ResolveIncludePath(filePath, from);
        old(FirstCache(sourceCaches, file)).None? ==>
          && IncludedView(host, file, fuel, r)
          && (r.Ok? ==> |sourceCaches| > 0 && sourceCaches[|sourceCaches| - 1] == Cache(file, r.value))
      ensures r.Err? ==> unchanged(this)
    {
      var file := ResolveIncludePath(filePath, from);
      var cached := GetCachedSource(file);
      if cached.Some? {
        return Ok(cached.value.node);
      }
      var content := host.readFile(file);
      if content.Err? {
        return Err(content.error);
      }
      if fuel == 0 {
        return Err(StackOverflow);
      }
      var parsed := Parse(content.value, file, fuel - 1);
      if parsed.Err? {
        return parsed;
      }
      sourceCaches := sourceCaches + [Cache(file, parsed.value)];
      return parsed;
    }

    /**
      `parse`: tokenize a view, walk the tokens and compile every node into a node without
      a position of its own. It fails only when the walk does, and then changes nothing;
      without include directives nothing changes and the result is the pure compilation.
    */
    method Parse(content: string, source: string, fuel: nat) returns (r: Result<SourceNode, JsError>)
      modifies this
      decreases fuel, 5
      ensures Extends()
      ensures ParseOutcome(WalkSpec(host.tokenize(content)), source, r)
      ensures r.Err? ==> unchanged(this)
      ensures var walked := WalkSpec(host.tokenize(content));
        walked.Ok? && AllLeavesOnly(walked.value) ==> unchanged(this)
    {
      var tokens := host.tokenize(content);
      var walked := Walk.Walk(tokens);
      if walked.Err? {
        return Err(WalkFailure);
      }
      var tree := walked.value;
      WalkShape(tokens);
      var chunks: seq<Chunk> := [];
      for i := 0 to |tree|
        invariant Extends()
        invariant |chunks| == i
        invariant forall k :: 0 <= k < i ==> chunks[k].Node? && chunks[k].node.pos == Some(Origin(tree[k].loc))
        invariant AllLeavesOnly(tree) ==> chunks == CompileAll(tree, source)[..i] && unchanged(this)
      {
        var node := Compile(tree[i], source, fuel);
        chunks := chunks + [Node(node)];
      }
      assert AllLeavesOnly(tree) ==> CompileAll(tree, source)[..|tree|] == CompileAll(tree, source);
      return Ok(SourceNode(None, source, chunks));
    }

    /**
      `compile` of a tree node. Text and inline nodes, and blocks without include
      directives, compile to the pure compilation and change nothing; a block compiles
      every child in order to a node placed at that child.
    */
    method Compile(t: Tree, source: string, fuel: nat) returns (r: SourceNode)
      requires WellFormed(t)
      modifies this
      decreases fuel, 4
      ensures Extends()
      ensures r.pos == Some(Origin(t.loc)) && r.source == source
      ensures LeavesOnly(t.children) ==> r == CompileTree(t, source) && unchanged(this)
      ensures t.kind == BlockNode ==>
        && |r.children| == |t.children|
        && forall i :: 0 <= i < |t.children| ==>
             && r.children[i].Node? && r.children[i].node.pos == Some(Origin(t.children[i].loc))
             && r.children[i].node.source == source
             && (t.children[i].Leaf? ==> r.children[i].node == CompileLeaf(t.children[i], source))
             && (t.children[i].Include? ==> IncludeShape(r.children[i].node))
    {
      match t.kind {
        case TextNode =>
          return CompileText(t, source);
        case InlineNode =>
          return CompileInline(t, source);
        case BlockNode =>
          var chunks: seq<Chunk> := [];
          for i := 0 to |t.children|
            invariant Extends()
            invariant |chunks| == i
            invariant forall k :: 0 <= k < i ==>
              && chunks[k].Node? && chunks[k].node.pos == Some(Origin(t.children[k].loc))
              && chunks[k].node.source == source
              && (t.children[k].Leaf? ==> chunks[k].node == CompileLeaf(t.children[k], source))
              && (t.children[k].Include? ==> IncludeShape(chunks[k].node))
            invariant LeavesOnly(t.children) ==> chunks == LeafNodes(t.children, source)[..i] && unchanged(this)
          {
            var node := CompileChild(t.children[i], source, fuel);
            chunks := chunks + [Node(node)];
          }
          assert LeavesOnly(t.children) ==> chunks == LeafNodes(t.children, source);
          return Fragment(t.loc, source, chunks);
      }
    }

    /** `compile` of a child of a block: a token, or an include directive. */
    method CompileChild(c: Child, source: string, fuel: nat) returns (r: SourceNode)
      modifies this
      decreases fuel, 3
      ensures Extends()
      ensures r.pos == Some(Origin(c.loc)) && r.source == source
      ensures c.Leaf? ==> r == CompileLeaf(c, source) && unchanged(this)
      ensures c.Include? ==> IncludeShape(r)
      ensures c.Include? ==> IncludeCompiled(c, source, fuel, r)
    {
      match c {
        case Leaf(_, _) =>
          return CompileLeaf(c, source);
        case Include(_, _) =>
          r := CompileInclude(c, source, fuel);
      }
    }

    /**
      An include directive `c` of `source` that failed with the exception `e`: it gave a node
      holding a single space, one error record was appended, and nothing else changed.
    */
    twostate predicate IncludeFailed(c: Child, source: string, e: JsError, r: SourceNode)
      reads this
    {
      && r == Fragment(c.loc, source, [Str(" ")])
      && sourceCaches == old(sourceCaches) && includeMap == old(includeMap)
      && includeErrors == old(includeErrors) + [IncludeError(source, e, Origin(c.loc).0, Origin(c.loc).1, r)]
    }

    /**
      An include directive `c` of `source` whose arguments joined to `path`. On a cache hit
      for the file `path` resolves to, `r` holds the cached view and one include record is
      the only change. On a miss, the outcome is what `include` gives for the file: either
      the view it parsed, which is cached and held by `r`, with an include record for it at
      the end of the records; or its exception, recorded as a failure.
    */
    twostate predicate FileIncluded(c: Child, source: string, path: string, fuel: nat, r: SourceNode)
      reads this
    {
      var file := ResolveIncludePath(path, source);
      match old(FirstCache(sourceCaches, file))
      case Some(cached) =>
        && r == Fragment(c.loc, source, [Node(cached.node)])
        && includeMap == old(includeMap) + [IncludeEntry(source, file, Origin(c.loc).0, Origin(c.loc).1,
                                                          FirstChild(cached.node), LastDescendant(cached.node))]
        && sourceCaches == old(sourceCaches) && includeErrors == old(includeErrors)
      case None =>
        || (&& |r.children| == 1 && r.children[0].Node?
            && var n := r.children[0].node;
            && r == Fragment(c.loc, source, [Node(n)])
            && IncludedView(host, file, fuel, Ok(n))
            && |sourceCaches| > 0 && sourceCaches[|sourceCaches| - 1] == Cache(file, n)
            && |includeMap| > |old(includeMap)|
            && includeMap[|includeMap| - 1] ==
                 IncludeEntry(source, file, Origin(c.loc).0, Origin(c.loc).1, FirstChild(n), LastDescendant(n)))
        || (&& |includeErrors| > 0
            && var e := includeErrors[|includeErrors| - 1].error;
            && IncludedView(host, file, fuel, Err(e))
            && IncludeFailed(c, source, e, r))
    }

    /**
      What compiling the include directive `c` did: when an argument throws, that exception
      is recorded as a failure; otherwise the joined path is included.
    */
    twostate predicate IncludeCompiled(c: Child, source: string, fuel: nat, r: SourceNode)
      requires c.Include?
      reads this
    {
      match EvalArgs(host, c.args)
      case Err(e) => IncludeFailed(c, source, e, r)
      case Ok(values) => FileIncluded(c, source, host.joinPaths(values), fuel, r)
    }

    /**
      `compile` of an include directive: its arguments are evaluated and joined, and the
      view they name is included; any exception gives a placeholder and an error record.
    */
    method CompileInclude(c: Child, source: string, fuel: nat) returns (r: SourceNode)
      requires c.Include?
      modifies this
      decreases fuel, 2
      ensures Extends()
      ensures r.pos == Some(Origin(c.loc)) && r.source == source && IncludeShape(r)
      ensures IncludeCompiled(c, source, fuel, r)
    {
      var args := EvalArgs(host, c.args);
      if args.Err? {
        r := RecordIncludeError(c, source, args.error);
      } else {
        r := IncludeFile(c, source, host.joinPaths(args.value), fuel);
      }
    }

    /** The `try` block of an include directive, from the joined path on. */
    method IncludeFile(c: Child, source: string, path: string, fuel: nat) returns (r: SourceNode)
      modifies this
      decreases fuel, 1
      ensures Extends()
      ensures r.pos == Some(Origin(c.loc)) && r.source == source && IncludeShape(r)
      ensures FileIncluded(c, source, path, fuel, r)
    {
      var included := Include(path, source, fuel);
      if included.Ok? {
        r := RecordInclude(c, source, ResolveIncludePath(path, source), included.value);
      } else {
        r := RecordIncludeError(c, source, included.error);
      }
    }

    /** The end of the `try` block: the include record of the view `iNode` of `file`, and its node. */
    method RecordInclude(c: Child, source: string, file: string, iNode: SourceNode) returns (r: SourceNode)
      modifies this
      ensures Extends()
      ensures r == Fragment(c.loc, source, [Node(iNode)])
      ensures includeMap == old(includeMap) + [IncludeEntry(source, file, Origin(c.loc).0, Origin(c.loc).1,
                                                            FirstChild(iNode), LastDescendant(iNode))]
      ensures sourceCaches == old(sourceCaches) && includeErrors == old(includeErrors)
    {
      var last := GetLast(iNode);
      includeMap := includeMap + [IncludeEntry(source, file, Origin(c.loc).0, Origin(c.loc).1, FirstChild(iNode), last)];
      r := Fragment(c.loc, source, [Node(iNode)]);
    }

    /** The `catch` block of an include directive: a placeholder and an error record. */
    method RecordIncludeError(c: Child, source: string, e: JsError) returns (r: SourceNode)
      modifies this
      ensures Extends()
      ensures IncludeFailed(c, source, e, r)
    {
      r := Fragment(c.loc, source, [Str(" ")]);
      includeErrors := includeErrors + [IncludeError(source, e, Origin(c.loc).0, Origin(c.loc).1, r)];
    }

    /**
      `getLast`: scanning the chunks from the back, descend into the last one that is a
      node; a node with no node among its chunks is its own last node.
    */
    method GetLast(node: SourceNode) returns (r: SourceNode)
      ensures r == LastDescendant(node)
      decreases node
    {
      if |node.children| > 0 {
        var i := |node.children|;
        while i > 0
          invariant 0 <= i <= |node.children|
          invariant forall k :: i <= k < |node.children| ==> node.children[k].Str?
        {
          var child := node.children[i - 1];
          if child.Node? {
            assert LastNodeIndex(node.children) == Some(i - 1);
            assert child in node.children;
            r := GetLast(child.node);
            return;
          }
          i := i - 1;
        }
        return node;
      }
      return node;
    }

    /**
      `build`: the generated code of a view. Without include directives it is the code of
      the pure compilation; a view the walk cannot read gives the walk's exception.
    */
    method Build(content: string, source: string, fuel: nat) returns (r: Result<string, JsError>)
      modifies this
      ensures Extends()
      ensures r.Err? <==> WalkSpec(host.tokenize(content)).Err?
      ensures r.Err? ==> r == Err(WalkFailure) && unchanged(this)
      ensures var walked := WalkSpec(host.tokenize(content));
        walked.Ok? && AllLeavesOnly(walked.value) ==>
          AllWellFormed(walked.value) &&
          r == Ok(ChunksCode(CompileAll(walked.value, source))) && unchanged(this)
    {
      var parsed := Parse(content, source, fuel);
      if parsed.Err? {
        return Err(parsed.error);
      }
      return Ok(Code(parsed.value));
    }

    /**
      `getIncludeTraces`: the frames `source:line:column` of the include directives that
      lead to the generated position (`line`, `column`) of the included file `target`,
      appended to `traces`, innermost first.
    */
    method GetIncludeTraces(target: string, line: int, column: int, consumer: Consumer, traces: seq<string>, fuel: nat)
      returns (r: Option<seq<string>>)
      ensures r == Traces(includeMap, target, line, column, consumer, traces, fuel)
    {
      r := IncludeTraces(includeMap, target, line, column, consumer, traces, fuel);
    }
  }

  /**
    The body of `getIncludeTraces` over the include records `entries`: the filter, then the
    level it gives.
  */
  method IncludeTraces(entries: seq<IncludeEntry>, target: string, line: int, column: int, consumer: Consumer,
                       traces: seq<string>, fuel: nat)
    returns (r: Option<seq<string>>)
    ensures r == Traces(entries, target, line, column, consumer, traces, fuel)
    decreases fuel, 1
  {
    var includes := Targeting(entries, target);
    var matched := MatchingIds(includes, line, column, consumer);
    var step: Step;
    NextStepOfIds(entries, target, line, column, consumer);
    if matched.None? {
      step := Throws;
    } else if |matched.value| == 0 {
      step := NoMatch;
    } else {
      var id := matched.value[0];
      var start := FirstPositions(includes[id], consumer).value[id];
      step := Found(includes[id], Num(start.line), Num(start.column));
    }
    assert step == NextStep(entries, target, line, column, consumer);
    TracesUnfold(entries, target, line, column, consumer, traces, fuel);
    r := FollowInclude(entries, step, consumer, traces, fuel);
  }

  /**
    The end of `getIncludeTraces`: without a match the traces are returned; with one, its
    frame is pushed and the including file is searched from the match's start position.
  */
  method FollowInclude(entries: seq<IncludeEntry>, step: Step, consumer: Consumer, traces: seq<string>, fuel: nat)
    returns (r: Option<seq<string>>)
    ensures step.Throws? ==> r == None
    ensures step.NoMatch? ==> r == Some(traces)
    ensures step.Found? ==>
      r == (if fuel == 0 then None
            else Traces(entries, step.entry.source, step.line, step.column, consumer, traces + [Frame(step.entry)], fuel - 1))
    decreases fuel, 0
  {
    match step {
      case Throws =>
        return None;
      case NoMatch =>
        return Some(traces);
      case Found(entry, l, c) =>
        if fuel == 0 {
          return None;
        }
        r := IncludeTraces(entries, entry.source, l, c, consumer, traces + [Frame(entry)], fuel - 1);
    }
  }

  /**
    The filter of `getIncludeTraces`: the callback runs on every record of the file in
    order and pushes the index of each one that matches; an exception in any callback
    ends the filter.
  */
  method MatchingIds(includes: seq<IncludeEntry>, line: int, column: int, consumer: Consumer)
    returns (r: Option<seq<nat>>)
    ensures r == MatchIds(includes, |includes|, line, column, consumer)
  {
    var iids: seq<nat> := [];
    for id := 0 to |includes|
      invariant MatchIds(includes, id, line, column, consumer) == Some(iids)
    {
      var verdict := EntryMatch(includes[id], id, line, column, consumer);
      if verdict.None? {
        MatchIdsStuck(includes, id + 1, |includes|, line, column, consumer);
        return None;
      }
      if verdict.value {
        iids := iids + [id];
      }
    }
    return Some(iids);
  }

  // ---------------------------------------------------------------------------------
  // Include traces.
  // ---------------------------------------------------------------------------------

  /** The include records of the file `target`, in order. */
  function Targeting(entries: seq<IncludeEntry>, target: string): (r: seq<IncludeEntry>)
    ensures |r| <= |entries|
    ensures forall i :: 0 <= i < |r| ==> r[i] in entries && r[i].included == target
    ensures |r| == 0 <==> forall i :: 0 <= i < |entries| ==> entries[i].included != target
    decreases |entries|
  {
    if entries == [] then []
    else (if entries[0].included == target then [entries[0]] else []) + Targeting(entries[1..], target)
  }

  /** The frame of an include record, `${source}:${line}:${column}`. */
  function Frame(e: IncludeEntry): string
  {
    e.source + ":" + IntToString(e.line) + ":" + IntToString(e.column)
  }

  /** The last two colon-separated fields of a frame are the directive's line and column. */
  lemma FrameFields(e: IncludeEntry)
    ensures Split(Frame(e), ':') == Split(e.source, ':') + [IntToString(e.line), IntToString(e.column)]
  {
    var l := IntToString(e.line);
    var c := IntToString(e.column);
    assert ':' !in l && ':' !in c;
    SplitConcat(e.source, ':', l + ":" + c);
    assert Frame(e) == e.source + [':'] + (l + ":" + c);
    SplitPiece(l, ':', c);
    assert l + ":" + c == l + [':'] + c;
    SplitPiece(c, ':', []);
  }

  /** The line and the column of a frame read back as the directive's numbers. */
  lemma FrameReadsBack(e: IncludeEntry)
    ensures var f := Split(Frame(e), ':');
      && |f| >= 2
      && IsDecimal(f[|f| - 2]) && DecimalValue(f[|f| - 2]) == e.line
      && IsDecimal(f[|f| - 1]) && DecimalValue(f[|f| - 1]) == e.column
  {
    FrameFields(e);
    IntToStringReads(e.line);
    IntToStringReads(e.column);
  }

  /** The positions of the first chunk of an included view; None when that throws (no chunk, or a text chunk). */
  function FirstPositions(e: IncludeEntry, consumer: Consumer): Option<seq<GenPos>>
  {
    if e.first.None? then None else WalkPosition(e.first.value, consumer, true)
  }

  /**
    Whether the generated position (`line`, `column`) lies in the range of the included
    view, between the start and stop positions at index `id`: from the start's line to the
    stop's line, and on or before the stop's last column.
  */
  function Accepts(start: GenPos, stop: GenPos, line: int, column: int): bool
  {
    if Num(start.line) <= line && line <= Num(stop.line) then
      if start.line == stop.line && Num(start.column) <= column && column <= Num(stop.lastColumn) then true
      else column <= Num(stop.lastColumn)
    else false
  }

  /** The column of the start position never decides the match. */
  lemma AcceptsBounds(start: GenPos, stop: GenPos, line: int, column: int)
    ensures Accepts(start, stop, line, column) <==>
      Num(start.line) <= line <= Num(stop.line) && column <= Num(stop.lastColumn)
  {
  }

  /**
    The filter callback on the include record at index `id`: whether it matches, or None
    when it throws (a positions walk throws, or the start, or the stop it then needs, is
    undefined). The stop is only read when the start's line is not past `line`.
  */
  function EntryMatch(e: IncludeEntry, id: nat, line: int, column: int, consumer: Consumer): Option<bool>
  {
    var starts := FirstPositions(e, consumer);
    var stops := WalkPosition(Node(e.last), consumer, false);
    if starts.None? || stops.None? || id >= |starts.value| then None
    else if !(Num(starts.value[id].line) <= line) then Some(false)
    else if id >= |stops.value| then None
    else Some(Accepts(starts.value[id], stops.value[id], line, column))
  }

  /** A match is exactly a defined start and stop at `id` whose range holds the position. */
  lemma EntryMatchBounds(e: IncludeEntry, id: nat, line: int, column: int, consumer: Consumer)
    ensures EntryMatch(e, id, line, column, consumer) == Some(true) <==>
      && FirstPositions(e, consumer).Some? && id < |FirstPositions(e, consumer).value|
      && WalkPosition(Node(e.last), consumer, false).Some? && id < |WalkPosition(Node(e.last), consumer, false).value|
      && var start := FirstPositions(e, consumer).value[id];
         var stop := WalkPosition(Node(e.last), consumer, false).value[id];
         Num(start.line) <= line <= Num(stop.line) && column <= Num(stop.lastColumn)
  {
    var starts := FirstPositions(e, consumer);
    var stops := WalkPosition(Node(e.last), consumer, false);
    if starts.Some? && stops.Some? && id < |starts.value| && id < |stops.value| {
      AcceptsBounds(starts.value[id], stops.value[id], line, column);
    }
  }

  /**
    The indices among the first `n` records whose callback matched, in increasing order
    (`iids`); None when a callback throws. Every index that matched is there.
  */
  function MatchIds(includes: seq<IncludeEntry>, n: nat, line: int, column: int, consumer: Consumer): (r: Option<seq<nat>>)
    requires n <= |includes|
    ensures r.Some? <==> forall id :: 0 <= id < n ==> EntryMatch(includes[id], id, line, column, consumer).Some?
    ensures r.Some? ==> forall k :: 0 <= k < |r.value| ==>
      r.value[k] < n && EntryMatch(includes[r.value[k]], r.value[k], line, column, consumer) == Some(true)
    ensures r.Some? ==> forall k, l :: 0 <= k < l < |r.value| ==> r.value[k] < r.value[l]
    ensures r.Some? ==> forall id :: 0 <= id < n && EntryMatch(includes[id], id, line, column, consumer) == Some(true) ==>
      id in r.value
    decreases n
  {
    if n == 0 then Some([])
    else
      match MatchIds(includes, n - 1, line, column, consumer)
      case None => None
      case Some(ids) =>
        match EntryMatch(includes[n - 1], n - 1, line, column, consumer)
        case None => None
        case Some(b) => Some(if b then ids + [n - 1] else ids)
  }

  /** Once a callback has thrown, the filter has thrown. */
  lemma MatchIdsStuck(includes: seq<IncludeEntry>, k: nat, n: nat, line: int, column: int, consumer: Consumer)
    requires k <= n <= |includes|
    requires MatchIds(includes, k, line, column, consumer).None?
    ensures MatchIds(includes, n, line, column, consumer).None?
  {
  }

  /** The first match is the record with the least index that matched. */
  lemma MatchIdsFirst(includes: seq<IncludeEntry>, line: int, column: int, consumer: Consumer)
    requires MatchIds(includes, |includes|, line, column, consumer).Some?
    requires |MatchIds(includes, |includes|, line, column, consumer).value| > 0
    ensures var id := MatchIds(includes, |includes|, line, column, consumer).value[0];
      && EntryMatch(includes[id], id, line, column, consumer) == Some(true)
      && forall j :: 0 <= j < id ==> EntryMatch(includes[j], j, line, column, consumer) == Some(false)
  {
    var ids := MatchIds(includes, |includes|, line, column, consumer).value;
    forall j | 0 <= j < ids[0]
      ensures EntryMatch(includes[j], j, line, column, consumer) == Some(false)
    {
      if EntryMatch(includes[j], j, line, column, consumer) == Some(true) {
        assert false;
      }
    }
  }

  /** One level of `getIncludeTraces`: the filter throws, nothing matches, or the first match and the position to go on from. */
  datatype Step = Throws | NoMatch | Found(entry: IncludeEntry, line: int, column: int)

  /**
    The level at the generated position (`line`, `column`) of `target`: the first record of
    `target` whose callback matched, and the line and column of its start position, which
    the next level looks for in the including file.
  */
  function NextStep(entries: seq<IncludeEntry>, target: string, line: int, column: int, consumer: Consumer): (r: Step)
    ensures r.Found? ==> r.entry in entries && r.entry.included == target
  {
    var includes := Targeting(entries, target);
    match MatchIds(includes, |includes|, line, column, consumer)
    case None => Throws
    case Some(ids) =>
      if |ids| == 0 then NoMatch
      else
        var entry := includes[ids[0]];
        var start := FirstPositions(entry, consumer).value[ids[0]];
        Found(entry, Num(start.line), Num(start.column))
  }

  /** The levels of a chain of includes, as a function of the file and generated position. */
  type Stepper = (string, int, int) -> Step

  function StepOf(entries: seq<IncludeEntry>, consumer: Consumer): Stepper
  {
    (t: string, l: int, c: int) => NextStep(entries, t, l, c, consumer)
  }

  /**
    The frames of a chain of levels appended to `traces`: one frame per level until a level
    matches nothing; None when a level throws or the chain is deeper than `fuel`.
  */
  function Chain(step: Stepper, frame: IncludeEntry -> string, target: string, line: int, column: int, traces: seq<string>, fuel: nat): Option<seq<string>>
    decreases fuel
  {
    match step(target, line, column)
    case Throws => None
    case NoMatch => Some(traces)
    case Found(entry, l, c) =>
      if fuel == 0 then None
      else Chain(step, frame, entry.source, l, c, traces + [frame(entry)], fuel - 1)
  }

  /** What `getIncludeTraces` returns. */
  function Traces(entries: seq<IncludeEntry>, target: string, line: int, column: int, consumer: Consumer,
                  traces: seq<string>, fuel: nat): Option<seq<string>>
  {
    Chain(StepOf(entries, consumer), Frame, target, line, column, traces, fuel)
  }

  /** One level of `Traces`. */
  lemma TracesUnfold(entries: seq<IncludeEntry>, target: string, line: int, column: int, consumer: Consumer,
                     traces: seq<string>, fuel: nat)
    ensures Traces(entries, target, line, column, consumer, traces, fuel) ==
      match NextStep(entries, target, line, column, consumer)
      case Throws => None
      case NoMatch => Some(traces)
      case Found(entry, l, c) =>
        if fuel == 0 then None
        else Traces(entries, entry.source, l, c, consumer, traces + [Frame(entry)], fuel - 1)
  {
    assert StepOf(entries, consumer)(target, line, column) == NextStep(entries, target, line, column, consumer);
  }

  /** A level, read off the indices the filter pushed. */
  lemma NextStepOfIds(entries: seq<IncludeEntry>, target: string, line: int, column: int, consumer: Consumer)
    ensures var includes := Targeting(entries, target);
      var m := MatchIds(includes, |includes|, line, column, consumer);
      && (m.None? ==> NextStep(entries, target, line, column, consumer) == Throws)
      && (m.Some? && |m.value| == 0 ==> NextStep(entries, target, line, column, consumer) == NoMatch)
      && (m.Some? && |m.value| > 0 ==>
            && m.value[0] < |includes|
            && FirstPositions(includes[m.value[0]], consumer).Some?
            && m.value[0] < |FirstPositions(includes[m.value[0]], consumer).value|
            && var start := FirstPositions(includes[m.value[0]], consumer).value[m.value[0]];
               NextStep(entries, target, line, column, consumer) == Found(includes[m.value[0]], Num(start.line), Num(start.column)))
  {
  }

  /**
    The traces only grow: the frames found do not depend on the list given, and are
    appended to it.
  */
  lemma {:induction false} ChainAppend(step: Stepper, frame: IncludeEntry -> string, target: string, line: int, column: int, traces: seq<string>, fuel: nat)
    ensures var found := Chain(step, frame, target, line, column, [], fuel);
      Chain(step, frame, target, line, column, traces, fuel) == if found.None? then None else Some(traces + found.value)
    decreases fuel
  {
    var s := step(target, line, column);
    if s.Found? && fuel > 0 {
      var f := frame(s.entry);
      ChainAppend(step, frame, s.entry.source, s.line, s.column, traces + [f], fuel - 1);
      ChainAppend(step, frame, s.entry.source, s.line, s.column, [f], fuel - 1);
      assert [] + [f] == [f];
      var next := Chain(step, frame, s.entry.source, s.line, s.column, [], fuel - 1);
      if next.Some? {
        assert traces + [f] + next.value == traces + ([f] + next.value);
      }
    } else if s.NoMatch? {
      assert traces + [] == traces;
    }
  }

  /** Every level adds exactly one frame, so at most `fuel` frames are found. */
  lemma {:induction false} ChainBounded(step: Stepper, frame: IncludeEntry -> string, target: string, line: int, column: int, traces: seq<string>, fuel: nat)
    ensures var found := Chain(step, frame, target, line, column, traces, fuel);
      found.Some? ==> traces <= found.value && |found.value| <= |traces| + fuel
    decreases fuel
  {
    var s := step(target, line, column);
    if s.Found? && fuel > 0 {
      var more := traces + [frame(s.entry)];
      ChainFound(step, frame, target, line, column, traces, fuel);
      ChainBounded(step, frame, s.entry.source, s.line, s.column, more, fuel - 1);
      var found := Chain(step, frame, s.entry.source, s.line, s.column, more, fuel - 1);
      if found.Some? {
        PrefixTrans(traces, more, found.value);
      }
    }
  }

  lemma PrefixTrans<T>(a: seq<T>, b: seq<T>, c: seq<T>)
    requires a <= b && b <= c
    ensures a <= c && |a| <= |c|
  {
    assert c[..|a|] == b[..|a|];
  }

  lemma PrefixHead<T>(a: seq<T>, b: seq<T>)
    requires |a| > 0 && a <= b
    ensures |b| > 0 && b[0] == a[0]
  {
  }

  /** A file that no record includes gives the traces back unchanged. */
  lemma TracesNotIncluded(entries: seq<IncludeEntry>, target: string, line: int, column: int,
                          consumer: Consumer, traces: seq<string>, fuel: nat)
    requires forall i :: 0 <= i < |entries| ==> entries[i].included != target
    ensures Traces(entries, target, line, column, consumer, traces, fuel) == Some(traces)
  {
    assert Targeting(entries, target) == [];
    assert StepOf(entries, consumer)(target, line, column) == NoMatch;
  }

  /** When every callback runs and none matches, the traces come back unchanged. */
  lemma TracesNoMatch(entries: seq<IncludeEntry>, target: string, line: int, column: int,
                      consumer: Consumer, traces: seq<string>, fuel: nat)
    requires forall j :: 0 <= j < |Targeting(entries, target)| ==>
      EntryMatch(Targeting(entries, target)[j], j, line, column, consumer) == Some(false)
    ensures Traces(entries, target, line, column, consumer, traces, fuel) == Some(traces)
  {
    TracesUnfold(entries, target, line, column, consumer, traces, fuel);
  }

  /**
    When no callback throws, a level goes on from the record of the file with the least
    index whose callback matched.
  */
  lemma NextStepFirstMatch(entries: seq<IncludeEntry>, target: string, line: int, column: int,
                           consumer: Consumer, id: nat)
    requires var includes := Targeting(entries, target);
      && id < |includes|
      && EntryMatch(includes[id], id, line, column, consumer) == Some(true)
      && (forall j :: 0 <= j < |includes| ==> EntryMatch(includes[j], j, line, column, consumer).Some?)
      && (forall j :: 0 <= j < id ==> EntryMatch(includes[j], j, line, column, consumer) == Some(false))
    ensures NextStep(entries, target, line, column, consumer).Found?
    ensures NextStep(entries, target, line, column, consumer).entry == Targeting(entries, target)[id]
  {
    var includes := Targeting(entries, target);
    var ids := MatchIds(includes, |includes|, line, column, consumer).value;
    assert id in ids;
    MatchIdsFirst(includes, line, column, consumer);
    assert ids[0] == id;
  }

  /** One level of `Chain` that matches. */
  lemma ChainFound(step: Stepper, frame: IncludeEntry -> string, target: string, line: int, column: int, traces: seq<string>, fuel: nat)
    requires step(target, line, column).Found? && fuel > 0
    ensures var s := step(target, line, column);
      Chain(step, frame, target, line, column, traces, fuel) ==
      Chain(step, frame, s.entry.source, s.line, s.column, traces + [frame(s.entry)], fuel - 1)
  {
  }

  /** A frame given first stays first. */
  lemma ChainPushed(step: Stepper, frame: IncludeEntry -> string, target: string, line: int, column: int, f: string, fuel: nat)
    ensures var found := Chain(step, frame, target, line, column, [f], fuel);
      found.Some? ==> |found.value| > 0 && found.value[0] == f
  {
    ChainBounded(step, frame, target, line, column, [f], fuel);
    var found := Chain(step, frame, target, line, column, [f], fuel);
    if found.Some? {
      PrefixHead([f], found.value);
    }
  }

  /** A level that matches puts its record's frame first. */
  lemma ChainFirstFrame(step: Stepper, frame: IncludeEntry -> string, target: string, line: int, column: int, fuel: nat)
    requires step(target, line, column).Found?
    ensures var found := Chain(step, frame, target, line, column, [], fuel);
      found.Some? ==> |found.value| > 0 && found.value[0] == frame(step(target, line, column).entry)
  {
    var s := step(target, line, column);
    if fuel > 0 {
      var f := frame(s.entry);
      ChainFound(step, frame, target, line, column, [], fuel);
      assert [] + [f] == [f];
      ChainPushed(step, frame, s.entry.source, s.line, s.column, f, fuel - 1);
    }
  }
}
