/**
  The token coalescer of the template engine.

  A TextMate grammar (outside this model) cuts every source line into raw tokens, each a
  column range with a stack of scope names. `TokenizeLine` folds runs of raw tokens with
  the same scope string into one `TokenResult`, classified by `GetState`. `Tokenize` then
  drops delimiters, merges neighbours of one line that agree on state and context, and
  finally merges neighbours across the whole text that agree on state (and, for text, on
  context), joining their values with a line feed.
*/
module Tokenizer {
  import opened Wrappers
  import opened Strings
  import opened Runs

  /** The four classes a scope string can fall into. */
  datatype State = Delimiter | Text | Block | Write

  /**
    Whether each of the regular expressions `getState` tries matches a scope string:
    an embedded begin/end punctuation scope, an `.html` or `.html.exp` suffix, and an
    embedded block or line scope in the innermost embedded part of the string.
  */
  datatype ScopeMatches = ScopeMatches(delimiter: bool, html: bool, block: bool, line: bool)

  /** The entries of `cs` whose flag is set, in order. */
  function Kept(cs: seq<(State, bool)>): (r: seq<(State, bool)>)
    ensures forall i :: 0 <= i < |r| ==> r[i].1
    decreases |cs|
  {
    if cs == [] then []
    else (if cs[0].1 then [cs[0]] else []) + Kept(cs[1..])
  }

  /** The candidate states of a scope, in priority order; the last one always applies. */
  function Candidates(m: ScopeMatches): seq<(State, bool)>
  {
    [(Delimiter, m.delimiter), (Text, m.html), (Block, m.block), (Write, m.line), (Text, true)]
  }

  /**
    The state of a scope string: the first candidate that matches. It is always defined,
    and the priority is delimiter, then an html suffix (text), then block, then write,
    and text when nothing matches.
  */
  function GetState(m: ScopeMatches): (s: State)
    ensures s == Delimiter <==> m.delimiter
    ensures s == Block <==> !m.delimiter && !m.html && m.block
    ensures s == Write <==> !m.delimiter && !m.html && !m.block && m.line
    ensures s == Text <==> !m.delimiter && (m.html || (!m.block && !m.line))
  {
    var c := Candidates(m);
    assert Kept(c[4..]) == [(Text, true)] by {
      assert c[4..][1..] == [];
    }
    assert Kept(c[3..]) == (if m.line then [(Write, true)] else []) + Kept(c[4..]) by {
      assert c[3..][1..] == c[4..];
    }
    assert Kept(c[2..]) == (if m.block then [(Block, true)] else []) + Kept(c[3..]) by {
      assert c[2..][1..] == c[3..];
    }
    assert Kept(c[1..]) == (if m.html then [(Text, true)] else []) + Kept(c[2..]) by {
      assert c[1..][1..] == c[2..];
    }
    assert Kept(c) == (if m.delimiter then [(Delimiter, true)] else []) + Kept(c[1..]);
    Kept(c)[0].0
  }

  /** The context names `getContext` prefers when they name the inner scope. */
  const KnownContexts: seq<string> := ["exp", "html", "js", "css"]

  /**
    The context of a token from its space-separated context words: the second word when
    it is a known language, the first otherwise (also when there is no second word).
  */
  function GetContext(ctx: seq<string>): (r: string)
    requires |ctx| >= 1
  {
    if |ctx| >= 2 && ctx[1] in KnownContexts then ctx[1] else ctx[0]
  }

  /** The last dot-separated segment of a scope name: `"source.js"` gives `"js"`. */
  function LastSegment(scope: string): (r: string)
    ensures '.' !in r
  {
    var parts := Split(scope, '.');
    parts[|parts| - 1]
  }

  /** At most the two innermost scopes of a stack. */
  function InnerScopes(scopes: seq<string>): (r: seq<string>)
    ensures |r| == if |scopes| >= 2 then 2 else |scopes|
  {
    if |scopes| >= 2 then scopes[|scopes| - 2..] else scopes
  }

  /** The `ctx` of a token: the last segments of its two innermost scopes, joined by a space. */
  function CtxOf(scopes: seq<string>): string
  {
    var inner := InnerScopes(scopes);
    Join(seq(|inner|, i requires 0 <= i < |inner| => LastSegment(inner[i])), " ")
  }

  /**
    Reading a token's `ctx` back with `getContext`: when the two innermost scopes end in
    segments without spaces, the context is the innermost segment if it names a known
    language and the one around it otherwise; a token with one scope has that scope's segment.
  */
  lemma ContextOfScopes(scopes: seq<string>)
    requires |scopes| >= 1
    requires forall i :: 0 <= i < |scopes| ==> ' ' !in LastSegment(scopes[i])
    ensures var n := |scopes|;
      GetContext(Split(CtxOf(scopes), ' ')) ==
        if n >= 2 && LastSegment(scopes[n - 1]) in KnownContexts then LastSegment(scopes[n - 1])
        else if n >= 2 then LastSegment(scopes[n - 2])
        else LastSegment(scopes[0])
  {
    var inner := InnerScopes(scopes);
    var segs := seq(|inner|, i requires 0 <= i < |inner| => LastSegment(inner[i]));
    forall i | 0 <= i < |segs| ensures ' ' !in segs[i] {
      assert inner[i] == scopes[|scopes| - |inner| + i];
    }
    SplitJoin(segs, ' ');
  }

  /** One token of a line as the grammar reports it: a column range and its scope stack. */
  datatype RawToken = RawToken(startIndex: int, endIndex: int, scopes: seq<string>)

  /** A coalesced token: its text, its context and its state. */
  datatype TokenResult = TokenResult(value: string, ctx: string, scope: State)

  /** The scope string that decides whether two raw tokens belong to one run. */
  function ScopeKey(t: RawToken): string
  {
    Join(t.scopes, " ")
  }

  /**
    The result for one run of raw tokens with the same scope string: the text of the run's
    LAST token (each later token overwrites the value), and the context and state taken
    when the run started.
  */
  function RunResult(line: string, classify: string -> ScopeMatches, g: seq<RawToken>): TokenResult
    requires |g| > 0
  {
    TokenResult(Substring(line, Last(g).startIndex, Last(g).endIndex), CtxOf(g[0].scopes),
      GetState(classify(ScopeKey(g[0]))))
  }

  function RunResults(line: string, classify: string -> ScopeMatches, gs: seq<seq<RawToken>>)
    : (r: seq<TokenResult>)
    requires forall i :: 0 <= i < |gs| ==> |gs[i]| > 0
    ensures |r| == |gs|
  {
    seq(|gs|, i requires 0 <= i < |gs| => RunResult(line, classify, gs[i]))
  }

  /** What `tokenizeLine` returns for a line and its raw tokens: one result per run. */
  function LineTokens(line: string, classify: string -> ScopeMatches, tokens: seq<RawToken>)
    : seq<TokenResult>
  {
    RunResults(line, classify, Groups(tokens, ScopeKey))
  }

  /**
    The coalescing loop of `tokenizeLine`. `classify` stands for the regular expressions
    of `getState` applied to a scope string.
  */
  method TokenizeLine(line: string, tokens: seq<RawToken>, classify: string -> ScopeMatches)
    returns (result: seq<TokenResult>)
    ensures result == LineTokens(line, classify, tokens)
  {
    result := [];
    var lastScopes: Option<string> := None;
    for j := 0 to |tokens|
      invariant result == LineTokens(line, classify, tokens[..j])
      invariant lastScopes == if j == 0 then None else Some(ScopeKey(tokens[j - 1]))
    {
      var t := tokens[j];
      var value := Substring(line, t.startIndex, t.endIndex);
      var tokenScope := Join(t.scopes, " ");
      LineTokensStep(line, classify, tokens, j);
      if lastScopes == Some(tokenScope) {
        result := result[|result| - 1 := result[|result| - 1].(value := value)];
      } else {
        lastScopes := Some(tokenScope);
        result := result + [TokenResult(value, CtxOf(t.scopes), GetState(classify(tokenScope)))];
      }
    }
    assert tokens[..|tokens|] == tokens;
  }

  /** One step of the `tokenizeLine` loop: the same scope string overwrites the last value. */
  lemma LineTokensSnoc(line: string, classify: string -> ScopeMatches, ts: seq<RawToken>, t: RawToken)
    ensures var r := LineTokens(line, classify, ts);
      var value := Substring(line, t.startIndex, t.endIndex);
      LineTokens(line, classify, ts + [t]) ==
        if ts != [] && ScopeKey(Last(ts)) == ScopeKey(t) then r[|r| - 1 := r[|r| - 1].(value := value)]
        else r + [TokenResult(value, CtxOf(t.scopes), GetState(classify(ScopeKey(t))))]
  {
    if ts != [] && ScopeKey(Last(ts)) == ScopeKey(t) {
      LineTokensExtend(line, classify, ts, t);
    } else {
      LineTokensOpen(line, classify, ts, t);
    }
  }

  lemma LineTokensExtend(line: string, classify: string -> ScopeMatches, ts: seq<RawToken>, t: RawToken)
    requires ts != [] && ScopeKey(Last(ts)) == ScopeKey(t)
    ensures var r := LineTokens(line, classify, ts);
      |r| > 0 &&
      LineTokens(line, classify, ts + [t]) == r[|r| - 1 := r[|r| - 1].(value := Substring(line, t.startIndex, t.endIndex))]
  {
    var gs := Groups(ts, ScopeKey);
    GroupsSnoc(ts, t, ScopeKey);
    assert Groups(ts + [t], ScopeKey) == DropLast(gs) + [Last(gs) + [t]];
    RunResultsExtend(line, classify, gs, t);
  }

  lemma LineTokensOpen(line: string, classify: string -> ScopeMatches, ts: seq<RawToken>, t: RawToken)
    requires !(ts != [] && ScopeKey(Last(ts)) == ScopeKey(t))
    ensures LineTokens(line, classify, ts + [t]) == LineTokens(line, classify, ts) +
      [TokenResult(Substring(line, t.startIndex, t.endIndex), CtxOf(t.scopes), GetState(classify(ScopeKey(t))))]
  {
    var gs := Groups(ts, ScopeKey);
    GroupsSnoc(ts, t, ScopeKey);
    assert Groups(ts + [t], ScopeKey) == gs + [[t]];
    RunResultsOpen(line, classify, gs, t);
  }

  lemma RunResultSnoc(line: string, classify: string -> ScopeMatches, g: seq<RawToken>, t: RawToken)
    requires |g| > 0
    ensures RunResult(line, classify, g + [t]) ==
      RunResult(line, classify, g).(value := Substring(line, t.startIndex, t.endIndex))
  {
    assert (g + [t])[0] == g[0] && Last(g + [t]) == t;
  }

  /** A raw token joining the last run overwrites the last value. */
  lemma RunResultsExtend(line: string, classify: string -> ScopeMatches, gs: seq<seq<RawToken>>, t: RawToken)
    requires gs != [] && forall i :: 0 <= i < |gs| ==> |gs[i]| > 0
    ensures var r := RunResults(line, classify, gs);
      RunResults(line, classify, DropLast(gs) + [Last(gs) + [t]]) ==
        r[|r| - 1 := r[|r| - 1].(value := Substring(line, t.startIndex, t.endIndex))]
  {
    var g := Last(gs) + [t];
    var gs' := DropLast(gs) + [g];
    RunResultSnoc(line, classify, Last(gs), t);
    var r := RunResults(line, classify, gs);
    var r' := RunResults(line, classify, gs');
    assert r'[|r| - 1] == RunResult(line, classify, g);
    assert r[|r| - 1] == RunResult(line, classify, Last(gs));
    forall i | 0 <= i < |r| - 1 ensures r'[i] == r[i] {
      assert gs'[i] == gs[i];
    }
  }

  /** A raw token opening a run adds a result of its own. */
  lemma RunResultsOpen(line: string, classify: string -> ScopeMatches, gs: seq<seq<RawToken>>, t: RawToken)
    requires forall i :: 0 <= i < |gs| ==> |gs[i]| > 0
    ensures RunResults(line, classify, gs + [[t]]) ==
      RunResults(line, classify, gs) +
        [TokenResult(Substring(line, t.startIndex, t.endIndex), CtxOf(t.scopes), GetState(classify(ScopeKey(t))))]
  {
    assert RunResult(line, classify, [t]) ==
      TokenResult(Substring(line, t.startIndex, t.endIndex), CtxOf(t.scopes), GetState(classify(ScopeKey(t))));
    var gs' := gs + [[t]];
    var r := RunResults(line, classify, gs);
    var r' := RunResults(line, classify, gs');
    forall i | 0 <= i < |r| ensures r'[i] == r[i] {
      assert gs'[i] == gs[i];
    }
  }

  /** The step of the `tokenizeLine` loop at the raw token with index `j`. */
  lemma LineTokensStep(line: string, classify: string -> ScopeMatches, tokens: seq<RawToken>, j: int)
    requires 0 <= j < |tokens|
    ensures var r := LineTokens(line, classify, tokens[..j]);
      var t := tokens[j];
      var value := Substring(line, t.startIndex, t.endIndex);
      LineTokens(line, classify, tokens[..j + 1]) ==
        if j > 0 && ScopeKey(tokens[j - 1]) == ScopeKey(t) then r[|r| - 1 := r[|r| - 1].(value := value)]
        else r + [TokenResult(value, CtxOf(t.scopes), GetState(classify(ScopeKey(t))))]
  {
    assert tokens[..j + 1] == tokens[..j] + [tokens[j]];
    assert j > 0 ==> Last(tokens[..j]) == tokens[j - 1];
    LineTokensSnoc(line, classify, tokens[..j], tokens[j]);
  }

  /**
    `tokenizeLine` returns one result per maximal run of raw tokens with equal scope
    strings: the runs cover the tokens in order, neighbouring runs differ in scope string,
    so no two adjacent results come from the same scope string, and there are at most as
    many results as tokens.
  */
  lemma LineTokensRuns(line: string, classify: string -> ScopeMatches, tokens: seq<RawToken>)
    ensures var gs := Groups(tokens, ScopeKey);
      && |LineTokens(line, classify, tokens)| == |gs| <= |tokens|
      && Flatten(gs) == tokens
      && IsRunPartition(gs, ScopeKey)
  {
    GroupsIsRunPartition(tokens, ScopeKey);
  }

  /** Two consecutive raw tokens with the same scopes give one result: the second one's text. */
  lemma LineTokensOverwrite(line: string, classify: string -> ScopeMatches, a: RawToken, b: RawToken)
    requires a.scopes == b.scopes
    ensures LineTokens(line, classify, [a, b]) ==
      [TokenResult(Substring(line, b.startIndex, b.endIndex), CtxOf(a.scopes), GetState(classify(ScopeKey(a))))]
  {
    GroupsSnoc([a], b, ScopeKey);
    assert [a] + [b] == [a, b];
    assert Groups([a], ScopeKey) == [[a]] by {
      assert DropLast([a]) == [];
    }
  }


  // ---------------------------------------------------------------------------------
  // The first pass of `tokenize`: within one line.
  // ---------------------------------------------------------------------------------

  /** The context `tokenize` gives a token: `getContext` of its space-separated `ctx`. */
  function Context(t: TokenResult): string
  {
    GetContext(Split(t.ctx, ' '))
  }

  /** Two neighbours of a line merge exactly when they agree on state and on context. */
  function LineKey(t: TokenResult): (State, string)
  {
    (t.scope, Context(t))
  }

  /** The tokens that are not delimiters, in order. */
  function NonDelimiters(ts: seq<TokenResult>): (r: seq<TokenResult>)
    ensures |r| <= |ts|
    ensures forall i :: 0 <= i < |r| ==> r[i].scope != Delimiter
    decreases |ts|
  {
    if ts == [] then []
    else NonDelimiters(DropLast(ts)) + (if Last(ts).scope == Delimiter then [] else [Last(ts)])
  }

  /** The values of a list of tokens, concatenated. */
  function ConcatValues(ts: seq<TokenResult>): string
    decreases |ts|
  {
    if ts == [] then [] else ConcatValues(DropLast(ts)) + Last(ts).value
  }

  lemma {:induction false} ConcatValuesAppend(a: seq<TokenResult>, b: seq<TokenResult>)
    ensures ConcatValues(a + b) == ConcatValues(a) + ConcatValues(b)
    decreases |b|
  {
    if b == [] {
      assert a + b == a;
    } else {
      assert DropLast(a + b) == a + DropLast(b);
      ConcatValuesAppend(a, DropLast(b));
    }
  }

  /** A run of a line, merged: the values appended, the context recomputed, the state kept. */
  function MergedRun(g: seq<TokenResult>): TokenResult
    requires |g| > 0
  {
    TokenResult(ConcatValues(g), Context(g[0]), g[0].scope)
  }

  function MergedRuns(gs: seq<seq<TokenResult>>): (r: seq<TokenResult>)
    requires forall i :: 0 <= i < |gs| ==> |gs[i]| > 0
    ensures |r| == |gs|
  {
    seq(|gs|, i requires 0 <= i < |gs| => MergedRun(gs[i]))
  }

  /** What the first pass of `tokenize` makes of one line's tokens. */
  function MergeLineSpec(tokens: seq<TokenResult>): seq<TokenResult>
  {
    MergedRuns(Groups(NonDelimiters(tokens), LineKey))
  }

  /**
    One step of the first pass: a delimiter changes nothing; a token agreeing with the
    last result on state and context is appended to its value; any other token is added
    with its context recomputed.
  */
  lemma MergeLineSnoc(ts: seq<TokenResult>, t: TokenResult)
    ensures var r := MergeLineSpec(ts);
      MergeLineSpec(ts + [t]) ==
        if t.scope == Delimiter then r
        else if r == [] then r + [t.(ctx := Context(t))]
        else if r[|r| - 1].scope == t.scope then
          if r[|r| - 1].ctx == Context(t) then r[|r| - 1 := r[|r| - 1].(value := r[|r| - 1].value + t.value)]
          else r + [t.(ctx := Context(t))]
        else r + [t.(ctx := Context(t))]
  {
    if t.scope != Delimiter {
      var nd := NonDelimiters(ts);
      assert MergeLineSpec(ts) == MergedRuns(Groups(nd, LineKey));
      MergeLineKeep(ts, t);
      MergedRunsSnoc(nd, t);
    } else {
      MergeLineSkip(ts, t);
    }
  }

  lemma MergeLineKeep(ts: seq<TokenResult>, t: TokenResult)
    requires t.scope != Delimiter
    ensures MergeLineSpec(ts + [t]) == MergedRuns(Groups(NonDelimiters(ts) + [t], LineKey))
  {
    assert DropLast(ts + [t]) == ts;
  }

  lemma MergeLineSkip(ts: seq<TokenResult>, t: TokenResult)
    requires t.scope == Delimiter
    ensures MergeLineSpec(ts + [t]) == MergeLineSpec(ts)
  {
    assert DropLast(ts + [t]) == ts;
    assert NonDelimiters(ts + [t]) == NonDelimiters(ts) + [];
    assert NonDelimiters(ts) + [] == NonDelimiters(ts);
  }

  lemma MergedRunsSnoc(nd: seq<TokenResult>, t: TokenResult)
    ensures var r := MergedRuns(Groups(nd, LineKey));
      MergedRuns(Groups(nd + [t], LineKey)) ==
        if r == [] then r + [t.(ctx := Context(t))]
        else if r[|r| - 1].scope == t.scope then
          if r[|r| - 1].ctx == Context(t) then r[|r| - 1 := r[|r| - 1].(value := r[|r| - 1].value + t.value)]
          else r + [t.(ctx := Context(t))]
        else r + [t.(ctx := Context(t))]
  {
    var gs := Groups(nd, LineKey);
    GroupsSnoc(nd, t, LineKey);
    var r := MergedRuns(gs);
    assert gs != [] ==> r[|r| - 1] == MergedRun(Last(gs));
    if gs != [] && LineKey(Last(gs)[0]) == LineKey(t) {
      MergedRunsExtend(gs, t);
    } else {
      MergedRunsOpen(gs, t);
    }
  }

  /** A token joining the last run is appended to the last merged value. */
  lemma MergedRunsExtend(gs: seq<seq<TokenResult>>, t: TokenResult)
    requires gs != [] && forall i :: 0 <= i < |gs| ==> |gs[i]| > 0
    ensures var r := MergedRuns(gs);
      MergedRuns(DropLast(gs) + [Last(gs) + [t]]) == r[|r| - 1 := r[|r| - 1].(value := r[|r| - 1].value + t.value)]
  {
    var g := Last(gs) + [t];
    var gs' := DropLast(gs) + [g];
    assert DropLast(g) == Last(gs);
    var r := MergedRuns(gs);
    var r' := MergedRuns(gs');
    assert r'[|r| - 1] == r[|r| - 1].(value := r[|r| - 1].value + t.value);
    forall i | 0 <= i < |r| - 1 ensures r'[i] == r[i] {
      assert gs'[i] == gs[i];
    }
  }

  /** A token opening a run adds a merged token of its own. */
  lemma MergedRunsOpen(gs: seq<seq<TokenResult>>, t: TokenResult)
    requires forall i :: 0 <= i < |gs| ==> |gs[i]| > 0
    ensures MergedRuns(gs + [[t]]) == MergedRuns(gs) + [t.(ctx := Context(t))]
  {
    var gs' := gs + [[t]];
    var r := MergedRuns(gs);
    var r' := MergedRuns(gs');
    assert ConcatValues([t]) == t.value by {
      assert DropLast([t]) == [];
    }
    forall i | 0 <= i < |r| ensures r'[i] == r[i] {
      assert gs'[i] == gs[i];
    }
  }

  /** The step of the first pass at the token with index `j`. */
  lemma MergeLineStep(tokens: seq<TokenResult>, j: int)
    requires 0 <= j < |tokens|
    ensures var r := MergeLineSpec(tokens[..j]);
      var t := tokens[j];
      MergeLineSpec(tokens[..j + 1]) ==
        if t.scope == Delimiter then r
        else if r == [] then r + [t.(ctx := Context(t))]
        else if r[|r| - 1].scope == t.scope then
          if r[|r| - 1].ctx == Context(t) then r[|r| - 1 := r[|r| - 1].(value := r[|r| - 1].value + t.value)]
          else r + [t.(ctx := Context(t))]
        else r + [t.(ctx := Context(t))]
  {
    assert tokens[..j + 1] == tokens[..j] + [tokens[j]];
    MergeLineSnoc(tokens[..j], tokens[j]);
  }

  /** The inner loop of the first pass of `tokenize`, over the tokens of one line. */
  method MergeLine(tokens: seq<TokenResult>) returns (tRes: seq<TokenResult>)
    ensures tRes == MergeLineSpec(tokens)
  {
    tRes := [];
    var len := 0;
    for j := 0 to |tokens|
      invariant tRes == MergeLineSpec(tokens[..j])
      invariant len == |tRes|
    {
      var token := tokens[j];
      MergeLineStep(tokens, j);
      var ctx := GetContext(Split(token.ctx, ' '));
      assert ctx == Context(token);
      if token.scope == Delimiter {
        continue;
      }
      if len == 0 {
        tRes := tRes + [token.(ctx := ctx)];
        len := len + 1;
        continue;
      }
      if tRes[len - 1].scope == token.scope {
        if tRes[len - 1].ctx == ctx {
          tRes := tRes[len - 1 := tRes[len - 1].(value := tRes[len - 1].value + token.value)];
        } else {
          tRes := tRes + [token.(ctx := ctx)];
          len := len + 1;
        }
      } else {
        tRes := tRes + [token.(ctx := ctx)];
        len := len + 1;
      }
    }
    assert tokens[..|tokens|] == tokens;
  }

  lemma {:induction false} MergedRunsText(gs: seq<seq<TokenResult>>)
    requires forall i :: 0 <= i < |gs| ==> |gs[i]| > 0
    ensures ConcatValues(MergedRuns(gs)) == ConcatValues(Flatten(gs))
    decreases |gs|
  {
    if gs != [] {
      var front := DropLast(gs);
      MergedRunsText(front);
      assert gs == front + [Last(gs)];
      FlattenSnoc(front, Last(gs));
      ConcatValuesAppend(Flatten(front), Last(gs));
      assert DropLast(MergedRuns(gs)) == MergedRuns(front);
    }
  }

  /**
    The first pass keeps the text: the values of a line's merged tokens, concatenated,
    are the values of its non-delimiter tokens, concatenated.
  */
  lemma MergeLineKeepsText(tokens: seq<TokenResult>)
    ensures ConcatValues(MergeLineSpec(tokens)) == ConcatValues(NonDelimiters(tokens))
  {
    FlattenGroups(NonDelimiters(tokens), LineKey);
    MergedRunsText(Groups(NonDelimiters(tokens), LineKey));
  }

  /**
    After the first pass every merged token has the state and context of each input token
    it absorbed, the runs cover the non-delimiter tokens in order, and neighbours differ
    in state or in context.
  */
  lemma MergeLineRuns(tokens: seq<TokenResult>)
    ensures var gs := Groups(NonDelimiters(tokens), LineKey);
      var r := MergeLineSpec(tokens);
      && Flatten(gs) == NonDelimiters(tokens)
      && (forall i, j :: 0 <= i < |gs| && 0 <= j < |gs[i]| ==>
            r[i].scope == gs[i][j].scope && r[i].ctx == Context(gs[i][j]))
      && (forall i :: 0 < i < |r| ==> r[i - 1].scope != r[i].scope || r[i - 1].ctx != r[i].ctx)
  {
    var gs: seq<seq<TokenResult>> := Groups(NonDelimiters(tokens), LineKey);
    var r := MergedRuns(gs);
    GroupsIsRunPartition(NonDelimiters(tokens), LineKey);
    forall i, j | 0 <= i < |gs| && 0 <= j < |gs[i]|
      ensures r[i].scope == gs[i][j].scope && r[i].ctx == Context(gs[i][j])
    {
      assert r[i] == MergedRun(gs[i]);
      assert LineKey(gs[i][j]) == LineKey(gs[i][0]);
    }
    forall i | 0 < i < |r|
      ensures r[i - 1].scope != r[i].scope || r[i - 1].ctx != r[i].ctx
    {
      assert r[i - 1] == MergedRun(gs[i - 1]) && r[i] == MergedRun(gs[i]);
      assert LineKey(gs[i - 1][0]) != LineKey(gs[i][0]);
    }
  }

  /** The first pass drops every delimiter and keeps at most one token per non-delimiter. */
  lemma MergeLineNoDelimiter(tokens: seq<TokenResult>)
    ensures |MergeLineSpec(tokens)| <= |NonDelimiters(tokens)|
    ensures forall t :: t in MergeLineSpec(tokens) ==> t.scope != Delimiter
  {
    var nd := NonDelimiters(tokens);
    var gs: seq<seq<TokenResult>> := Groups(nd, LineKey);
    FlattenGroups(nd, LineKey);
    forall i | 0 <= i < |gs| ensures gs[i][0].scope != Delimiter {
      InFlatten(gs, i, 0);
    }
  }

  // ---------------------------------------------------------------------------------
  // The second pass of `tokenize`: across the whole text.
  // ---------------------------------------------------------------------------------

  /** Neighbours merge across lines when they agree on state and, for text, on context. */
  function CrossKey(t: TokenResult): (State, string)
  {
    (t.scope, if t.scope == Text then t.ctx else "")
  }

  /** The values of a non-empty list of tokens, joined by line feeds. */
  function JoinValues(ts: seq<TokenResult>): string
    requires |ts| > 0
    decreases |ts|
  {
    if |ts| == 1 then ts[0].value else JoinValues(DropLast(ts)) + "\n" + Last(ts).value
  }

  /** A run across lines, merged: the values joined by line feeds, the first token's context. */
  function JoinedRun(g: seq<TokenResult>): TokenResult
    requires |g| > 0
  {
    TokenResult(JoinValues(g), g[0].ctx, g[0].scope)
  }

  function JoinedRuns(gs: seq<seq<TokenResult>>): (r: seq<TokenResult>)
    requires forall i :: 0 <= i < |gs| ==> |gs[i]| > 0
    ensures |r| == |gs|
  {
    seq(|gs|, i requires 0 <= i < |gs| => JoinedRun(gs[i]))
  }

  /** What the second pass makes of the first pass's tokens. */
  function MergeAcrossSpec(ts: seq<TokenResult>): seq<TokenResult>
  {
    JoinedRuns(Groups(ts, CrossKey))
  }

  /**
    One step of the second pass: a token with the last result's state is appended to its
    value after a line feed, unless both are text with different contexts; any other
    token is added unchanged.
  */
  lemma MergeAcrossSnoc(ts: seq<TokenResult>, t: TokenResult)
    ensures var r := MergeAcrossSpec(ts);
      MergeAcrossSpec(ts + [t]) ==
        if r == [] then r + [t]
        else if r[|r| - 1].scope == t.scope then
          if t.scope == Text && r[|r| - 1].ctx != t.ctx then r + [t]
          else r[|r| - 1 := r[|r| - 1].(value := r[|r| - 1].value + "\n" + t.value)]
        else r + [t]
  {
    var gs := Groups(ts, CrossKey);
    var r := JoinedRuns(gs);
    assert gs != [] ==> r[|r| - 1] == JoinedRun(Last(gs));
    if gs != [] && CrossKey(Last(gs)[0]) == CrossKey(t) {
      MergeAcrossExtend(ts, t);
    } else {
      MergeAcrossOpen(ts, t);
    }
  }

  lemma MergeAcrossExtend(ts: seq<TokenResult>, t: TokenResult)
    requires Groups(ts, CrossKey) != [] && CrossKey(Last(Groups(ts, CrossKey))[0]) == CrossKey(t)
    ensures var r := MergeAcrossSpec(ts);
      |r| > 0 &&
      MergeAcrossSpec(ts + [t]) == r[|r| - 1 := r[|r| - 1].(value := r[|r| - 1].value + "\n" + t.value)]
  {
    var gs := Groups(ts, CrossKey);
    GroupsSnoc(ts, t, CrossKey);
    assert Groups(ts + [t], CrossKey) == DropLast(gs) + [Last(gs) + [t]];
    JoinedRunsExtend(gs, t);
  }

  lemma MergeAcrossOpen(ts: seq<TokenResult>, t: TokenResult)
    requires !(Groups(ts, CrossKey) != [] && CrossKey(Last(Groups(ts, CrossKey))[0]) == CrossKey(t))
    ensures MergeAcrossSpec(ts + [t]) == MergeAcrossSpec(ts) + [t]
  {
    var gs := Groups(ts, CrossKey);
    GroupsSnoc(ts, t, CrossKey);
    assert Groups(ts + [t], CrossKey) == gs + [[t]];
    JoinedRunsOpen(gs, t);
  }

  /** A token joining the last run is appended to the last joined value after a line feed. */
  lemma JoinedRunsExtend(gs: seq<seq<TokenResult>>, t: TokenResult)
    requires gs != [] && forall i :: 0 <= i < |gs| ==> |gs[i]| > 0
    ensures var r := JoinedRuns(gs);
      JoinedRuns(DropLast(gs) + [Last(gs) + [t]]) == r[|r| - 1 := r[|r| - 1].(value := r[|r| - 1].value + "\n" + t.value)]
  {
    var g := Last(gs) + [t];
    var gs' := DropLast(gs) + [g];
    assert DropLast(g) == Last(gs);
    var r := JoinedRuns(gs);
    var r' := JoinedRuns(gs');
    assert r'[|r| - 1] == r[|r| - 1].(value := r[|r| - 1].value + "\n" + t.value);
    forall i | 0 <= i < |r| - 1 ensures r'[i] == r[i] {
      assert gs'[i] == gs[i];
    }
  }

  /** A token opening a run is added unchanged. */
  lemma JoinedRunsOpen(gs: seq<seq<TokenResult>>, t: TokenResult)
    requires forall i :: 0 <= i < |gs| ==> |gs[i]| > 0
    ensures JoinedRuns(gs + [[t]]) == JoinedRuns(gs) + [t]
  {
    var gs' := gs + [[t]];
    var r := JoinedRuns(gs);
    var r' := JoinedRuns(gs');
    forall i | 0 <= i < |r| ensures r'[i] == r[i] {
      assert gs'[i] == gs[i];
    }
  }

  /** The step of the second pass at the token with index `j`. */
  lemma MergeAcrossStep(ts: seq<TokenResult>, j: int)
    requires 0 <= j < |ts|
    ensures var r := MergeAcrossSpec(ts[..j]);
      var t := ts[j];
      MergeAcrossSpec(ts[..j + 1]) ==
        if r == [] then r + [t]
        else if r[|r| - 1].scope == t.scope then
          if t.scope == Text && r[|r| - 1].ctx != t.ctx then r + [t]
          else r[|r| - 1 := r[|r| - 1].(value := r[|r| - 1].value + "\n" + t.value)]
        else r + [t]
  {
    assert ts[..j + 1] == ts[..j] + [ts[j]];
    MergeAcrossSnoc(ts[..j], ts[j]);
  }

  /** The first pass applied to each line, the lines' results laid end to end. */
  function FirstPass(lines: seq<seq<TokenResult>>): seq<TokenResult>
    decreases |lines|
  {
    if lines == [] then [] else FirstPass(DropLast(lines)) + MergeLineSpec(Last(lines))
  }

  /** What `tokenize` returns for the per-line token lists of a text. */
  function TokenizeSpec(lines: seq<seq<TokenResult>>): seq<TokenResult>
  {
    MergeAcrossSpec(FirstPass(lines))
  }

  /** The two passes of `tokenize`, over the token lists of the text's lines. */
  method Tokenize(lines: seq<seq<TokenResult>>) returns (result: seq<TokenResult>)
    ensures result == TokenizeSpec(lines)
  {
    var tmpRes: seq<TokenResult> := [];
    for k := 0 to |lines|
      invariant tmpRes == FirstPass(lines[..k])
    {
      var tRes := MergeLine(lines[k]);
      assert DropLast(lines[..k + 1]) == lines[..k];
      tmpRes := tmpRes + tRes;
    }
    assert lines[..|lines|] == lines;
    result := MergeAcross(tmpRes);
  }

  /** The second pass of `tokenize`, over the first pass's tokens of all lines. */
  method MergeAcross(tmpRes: seq<TokenResult>) returns (result: seq<TokenResult>)
    ensures result == MergeAcrossSpec(tmpRes)
  {
    result := [];
    var resultLen := 0;
    for j := 0 to |tmpRes|
      invariant result == MergeAcrossSpec(tmpRes[..j])
      invariant resultLen == |result|
    {
      var token := tmpRes[j];
      MergeAcrossStep(tmpRes, j);
      if resultLen == 0 {
        result := result + [token];
        resultLen := resultLen + 1;
      } else if result[resultLen - 1].scope == token.scope {
        if token.scope == Text && result[resultLen - 1].ctx != token.ctx {
          result := result + [token];
          resultLen := resultLen + 1;
        } else {
          result := result[resultLen - 1 := result[resultLen - 1].(value := result[resultLen - 1].value + "\n" + token.value)];
        }
      } else {
        result := result + [token];
        resultLen := resultLen + 1;
      }
    }
    assert tmpRes[..|tmpRes|] == tmpRes;
  }

  /**
    After the second pass, two neighbours share a state only when both are text with
    different contexts, the runs cover the first pass's tokens in order, and there are
    no more results than first-pass tokens.
  */
  lemma TokenizeAdjacent(lines: seq<seq<TokenResult>>)
    ensures var r := TokenizeSpec(lines);
      forall i :: 0 < i < |r| && r[i - 1].scope == r[i].scope ==>
        r[i].scope == Text && r[i - 1].ctx != r[i].ctx
    ensures Flatten(Groups(FirstPass(lines), CrossKey)) == FirstPass(lines)
    ensures |TokenizeSpec(lines)| <= |FirstPass(lines)|
  {
    var gs: seq<seq<TokenResult>> := Groups(FirstPass(lines), CrossKey);
    var r := JoinedRuns(gs);
    GroupsAdjacentDiffer(FirstPass(lines), CrossKey);
    FlattenGroups(FirstPass(lines), CrossKey);
    forall i | 0 < i < |r| && r[i - 1].scope == r[i].scope
      ensures r[i].scope == Text && r[i - 1].ctx != r[i].ctx
    {
      assert r[i - 1] == JoinedRun(gs[i - 1]) && r[i] == JoinedRun(gs[i]);
      assert CrossKey(gs[i - 1][0]) != CrossKey(gs[i][0]);
    }
  }

  lemma {:induction false} FirstPassNoDelimiter(lines: seq<seq<TokenResult>>)
    ensures forall t :: t in FirstPass(lines) ==> t.scope != Delimiter
    decreases |lines|
  {
    if lines != [] {
      FirstPassNoDelimiter(DropLast(lines));
      MergeLineNoDelimiter(Last(lines));
    }
  }

  /** No token `tokenize` returns is a delimiter. */
  lemma TokenizeNoDelimiter(lines: seq<seq<TokenResult>>)
    ensures forall t :: t in TokenizeSpec(lines) ==> t.scope != Delimiter
  {
    var tmp := FirstPass(lines);
    FirstPassNoDelimiter(lines);
    var gs: seq<seq<TokenResult>> := Groups(tmp, CrossKey);
    FlattenGroups(tmp, CrossKey);
    forall i | 0 <= i < |gs| ensures gs[i][0].scope != Delimiter {
      InFlatten(gs, i, 0);
    }
  }

  /** The number of non-delimiter tokens over all lines. */
  function NonDelimiterCount(lines: seq<seq<TokenResult>>): nat
    decreases |lines|
  {
    if lines == [] then 0 else NonDelimiterCount(DropLast(lines)) + |NonDelimiters(Last(lines))|
  }

  /** `tokenize` returns no more tokens than there are non-delimiter tokens in the input. */
  lemma {:induction false} TokenizeLength(lines: seq<seq<TokenResult>>)
    ensures |FirstPass(lines)| <= NonDelimiterCount(lines)
    ensures |TokenizeSpec(lines)| <= NonDelimiterCount(lines)
    decreases |lines|
  {
    if lines != [] {
      TokenizeLength(DropLast(lines));
      MergeLineNoDelimiter(Last(lines));
    }
    TokenizeAdjacent(lines);
  }

  /** A line holding one non-delimiter token passes the first pass with its context recomputed. */
  lemma OneTokenLine(a: TokenResult)
    requires a.scope != Delimiter
    ensures MergeLineSpec([a]) == [a.(ctx := Context(a))]
  {
    MergeLineSnoc([], a);
    assert [] + [a] == [a];
  }

  /** Two lines of one block token each pass the first pass side by side. */
  lemma FirstPassTwoLines(a: TokenResult, b: TokenResult)
    requires a.scope == b.scope == Block
    ensures FirstPass([[a], [b]]) == [a.(ctx := Context(a)), b.(ctx := Context(b))]
  {
    OneTokenLine(a);
    OneTokenLine(b);
    assert DropLast([[a], [b]]) == [[a]] && Last([[a], [b]]) == [b];
    assert DropLast([[a]]) == [] && Last([[a]]) == [a];
    assert FirstPass([[a]]) == FirstPass([]) + MergeLineSpec([a]);
    assert FirstPass([[a], [b]]) == FirstPass([[a]]) + MergeLineSpec([b]);
  }

  /** Two neighbouring block tokens merge in the second pass, with a line feed between. */
  lemma MergeAcrossTwo(x: TokenResult, y: TokenResult)
    requires x.scope == y.scope == Block
    ensures MergeAcrossSpec([x, y]) == [x.(value := x.value + "\n" + y.value)]
  {
    assert MergeAcrossSpec([]) == [];
    MergeAcrossSnoc([], x);
    assert [] + [x] == [x];
    MergeAcrossSnoc([x], y);
    assert [x] + [y] == [x, y];
  }

  /**
    Two lines holding one block token each: the second pass merges them into one token
    whose value is the first value, a line feed and the second value.
  */
  lemma TokenizeJoinsLines(a: TokenResult, b: TokenResult)
    requires a.scope == b.scope == Block
    ensures TokenizeSpec([[a], [b]]) == [TokenResult(a.value + "\n" + b.value, Context(a), Block)]
  {
    var a' := a.(ctx := Context(a));
    var b' := b.(ctx := Context(b));
    FirstPassTwoLines(a, b);
    MergeAcrossTwo(a', b');
  }
}
