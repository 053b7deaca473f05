/**
  Maximal runs of equal key.

  All three coalescing loops of the tokenizer walk a list once and either start a new
  output entry or fold the current element into the previous entry, depending on whether
  a key of the element equals the key of that entry. Each of them therefore computes a
  partition of its input into maximal runs of equal key, followed by a summary of each run.
  `Groups` is that partition, defined from the back of the list so that it unfolds one
  loop step at a time.
*/
module Runs {

  function Last<T>(s: seq<T>): T
    requires |s| > 0
  {
    s[|s| - 1]
  }

  function DropLast<T>(s: seq<T>): seq<T>
    requires |s| > 0
  {
    s[..|s| - 1]
  }

  /** The concatenation of a list of lists. */
  function Flatten<T>(gs: seq<seq<T>>): seq<T>
    decreases |gs|
  {
    if gs == [] then [] else gs[0] + Flatten(gs[1..])
  }

  lemma {:induction false} FlattenSnoc<T>(gs: seq<seq<T>>, g: seq<T>)
    ensures Flatten(gs + [g]) == Flatten(gs) + g
    decreases |gs|
  {
    if gs == [] {
      assert [g][1..] == [];
    } else {
      assert (gs + [g])[1..] == gs[1..] + [g];
      FlattenSnoc(gs[1..], g);
    }
  }

  lemma {:induction false} FlattenConcat<T>(gs: seq<seq<T>>, hs: seq<seq<T>>)
    ensures Flatten(gs + hs) == Flatten(gs) + Flatten(hs)
    decreases |gs|
  {
    if gs == [] {
      assert gs + hs == hs;
    } else {
      assert (gs + hs)[1..] == gs[1..] + hs;
      FlattenConcat(gs[1..], hs);
    }
  }

  /** Every element of every list is an element of the concatenation. */
  lemma {:induction false} InFlatten<T>(gs: seq<seq<T>>, i: int, j: int)
    requires 0 <= i < |gs| && 0 <= j < |gs[i]|
    ensures gs[i][j] in Flatten(gs)
    decreases |gs|
  {
    if i > 0 {
      InFlatten(gs[1..], i - 1, j);
      assert gs[1..][i - 1] == gs[i];
    }
  }

  /** The length of a concatenation is the sum of the lengths. */
  lemma {:induction false} FlattenLength<T>(gs: seq<seq<T>>, hs: seq<seq<T>>)
    requires |gs| == |hs|
    requires forall i :: 0 <= i < |gs| ==> |gs[i]| <= |hs[i]|
    ensures |Flatten(gs)| <= |Flatten(hs)|
    decreases |gs|
  {
    if gs != [] {
      FlattenLength(gs[1..], hs[1..]);
    }
  }

  /**
    The partition of `ts` into maximal runs of consecutive elements with equal `key`.
    There are no more runs than elements, every run is non-empty, and the last run ends
    with the last element and has that element's key.
  */
  function Groups<T, K(==)>(ts: seq<T>, key: T -> K): (gs: seq<seq<T>>)
    ensures |gs| <= |ts|
    ensures |gs| == 0 <==> |ts| == 0
    ensures forall i :: 0 <= i < |gs| ==> |gs[i]| > 0
    ensures |ts| > 0 ==> Last(Last(gs)) == Last(ts) && key(Last(gs)[0]) == key(Last(ts))
    decreases |ts|
  {
    if ts == [] then []
    else
      var gs := Groups(DropLast(ts), key);
      var x := Last(ts);
      if gs != [] && key(Last(gs)[0]) == key(x) then DropLast(gs) + [Last(gs) + [x]]
      else gs + [[x]]
  }

  /** One loop step: appending an element extends the last run or opens a new one. */
  lemma GroupsSnoc<T, K>(ts: seq<T>, x: T, key: T -> K)
    ensures var gs := Groups(ts, key);
      Groups(ts + [x], key) ==
        if gs != [] && key(Last(gs)[0]) == key(x) then DropLast(gs) + [Last(gs) + [x]]
        else gs + [[x]]
  {
    assert DropLast(ts + [x]) == ts;
  }

  /** Appending to the last list appends to the concatenation. */
  lemma FlattenExtendLast<T>(gs: seq<seq<T>>, x: T)
    requires gs != []
    ensures Flatten(DropLast(gs) + [Last(gs) + [x]]) == Flatten(gs) + [x]
  {
    assert gs == DropLast(gs) + [Last(gs)];
    FlattenSnoc(DropLast(gs), Last(gs));
    FlattenSnoc(DropLast(gs), Last(gs) + [x]);
  }

  /** The runs, concatenated, are the input: nothing is lost, duplicated or reordered. */
  lemma {:induction false} FlattenGroups<T, K>(ts: seq<T>, key: T -> K)
    ensures Flatten(Groups(ts, key)) == ts
    decreases |ts|
  {
    if ts != [] {
      var front := DropLast(ts);
      var x := Last(ts);
      assert front + [x] == ts;
      FlattenGroups(front, key);
      GroupsSnoc(front, x, key);
      var gs := Groups(front, key);
      if gs != [] && key(Last(gs)[0]) == key(x) {
        FlattenExtendLast(gs, x);
      } else {
        FlattenSnoc(gs, [x]);
      }
    }
  }

  /** Every element of a (non-empty) run has the key of the run's first element. */
  predicate Uniform<T, K(==)>(gs: seq<seq<T>>, key: T -> K)
  {
    forall i, j :: 0 <= i < |gs| && 0 <= j < |gs[i]| ==> key(gs[i][j]) == key(gs[i][0])
  }

  /** Neighbouring (non-empty) runs start with elements of different keys. */
  predicate Maximal<T, K(==)>(gs: seq<seq<T>>, key: T -> K)
    requires forall i :: 0 <= i < |gs| ==> |gs[i]| > 0
  {
    forall i :: 0 < i < |gs| ==> key(gs[i - 1][0]) != key(gs[i][0])
  }

  /** Inside a run every element has the key of the run's first element. */
  lemma {:induction false} GroupsUniform<T, K>(ts: seq<T>, key: T -> K)
    ensures Uniform(Groups(ts, key), key)
    decreases |ts|
  {
    if ts != [] {
      var gs := Groups(DropLast(ts), key);
      var x := Last(ts);
      GroupsUniform(DropLast(ts), key);
      var r := Groups(ts, key);
      if gs != [] && key(Last(gs)[0]) == key(x) {
        forall i, j | 0 <= i < |r| && 0 <= j < |r[i]|
          ensures key(r[i][j]) == key(r[i][0])
        {
          assert r == DropLast(gs) + [Last(gs) + [x]];
          if i < |gs| - 1 {
            assert r[i] == gs[i];
            assert key(gs[i][j]) == key(gs[i][0]);
          } else {
            assert r[i] == Last(gs) + [x];
            assert key(gs[|gs| - 1][0]) == key(x);
            if j < |Last(gs)| {
              assert r[i][j] == gs[|gs| - 1][j];
              assert key(gs[|gs| - 1][j]) == key(gs[|gs| - 1][0]);
            }
          }
        }
      } else {
        forall i, j | 0 <= i < |r| && 0 <= j < |r[i]|
          ensures key(r[i][j]) == key(r[i][0])
        {
          if i < |gs| {
            assert r[i] == gs[i];
          }
        }
      }
    }
  }

  /** Neighbouring runs have different keys: every run is maximal. */
  lemma {:induction false} GroupsAdjacentDiffer<T, K>(ts: seq<T>, key: T -> K)
    ensures Maximal(Groups(ts, key), key)
    decreases |ts|
  {
    if ts != [] {
      var gs := Groups(DropLast(ts), key);
      var x := Last(ts);
      GroupsAdjacentDiffer(DropLast(ts), key);
      var r := Groups(ts, key);
      if gs != [] && key(Last(gs)[0]) == key(x) {
        forall i | 0 < i < |r|
          ensures key(r[i - 1][0]) != key(r[i][0])
        {
          assert r[i - 1][0] == gs[i - 1][0];
          assert r[i][0] == gs[i][0];
        }
      } else {
        forall i | 0 < i < |r|
          ensures key(r[i - 1][0]) != key(r[i][0])
        {
          assert r[i - 1] == gs[i - 1];
          if i < |gs| {
            assert r[i] == gs[i];
          }
        }
      }
    }
  }

  /** A list of runs that are non-empty, uniform and maximal. */
  predicate IsRunPartition<T, K(==)>(gs: seq<seq<T>>, key: T -> K)
  {
    && (forall i :: 0 <= i < |gs| ==> |gs[i]| > 0)
    && Uniform(gs, key)
    && Maximal(gs, key)
  }

  lemma GroupsIsRunPartition<T, K>(ts: seq<T>, key: T -> K)
    ensures IsRunPartition(Groups(ts, key), key)
    ensures Flatten(Groups(ts, key)) == ts
  {
    GroupsUniform(ts, key);
    GroupsAdjacentDiffer(ts, key);
    FlattenGroups(ts, key);
  }

  /** Removing the last element of a longer last run leaves a run partition. */
  lemma PartitionShrink<T, K>(gs: seq<seq<T>>, key: T -> K)
    requires IsRunPartition(gs, key)
    requires |gs| > 0 && |Last(gs)| > 1
    ensures IsRunPartition(DropLast(gs) + [DropLast(Last(gs))], key)
  {
    var g := Last(gs);
    var front := DropLast(gs);
    var gs' := front + [DropLast(g)];
    forall i, j | 0 <= i < |gs'| && 0 <= j < |gs'[i]|
      ensures key(gs'[i][j]) == key(gs'[i][0])
    {
      if i < |front| {
        assert gs'[i] == gs[i];
      } else {
        assert gs'[i][j] == g[j];
      }
    }
    forall i | 0 < i < |gs'|
      ensures key(gs'[i - 1][0]) != key(gs'[i][0])
    {
      assert gs'[i - 1][0] == gs[i - 1][0];
      assert gs'[i][0] == gs[i][0];
    }
  }

  /**
    `Groups` is the only partition into non-empty, uniform, maximal runs: any such
    partition of `ts` is `Groups(ts, key)`.
  */
  lemma {:induction false} GroupsUnique<T, K>(gs: seq<seq<T>>, ts: seq<T>, key: T -> K)
    requires IsRunPartition(gs, key)
    requires Flatten(gs) == ts
    ensures gs == Groups(ts, key)
    decreases |ts|
  {
    if gs != [] {
      var g := Last(gs);
      var front := DropLast(gs);
      assert gs == front + [g];
      FlattenSnoc(front, g);
      if |g| == 1 {
        assert IsRunPartition(front, key);
        GroupsUnique(front, Flatten(front), key);
        if front != [] {
          assert key(Last(front)[0]) != key(g[0]);
        }
        assert [g[0]] == g;
        GroupsUniqueSingle(front, g[0], key);
      } else {
        var g' := DropLast(g);
        var gs' := front + [g'];
        assert g == g' + [Last(g)];
        FlattenSnoc(front, g');
        PartitionShrink(gs, key);
        GroupsUnique(gs', Flatten(gs'), key);
        assert key(g[0]) == key(g[|g| - 1]);
        GroupsUniqueLonger(front, g, key);
      }
    }
  }

  /** An element of a new key after the runs of `Groups` is a run of its own. */
  lemma GroupsUniqueSingle<T, K>(front: seq<seq<T>>, x: T, key: T -> K)
    requires front == Groups(Flatten(front), key)
    requires front != [] ==> |Last(front)| > 0 && key(Last(front)[0]) != key(x)
    ensures front + [[x]] == Groups(Flatten(front + [[x]]), key)
  {
    var ts' := Flatten(front);
    FlattenSnoc(front, [x]);
    GroupsSnoc(ts', x, key);
  }

  /** The last element of a longer last run extends that run in `Groups`. */
  lemma GroupsUniqueLonger<T, K>(front: seq<seq<T>>, g: seq<T>, key: T -> K)
    requires |g| > 1 && key(g[0]) == key(Last(g))
    requires front + [DropLast(g)] == Groups(Flatten(front + [DropLast(g)]), key)
    ensures front + [g] == Groups(Flatten(front + [g]), key)
  {
    var g' := DropLast(g);
    var gs' := front + [g'];
    assert g == g' + [Last(g)];
    FlattenSnoc(front, g);
    FlattenSnoc(front, g');
    var ts' := Flatten(gs');
    assert Flatten(front + [g]) == ts' + [Last(g)];
    GroupsSnoc(ts', Last(g), key);
    assert Last(gs') == g' && g'[0] == g[0];
    assert DropLast(gs') == front;
  }
}
