/** The cluster link map of the fast-seek feature: a run-length table of the chain. */
module LinkMap {

  /** A table of (length, top) pairs from index `i` on, closed by a zero length. */
  predicate TableOk(t: seq<nat>, i: nat)
    decreases |t| - i
  {
    i < |t| && (t[i] == 0 || (i + 2 < |t| && TableOk(t, i + 2)))
  }

  function Run(top: nat, n: nat): seq<nat> {
    seq(n, j requires 0 <= j < n => top + j)
  }

  /** The clusters a table lists. */
  function Clusters(t: seq<nat>, i: nat): seq<nat>
    requires TableOk(t, i)
    decreases |t| - i
  {
    if t[i] == 0 then [] else Run(t[i + 1], t[i]) + Clusters(t, i + 2)
  }

  /** clmt_clust on a table: walk the pairs until `cl` falls into one; 0 past the last. */
  function Lookup(t: seq<nat>, i: nat, cl: nat): nat
    requires TableOk(t, i)
    decreases |t| - i
  {
    if t[i] == 0 then 0
    else if cl < t[i] then cl + t[i + 1]
    else Lookup(t, i + 2, cl - t[i])
  }

  /** The walk finds the `cl`-th cluster listed, and 0 beyond the end. */
  lemma {:induction false} LookupIndexes(t: seq<nat>, i: nat, cl: nat)
    requires TableOk(t, i)
    ensures Lookup(t, i, cl) == if cl < |Clusters(t, i)| then Clusters(t, i)[cl] else 0
    decreases |t| - i
  {
    if t[i] == 0 || cl < t[i] {
    } else {
      LookupIndexes(t, i + 2, cl - t[i]);
    }
  }

  // ---------------------------------------------------------------- fragments

  datatype Fragment = Fragment(len: nat, top: nat)

  /** Length of the leading run of consecutive clusters. */
  function RunLength(chain: seq<nat>): (n: nat)
    requires chain != []
    ensures 1 <= n <= |chain|
    ensures chain[..n] == Run(chain[0], n)
    ensures n < |chain| ==> chain[n] != chain[n - 1] + 1
  {
    if |chain| > 1 && chain[1] == chain[0] + 1 then
      var n := RunLength(chain[1..]);
      assert chain[..n + 1] == [chain[0]] + chain[1..][..n];
      n + 1
    else
      assert chain[..1] == [chain[0]];
      1
  }

  /** The first `n` clusters are consecutive. */
  ghost predicate Consecutive(chain: seq<nat>, n: nat) {
    n <= |chain| && forall j :: 0 <= j < n ==> chain[j] == chain[0] + j
  }

  /** The longest run of consecutive clusters is the only one that is consecutive and cannot go on. */
  lemma RunLengthIs(chain: seq<nat>, n: nat)
    requires 1 <= n && Consecutive(chain, n)
    requires n < |chain| ==> chain[n] != chain[n - 1] + 1
    ensures RunLength(chain) == n
  {
    var m := RunLength(chain);
    assert Consecutive(chain, m) by {
      forall j | 0 <= j < m
        ensures chain[j] == chain[0] + j
      {
        assert chain[..m][j] == chain[j];
      }
    }
  }

  function Fragments(chain: seq<nat>): seq<Fragment>
    decreases |chain|
  {
    if chain == [] then []
    else [Fragment(RunLength(chain), chain[0])] + Fragments(chain[RunLength(chain)..])
  }

  function Expand(fs: seq<Fragment>): seq<nat> {
    if fs == [] then [] else Run(fs[0].top, fs[0].len) + Expand(fs[1..])
  }

  /** The fragments list the chain. */
  lemma {:induction false} FragmentsListChain(chain: seq<nat>)
    ensures Expand(Fragments(chain)) == chain
    decreases |chain|
  {
    hide RunLength, Fragments, Expand, Run;
    if chain == [] {
      NothingToList();
    } else {
      var n := RunLength(chain);
      var rest := chain[n..];
      FragmentsListChain(rest);
      FragmentsStep(chain, 0);
      assert chain[0..] == chain;
      ExpandStep(Fragment(n, chain[0]), Fragments(rest));
      assert chain == chain[..n] + rest;
    }
  }

  lemma NothingToList()
    ensures Expand(Fragments([])) == []
  {}

  lemma ExpandStep(f: Fragment, fs: seq<Fragment>)
    ensures Expand([f] + fs) == Run(f.top, f.len) + Expand(fs)
  {
    assert ([f] + fs)[1..] == fs;
  }

  lemma {:induction false} FragmentsPositive(chain: seq<nat>)
    ensures forall i :: 0 <= i < |Fragments(chain)| ==> Fragments(chain)[i].len > 0
    decreases |chain|
  {
    if chain == [] {
    } else {
      var rest := Fragments(chain[RunLength(chain)..]);
      FragmentsPositive(chain[RunLength(chain)..]);
      assert forall i :: 0 < i < |Fragments(chain)| ==> Fragments(chain)[i] == rest[i - 1];
    }
  }

  ghost predicate Maximal(fs: seq<Fragment>) {
    forall i :: 0 < i < |fs| ==> fs[i].top != fs[i - 1].top + fs[i - 1].len
  }

  /** No two neighbouring fragments could be joined. */
  lemma {:induction false} FragmentsAreMaximal(chain: seq<nat>)
    ensures Maximal(Fragments(chain))
    decreases |chain|
  {
    if chain == [] {
    } else {
      var n := RunLength(chain);
      var rest := chain[n..];
      FragmentsAreMaximal(rest);
      PrependKeepsMaximal(Fragment(n, chain[0]), Fragments(rest)) by {
        if rest != [] {
          assert chain[n - 1] == chain[..n][n - 1] == chain[0] + n - 1;
          assert Fragments(rest)[0].top == rest[0] == chain[n];
        }
      }
    }
  }

  lemma PrependKeepsMaximal(f: Fragment, fs: seq<Fragment>)
    requires Maximal(fs)
    requires fs != [] ==> fs[0].top != f.top + f.len
    ensures Maximal([f] + fs)
  {
    var all := [f] + fs;
    forall i | 0 < i < |all|
      ensures all[i].top != all[i - 1].top + all[i - 1].len
    {
      if i > 1 {
        assert all[i] == fs[i - 1] && all[i - 1] == fs[i - 2];
      }
    }
  }

  /** The table holds these fragments at index `i`, without the closing zero. */
  predicate Holds(t: seq<nat>, i: nat, fs: seq<Fragment>) {
    && i + 2 * |fs| <= |t|
    && forall k :: 0 <= k < |fs| ==> t[i + 2 * k] == fs[k].len && t[i + 2 * k + 1] == fs[k].top
  }

  /** A closed table lists what its fragments expand to. */
  lemma {:induction false} HeldTable(t: seq<nat>, i: nat, fs: seq<Fragment>)
    requires Holds(t, i, fs) && i + 2 * |fs| < |t| && t[i + 2 * |fs|] == 0
    requires forall k :: 0 <= k < |fs| ==> fs[k].len > 0
    ensures TableOk(t, i) && Clusters(t, i) == Expand(fs)
    decreases |fs|
  {
    if fs == [] {
    } else {
      assert t[i + 2 * 0] == fs[0].len && t[i + 2 * 0 + 1] == fs[0].top;
      forall k | 0 <= k < |fs[1..]|
        ensures t[i + 2 + 2 * k] == fs[1..][k].len && t[i + 2 + 2 * k + 1] == fs[1..][k].top
      {
        assert t[i + 2 * (k + 1)] == fs[k + 1].len && t[i + 2 * (k + 1) + 1] == fs[k + 1].top;
      }
      HeldTable(t, i + 2, fs[1..]);
    }
  }

  /** The fragments from cluster `i` on begin with the run at `i`. */
  lemma FragmentsStep(chain: seq<nat>, i: nat)
    requires i < |chain|
    ensures i + RunLength(chain[i..]) <= |chain|
    ensures Fragments(chain[i..])
         == [Fragment(RunLength(chain[i..]), chain[i])] + Fragments(chain[i + RunLength(chain[i..])..])
  {
    assert chain[i..][RunLength(chain[i..])..] == chain[i + RunLength(chain[i..])..];
  }

  lemma NoMoreFragments(chain: seq<nat>, i: nat)
    requires i <= |chain|
    ensures i == |chain| ==> Fragments(chain[i..]) == []
    ensures chain == [] ==> Fragments(chain) == []
  {}

  lemma HoldsMore(t: seq<nat>, i: nat, fs: seq<Fragment>, f: Fragment)
    requires Holds(t, i, fs) && i + 2 * |fs| + 2 <= |t|
    ensures Holds(t[i + 2 * |fs| := f.len][i + 2 * |fs| + 1 := f.top], i, fs + [f])
  {}

  lemma HoldsElsewhere(t: seq<nat>, i: nat, fs: seq<Fragment>, k: nat, v: nat)
    requires Holds(t, i, fs) && k < |t| && (k < i || i + 2 * |fs| <= k)
    ensures Holds(t[k := v], i, fs)
  {}

  lemma HoldsNothing(t: seq<nat>)
    requires |t| >= 1
    ensures Holds(t, 1, [])
  {}
}
