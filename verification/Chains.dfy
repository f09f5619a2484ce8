/**
 * Cluster chains as linked lists inside an array t of cluster values: entry c of t
 * is the cluster after c, anything from |t| on ends a chain, 0 is a free cluster.
 */
module Chains {
  import opened Bytes

  type Links = seq<nat>

  /** ch is the list of clusters from ch[0] to an end mark. */
  ghost predicate IsChain(t: Links, ch: seq<nat>) {
    && |ch| > 0
    && (forall i :: 0 <= i < |ch| ==> 2 <= ch[i] < |t|)
    && (forall i :: 0 <= i < |ch| - 1 ==> t[ch[i]] == ch[i + 1])
    && t[ch[|ch| - 1]] >= |t|
  }

  ghost predicate Distinct(ch: seq<nat>) {
    forall i, j :: 0 <= i < j < |ch| ==> ch[i] != ch[j]
  }

  lemma ChainTail(t: Links, ch: seq<nat>)
    requires IsChain(t, ch) && |ch| > 1
    ensures IsChain(t, ch[1..])
  {
    forall i | 0 <= i < |ch[1..]| - 1
      ensures t[ch[1..][i]] == ch[1..][i + 1]
    {
      assert ch[1..][i] == ch[i + 1];
      assert t[ch[i + 1]] == ch[i + 2];
    }
  }

  /** A head has only one chain. */
  lemma {:induction false} SameHeadSameChain(t: Links, a: seq<nat>, b: seq<nat>)
    requires IsChain(t, a) && IsChain(t, b) && a[0] == b[0]
    ensures a == b
    decreases |a|
  {
    assert |a| > 1 ==> t[a[0]] == a[1];
    assert |b| > 1 ==> t[b[0]] == b[1];
    if |a| > 1 && |b| > 1 {
      assert a[1] == t[a[0]] == b[1];
      ChainTail(t, a);
      ChainTail(t, b);
      SameHeadSameChain(t, a[1..], b[1..]);
      assert a == [a[0]] + a[1..] && b == [b[0]] + b[1..];
    }
  }

  lemma ChainFrom(t: Links, ch: seq<nat>, k: nat)
    requires IsChain(t, ch) && k < |ch|
    ensures IsChain(t, ch[k..])
  {
    forall i | 0 <= i < |ch[k..]| - 1
      ensures t[ch[k..][i]] == ch[k..][i + 1]
    {
      assert ch[k..][i] == ch[k + i];
      assert t[ch[k + i]] == ch[k + i + 1];
    }
  }

  /** A chain that reaches an end mark cannot be cyclic. */
  lemma ChainIsAcyclic(t: Links, ch: seq<nat>)
    requires IsChain(t, ch)
    ensures Distinct(ch)
  {
    forall i, j | 0 <= i < j < |ch|
      ensures ch[i] != ch[j]
    {
      if ch[i] == ch[j] {
        ChainFrom(t, ch, i);
        ChainFrom(t, ch, j);
        SameHeadSameChain(t, ch[i..], ch[j..]);
      }
    }
  }

  /** Two chains either share no cluster, or one is a tail of the other. */
  lemma SharedTail(t: Links, a: seq<nat>, b: seq<nat>, i: nat, j: nat)
    requires IsChain(t, a) && IsChain(t, b) && i < |a| && j < |b| && a[i] == b[j]
    ensures a[i..] == b[j..]
  {
    ChainFrom(t, a, i);
    ChainFrom(t, b, j);
    SameHeadSameChain(t, a[i..], b[j..]);
  }

  // ---- what the operations do to chains

  lemma UntouchedChain(t: Links, u: Links, ch: seq<nat>)
    requires IsChain(t, ch) && |u| == |t|
    requires forall c :: c in ch ==> c < |t| && u[c] == t[c]
    ensures IsChain(u, ch)
  {
    forall i | 0 <= i < |ch|
      ensures u[ch[i]] == t[ch[i]]
    {
      assert ch[i] in ch;
    }
  }

  lemma NewChain(t: Links, c: nat, eoc: nat)
    requires 2 <= c < |t| <= eoc
    ensures IsChain(t[c := eoc], [c])
  {
  }

  lemma StretchedChain(t: Links, ch: seq<nat>, c: nat, eoc: nat)
    requires IsChain(t, ch) && 2 <= c < |t| <= eoc && t[c] == 0
    ensures IsChain(t[c := eoc][ch[|ch| - 1] := c], ch + [c])
  {
    ChainIsAcyclic(t, ch);
    var u := t[c := eoc][ch[|ch| - 1] := c];
    var ch' := ch + [c];
    forall i | 0 <= i < |ch|
      ensures ch[i] != c
    {
      if i < |ch| - 1 {
        assert t[ch[i]] == ch[i + 1];
      }
    }
    forall i | 0 <= i < |ch'| - 1
      ensures u[ch'[i]] == ch'[i + 1]
    {
      if i < |ch| - 1 {
        assert t[ch[i]] == ch[i + 1];
        assert ch[i] != ch[|ch| - 1];
      }
    }
  }

  /** Ending a chain after its first k clusters leaves two chains. */
  lemma CutChain(t: Links, ch: seq<nat>, k: nat, eoc: nat)
    requires IsChain(t, ch) && 0 < k <= |ch| && |t| <= eoc
    ensures IsChain(t[ch[k - 1] := eoc], ch[..k])
    ensures k < |ch| ==> IsChain(t[ch[k - 1] := eoc], ch[k..])
  {
    ChainIsAcyclic(t, ch);
    var u := t[ch[k - 1] := eoc];
    forall i | 0 <= i < k - 1
      ensures u[ch[..k][i]] == ch[..k][i + 1]
    {
      assert t[ch[i]] == ch[i + 1];
    }
    if k < |ch| {
      ChainFrom(t, ch, k);
      UntouchedChain(t, u, ch[k..]);
    }
  }

  // ---- removing a chain

  /** The number of zero entries of t from k on. */
  function Zeros(t: Links, k: nat): (z: nat)
    requires k <= |t|
    ensures z <= |t| - k
    decreases |t| - k
  {
    if k == |t| then 0 else (if t[k] == 0 then 1 else 0) + Zeros(t, k + 1)
  }

  lemma {:induction false} ZerosUpdate(t: Links, k: nat, c: nat, v: nat)
    requires k <= |t| && c < |t|
    ensures Zeros(t[c := v], k) ==
            if c < k then Zeros(t, k)
            else Zeros(t, k) + (if v == 0 then 1 else 0) - (if t[c] == 0 then 1 else 0)
    decreases |t| - k
  {
    if k < |t| {
      ZerosUpdate(t, k + 1, c, v);
    }
  }

  datatype Removal = Removal(links: Links, freed: nat, res: FResult)

  /** What remove_chain does to any table, also one with a cyclic or broken chain: follow and clear. */
  ghost function RemoveFrom(t: Links, c: nat): (r: Removal)
    requires c >= 2
    decreases |t| - Zeros(t, 0)
  {
    if c >= |t| || t[c] == 0 then Removal(t, 0, FrOk)
    else if t[c] == 1 then Removal(t, 0, FrIntErr)
    else
      ZerosUpdate(t, 0, c, 0);
      var r := RemoveFrom(t[c := 0], t[c]);
      r.(freed := r.freed + 1)
  }

  /** Removing never does more than clear entries, and it counts exactly those it cleared. */
  lemma {:induction false} RemoveOnlyClears(t: Links, c: nat)
    requires c >= 2
    ensures var r := RemoveFrom(t, c);
            && |r.links| == |t|
            && (forall i :: 0 <= i < |t| ==> r.links[i] == t[i] || r.links[i] == 0)
            && (|t| >= 2 ==> r.links[0] == t[0] && r.links[1] == t[1] && Zeros(r.links, 2) == Zeros(t, 2) + r.freed)
    decreases |t| - Zeros(t, 0)
  {
    if c < |t| && t[c] > 1 {
      ZerosUpdate(t, 0, c, 0);
      ZerosUpdate(t, 2, c, 0);
      RemoveOnlyClears(t[c := 0], t[c]);
    }
  }

  /** u is t with exactly the clusters of ch freed. */
  ghost predicate Freed(t: Links, u: Links, ch: seq<nat>) {
    && |u| == |t|
    && forall c :: 0 <= c < |t| ==> u[c] == if c in ch then 0 else t[c]
  }

  /** On a well-formed chain remove_chain frees exactly that chain. */
  lemma {:induction false} RemoveFreesChain(t: Links, ch: seq<nat>)
    requires IsChain(t, ch)
    ensures var r := RemoveFrom(t, ch[0]);
            r.res == FrOk && r.freed == |ch| && Freed(t, r.links, ch)
    decreases |ch|
  {
    ChainIsAcyclic(t, ch);
    var u := t[ch[0] := 0];
    if |ch| == 1 {
      assert RemoveFrom(u, t[ch[0]]) == Removal(u, 0, FrOk);
    } else {
      ChainTail(t, ch);
      UntouchedChain(t, u, ch[1..]);
      RemoveFreesChain(u, ch[1..]);
      assert t[ch[0]] == ch[1];
      assert ch == [ch[0]] + ch[1..];
    }
  }

  // ---- the search for a free cluster

  /** How far cluster c is from start s when searching upwards and round; s itself comes last. */
  function Distance(s: nat, c: nat, n: nat): int {
    if c > s then c - s else c + n - s
  }

  /** All clusters nearer than c hold a link or an end mark. */
  ghost predicate TakenBefore(t: Links, s: nat, c: nat) {
    forall d :: 2 <= d < |t| && Distance(s, d, |t|) < Distance(s, c, |t|) ==> t[d] > 1
  }

  /** The outcome of create_chain's search from s: the first cluster that is free (or holds 1), or none. */
  ghost predicate Searched(t: Links, s: nat, r: nat) {
    if r == 0 then forall d :: 2 <= d < |t| ==> t[d] > 1
    else if r == 1 then exists c :: 2 <= c < |t| && t[c] == 1 && TakenBefore(t, s, c)
    else r < |t| && t[r] == 0 && TakenBefore(t, s, r)
  }

  /** The cluster after c in the search, or 0 past the last one when the search starts at 1. */
  function NextCandidate(s: nat, c: nat, n: nat): nat {
    if c + 1 < n then c + 1 else if s >= 2 then 2 else 0
  }

  lemma SearchFirst(t: Links, s: nat)
    requires 1 <= s < |t| && |t| >= 3
    ensures var c := NextCandidate(s, s, |t|);
            2 <= c < |t| && TakenBefore(t, s, c) && Distance(s, c, |t|) <= |t|
  {
  }

  lemma SearchStep(t: Links, s: nat, c: nat)
    requires 1 <= s < |t| && 2 <= c < |t| && c != s
    requires TakenBefore(t, s, c) && t[c] > 1
    ensures var e := NextCandidate(s, c, |t|);
            if e == 0 then Searched(t, s, 0)
            else 2 <= e < |t| && TakenBefore(t, s, e) && Distance(s, c, |t|) < Distance(s, e, |t|) <= |t|
  {
  }

  lemma SearchLast(t: Links, s: nat)
    requires 2 <= s < |t| && TakenBefore(t, s, s) && t[s] > 1
    ensures Searched(t, s, 0)
  {
    forall d | 2 <= d < |t| && d != s
      ensures t[d] > 1
    {
      assert Distance(s, d, |t|) < Distance(s, s, |t|);
    }
  }

  /** The search is complete: without entries holding 1, it fails only when nothing is free. */
  lemma SearchIsComplete(t: Links, s: nat, r: nat)
    requires |t| >= 2 && Searched(t, s, r)
    requires forall c :: 2 <= c < |t| ==> t[c] != 1
    ensures r != 1
    ensures r == 0 <==> Zeros(t, 2) == 0
  {
    ZerosPositive(t, 2);
  }

  lemma {:induction false} ZerosPositive(t: Links, k: nat)
    requires k <= |t|
    ensures Zeros(t, k) == 0 <==> forall c :: k <= c < |t| ==> t[c] != 0
    decreases |t| - k
  {
    if k < |t| {
      ZerosPositive(t, k + 1);
    }
  }

  /** The search has one outcome. */
  lemma SearchIsDetermined(t: Links, s: nat, r: nat, q: nat)
    requires Searched(t, s, r) && Searched(t, s, q)
    requires 1 <= s < |t|
    ensures r == q
  {
  }

  // ---- the set of all files' chains

  /** cs are end-marked lists that share no cluster. */
  ghost predicate ChainSet(t: Links, cs: set<seq<nat>>) {
    && (forall ch :: ch in cs ==> IsChain(t, ch))
    && (forall a, b, c :: a in cs && b in cs && c in a && c in b ==> a == b)
  }

  lemma TakenClusters(t: Links, ch: seq<nat>, c: nat)
    requires IsChain(t, ch) && c in ch
    ensures 2 <= c < |t| && t[c] >= 2
  {
    var i :| 0 <= i < |ch| && ch[i] == c;
    if i < |ch| - 1 {
      assert t[ch[i]] == ch[i + 1];
    }
  }

  /** create_chain(0) adds one singleton list. */
  lemma CreateKeepsChains(t: Links, cs: set<seq<nat>>, r: nat, eoc: nat)
    requires ChainSet(t, cs) && 2 <= r < |t| <= eoc && t[r] == 0
    ensures ChainSet(t[r := eoc], cs + {[r]})
  {
    var u := t[r := eoc];
    forall ch | ch in cs
      ensures IsChain(u, ch) && r !in ch
    {
      forall c | c in ch
        ensures c < |t| && u[c] == t[c]
      {
        TakenClusters(t, ch, c);
      }
      UntouchedChain(t, u, ch);
      if r in ch {
        TakenClusters(t, ch, r);
      }
    }
    NewChain(t, r, eoc);
  }

  /** create_chain(last cluster of ch) appends one cluster to ch and leaves every other list. */
  lemma StretchKeepsChains(t: Links, cs: set<seq<nat>>, ch: seq<nat>, r: nat, eoc: nat)
    requires ChainSet(t, cs) && ch in cs && 2 <= r < |t| <= eoc && t[r] == 0
    ensures ChainSet(t[r := eoc][ch[|ch| - 1] := r], cs - {ch} + {ch + [r]})
  {
    var u := t[r := eoc][ch[|ch| - 1] := r];
    StretchedChain(t, ch, r, eoc);
    assert ch[|ch| - 1] in ch;
    forall o | o in cs - {ch}
      ensures IsChain(u, o) && r !in o
    {
      forall c | c in o
        ensures c < |t| && u[c] == t[c]
      {
        TakenClusters(t, o, c);
      }
      UntouchedChain(t, u, o);
      if r in o {
        TakenClusters(t, o, r);
      }
    }
  }

  /** remove_chain deletes exactly one list. */
  lemma RemoveKeepsChains(t: Links, cs: set<seq<nat>>, ch: seq<nat>)
    requires ChainSet(t, cs) && ch in cs
    ensures RemoveFrom(t, ch[0]).res == FrOk
    ensures ChainSet(RemoveFrom(t, ch[0]).links, cs - {ch})
    ensures Freed(t, RemoveFrom(t, ch[0]).links, ch)
  {
    RemoveFreesChain(t, ch);
    var u := RemoveFrom(t, ch[0]).links;
    forall o | o in cs - {ch}
      ensures IsChain(u, o)
    {
      forall c | c in o
        ensures c < |t| && u[c] == t[c]
      {
        TakenClusters(t, o, c);
        assert c !in ch;
      }
      UntouchedChain(t, u, o);
    }
  }
}
