/**
 Cluster chains of a FAT32 volume. A table holds the low 28 bits of every cluster's entry; a chain is
 the run of clusters that its entries link, from a first cluster to one that ends it.
 */
module FatChains {
  /** An entry that names a next cluster; anything else ends the chain. */
  predicate Links(entry: int) {
    2 <= entry < 268435447
  }

  ghost predicate InTable(fat: seq<int>, ch: seq<int>) {
    forall i :: 0 <= i < |ch| ==> 2 <= ch[i] < |fat|
  }

  /** The clusters of `ch`, in order, are one whole chain; its last entry is not that of a free cluster. */
  ghost predicate IsChain(fat: seq<int>, ch: seq<int>) {
    && |ch| > 0 && InTable(fat, ch)
    && (forall i :: 0 <= i < |ch| - 1 ==> Links(fat[ch[i]]) && fat[ch[i]] == ch[i + 1])
    && !Links(fat[ch[|ch| - 1]]) && fat[ch[|ch| - 1]] != 0
  }

  lemma {:induction false} Suffix(fat: seq<int>, ch: seq<int>, i: nat)
    requires IsChain(fat, ch) && i < |ch|
    ensures IsChain(fat, ch[i..])
  {
    var t := ch[i..];
    assert forall k :: 0 <= k < |t| ==> t[k] == ch[i + k];
  }

  lemma {:induction false} Follow(fat: seq<int>, ch: seq<int>, i: nat)
    requires IsChain(fat, ch) && i < |ch|
    ensures Links(fat[ch[i]]) <==> i + 1 < |ch|
    ensures i + 1 < |ch| ==> fat[ch[i]] == ch[i + 1]
  {
  }

  /** The table decides the chain: two that start alike are the same. */
  lemma {:induction false} SameStart(fat: seq<int>, a: seq<int>, b: seq<int>)
    requires IsChain(fat, a) && IsChain(fat, b) && a[0] == b[0]
    ensures a == b
    decreases |a|
  {
    if |a| > 1 && |b| > 1 {
      Suffix(fat, a, 1);
      Suffix(fat, b, 1);
      assert a[1] == b[1];
      SameStart(fat, a[1..], b[1..]);
      assert a == [a[0]] + a[1..] && b == [b[0]] + b[1..];
    }
  }

  /** A chain that ends visits no cluster twice. */
  lemma {:induction false} NoRepeats(fat: seq<int>, ch: seq<int>)
    requires IsChain(fat, ch)
    ensures forall i, j :: 0 <= i < j < |ch| ==> ch[i] != ch[j]
  {
    forall i, j | 0 <= i < j < |ch| ensures ch[i] != ch[j] {
      if ch[i] == ch[j] {
        Suffix(fat, ch, i);
        Suffix(fat, ch, j);
        SameStart(fat, ch[i..], ch[j..]);
      }
    }
  }

  lemma {:induction false} NeverFree(fat: seq<int>, ch: seq<int>, x: int)
    requires IsChain(fat, ch) && x in ch
    ensures 2 <= x < |fat| && fat[x] != 0
  {
    var i :| 0 <= i < |ch| && ch[i] == x;
    assert i == |ch| - 1 || Links(fat[ch[i]]);
  }

  lemma {:induction false} ChainFrame(fat: seq<int>, fat': seq<int>, ch: seq<int>)
    requires IsChain(fat, ch) && |fat'| == |fat| && forall x :: x in ch ==> fat'[x] == fat[x]
    ensures IsChain(fat', ch)
  {
    assert forall i :: 0 <= i < |ch| ==> ch[i] in ch;
  }

  // ---- whole volumes ----

  /** The chains of a volume, each under its first cluster. */
  type Chains = map<int, seq<int>>

  ghost predicate Apart(a: seq<int>, b: seq<int>) {
    forall x :: x in a ==> x !in b
  }

  /** Every chain is whole, and no two share a cluster. */
  ghost predicate Sound(fat: seq<int>, chains: Chains) {
    && (forall s {:trigger chains[s]} :: s in chains ==> IsChain(fat, chains[s]) && chains[s][0] == s)
    && (forall s, t {:trigger chains[s], chains[t]} :: s in chains && t in chains && s != t ==>
         Apart(chains[s], chains[t]))
  }

  /** One chain has been made longer or shorter: the common part is kept, what is new was free, what is
      left over has become free, and no other entry has changed. */
  ghost predicate Resized(fat: seq<int>, fat': seq<int>, ch: seq<int>, ch': seq<int>) {
    && |fat'| == |fat| && (ch' == [] || IsChain(fat', ch')) && InTable(fat, ch)
    && (ch <= ch' || ch' <= ch)
    && (forall i {:trigger ch'[i]} :: |ch| <= i < |ch'| ==> fat[ch'[i]] == 0)
    && (forall i {:trigger ch[i]} :: |ch'| <= i < |ch| ==> fat'[ch[i]] == 0)
    && (forall x {:trigger fat'[x]} :: 0 <= x < |fat| && x !in ch && x !in ch' ==> fat'[x] == fat[x])
  }

  /** What the volume's chains are after one of them, or none, gave way to another, or none. */
  ghost function Replaced(chains: Chains, ch: seq<int>, ch': seq<int>): Chains {
    var rest := if ch == [] then chains else chains - {ch[0]};
    if ch' == [] then rest else rest[ch'[0] := ch']
  }

  /** `ch` is one of the volume's chains, or it is none. */
  ghost predicate OneOf(chains: Chains, ch: seq<int>) {
    ch == [] || (ch[0] in chains && chains[ch[0]] == ch)
  }

  /** Clusters of another chain are not in the old chain nor in the new one. */
  lemma {:induction false} OtherChainApart(fat: seq<int>, fat': seq<int>, chains: Chains, ch: seq<int>, ch': seq<int>,
                                           t: int)
    requires Sound(fat, chains) && OneOf(chains, ch) && Resized(fat, fat', ch, ch')
    requires t in chains && (ch == [] || t != ch[0])
    ensures Apart(chains[t], ch) && Apart(chains[t], ch') && Apart(ch', chains[t])
  {
    assert ch != [] ==> Apart(chains[t], chains[ch[0]]);
    forall x | x in chains[t] ensures x !in ch' {
      NeverFree(fat, chains[t], x);
    }
  }

  /** Other chains come through with every link, and the volume stays sound. */
  lemma {:induction false} ResizedSound(fat: seq<int>, fat': seq<int>, chains: Chains, ch: seq<int>, ch': seq<int>)
    requires Sound(fat, chains) && OneOf(chains, ch) && Resized(fat, fat', ch, ch')
    ensures Sound(fat', Replaced(chains, ch, ch'))
    ensures forall t :: t in chains && (ch == [] || t != ch[0]) ==>
              t in Replaced(chains, ch, ch') && Replaced(chains, ch, ch')[t] == chains[t]
    ensures ch == [] && ch' != [] ==> ch'[0] !in chains
  {
    var now := Replaced(chains, ch, ch');
    forall t {:trigger chains[t]} | t in chains && (ch == [] || t != ch[0])
      ensures IsChain(fat', chains[t]) && Apart(chains[t], ch') && Apart(ch', chains[t]) && (ch' != [] ==> t != ch'[0])
    {
      OtherChainApart(fat, fat', chains, ch, ch', t);
      forall x | x in chains[t] ensures fat'[x] == fat[x] {
        NeverFree(fat, chains[t], x);
      }
      ChainFrame(fat, fat', chains[t]);
      assert chains[t][0] in chains[t];
    }
    forall s {:trigger now[s]} | s in now ensures IsChain(fat', now[s]) && now[s][0] == s {
      if ch' == [] || s != ch'[0] {
        assert now[s] == chains[s];
      }
    }
    forall s, t {:trigger now[s], now[t]} | s in now && t in now && s != t ensures Apart(now[s], now[t]) {
      if ch' == [] || s != ch'[0] {
        assert now[s] == chains[s];
      }
      if ch' == [] || t != ch'[0] {
        assert now[t] == chains[t];
      }
    }
  }

  // ---- the steps that make a chain longer or shorter ----

  /** A table with the clusters of a run marked free. */
  ghost predicate Freed(fat: seq<int>, fat': seq<int>, run: seq<int>) {
    && |fat'| == |fat|
    && forall x {:trigger fat'[x]} :: 0 <= x < |fat| ==> fat'[x] == if x in run then 0 else fat[x]
  }

  lemma {:induction false} ResizedSelf(fat: seq<int>, ch: seq<int>)
    requires ch == [] || IsChain(fat, ch)
    ensures Resized(fat, fat, ch, ch)
  {
  }

  /** The entry writes that append a free cluster: link the last one to it, then end it. */
  ghost function Appended(fat: seq<int>, ch: seq<int>, c: int): (fat': seq<int>)
    requires InTable(fat, ch) && 2 <= c < |fat|
    ensures |fat'| == |fat|
  {
    (if ch == [] then fat else fat[ch[|ch| - 1] := c])[c := 268435455]
  }

  lemma {:induction false} AppendedIsChain(fat: seq<int>, ch: seq<int>, c: int)
    requires (ch == [] || IsChain(fat, ch)) && 2 <= c < |fat| <= 268435447 && fat[c] == 0
    ensures c !in ch && IsChain(Appended(fat, ch, c), ch + [c])
  {
    if c in ch {
      NeverFree(fat, ch, c);
    }
    if ch != [] {
      NoRepeats(fat, ch);
    }
    var now, all := Appended(fat, ch, c), ch + [c];
    forall i | 0 <= i < |all| - 1 ensures Links(now[all[i]]) && now[all[i]] == all[i + 1] {
      assert ch[i] in ch;
      assert ch[i] != c;
    }
  }

  lemma {:induction false} Grown(fat: seq<int>, fat1: seq<int>, ch: seq<int>, ch1: seq<int>, c: int)
    requires Resized(fat, fat1, ch, ch1) && ch <= ch1 && 2 <= c < |fat| <= 268435447 && fat1[c] == 0
    ensures Resized(fat, Appended(fat1, ch1, c), ch, ch1 + [c])
  {
    AppendedIsChain(fat1, ch1, c);
    var fat2, ch2 := Appended(fat1, ch1, c), ch1 + [c];
    assert c !in ch;
    forall i {:trigger ch2[i]} | |ch| <= i < |ch2| ensures fat[ch2[i]] == 0 {
      assert i < |ch1| ==> ch2[i] == ch1[i];
    }
    forall x {:trigger fat2[x]} | 0 <= x < |fat| && x !in ch && x !in ch2 ensures fat2[x] == fat[x] {
      assert x !in ch1 && x != c;
      assert ch1 != [] ==> ch1[|ch1| - 1] in ch1;
      assert fat1[x] == fat[x];
    }
  }

  /** Ending a chain early leaves its tail a chain of its own, still to be freed. */
  lemma {:induction false} CutTail(fat: seq<int>, ch: seq<int>, n: nat)
    requires IsChain(fat, ch) && 0 < n < |ch|
    ensures IsChain(fat[ch[n - 1] := 268435455], ch[n..]) && Links(fat[ch[n - 1]]) && fat[ch[n - 1]] == ch[n]
  {
    NoRepeats(fat, ch);
    Suffix(fat, ch, n);
    var fat', t := fat[ch[n - 1] := 268435455], ch[n..];
    forall x | x in t ensures fat'[x] == fat[x] {
      var i :| 0 <= i < |t| && t[i] == x;
      assert ch[n + i] != ch[n - 1];
    }
    ChainFrame(fat, fat', t);
  }

  lemma {:induction false} Cut(fat: seq<int>, ch: seq<int>, n: nat, fat2: seq<int>)
    requires IsChain(fat, ch) && 0 < n < |ch| && Freed(fat[ch[n - 1] := 268435455], fat2, ch[n..])
    ensures Resized(fat, fat2, ch, ch[..n])
  {
    NoRepeats(fat, ch);
    var ch' := ch[..n];
    forall i | 0 <= i < n ensures ch[i] !in ch[n..] {
      assert forall k :: 0 <= k < |ch| - n ==> ch[n..][k] == ch[n + k] && ch[i] != ch[n + k];
    }
    forall i | 0 <= i < |ch'| - 1 ensures Links(fat2[ch'[i]]) && fat2[ch'[i]] == ch'[i + 1] {
      assert ch[i] != ch[n - 1];
    }
    forall i {:trigger ch[i]} | n <= i < |ch| ensures fat2[ch[i]] == 0 {
      assert ch[i] == ch[n..][i - n];
    }
    forall x {:trigger fat2[x]} | 0 <= x < |fat| && x !in ch && x !in ch' ensures fat2[x] == fat[x] {
      assert ch[n - 1] in ch;
    }
  }

  lemma {:induction false} AllFreed(fat: seq<int>, fat': seq<int>, ch: seq<int>)
    requires IsChain(fat, ch) && Freed(fat, fat', ch)
    ensures Resized(fat, fat', ch, [])
  {
  }

  // ---- how much is free ----

  ghost function FreeSet(fat: seq<int>): set<int> {
    set x | 2 <= x < |fat| && fat[x] == 0
  }

  lemma {:induction false} AppendTakesOne(fat: seq<int>, ch: seq<int>, c: int)
    requires (ch == [] || IsChain(fat, ch)) && 2 <= c < |fat| <= 268435447 && fat[c] == 0
    ensures FreeSet(Appended(fat, ch, c)) == FreeSet(fat) - {c} && |FreeSet(Appended(fat, ch, c))| == |FreeSet(fat)| - 1
  {
    var now := Appended(fat, ch, c);
    if ch != [] {
      NeverFree(fat, ch, ch[|ch| - 1]);
    }
    assert FreeSet(now) == FreeSet(fat) - {c};
    assert c in FreeSet(fat);
  }

  ghost function ClustersIn(ch: seq<int>): set<int> {
    set i | 0 <= i < |ch| :: ch[i]
  }

  lemma {:induction false} DistinctCount(ch: seq<int>)
    requires forall i, j :: 0 <= i < j < |ch| ==> ch[i] != ch[j]
    ensures |ClustersIn(ch)| == |ch|
  {
    if ch != [] {
      var rest := ch[..|ch| - 1];
      DistinctCount(rest);
      assert ClustersIn(ch) == ClustersIn(rest) + {ch[|ch| - 1]};
      assert ch[|ch| - 1] !in ClustersIn(rest);
    }
  }

  lemma {:induction false} PlusCount(a: set<int>, b: set<int>)
    requires a !! b
    ensures |a + b| == |a| + |b|
  {
  }

  /** Clusters are conserved: what a chain gains the free ones lose, and the other way round. */
  lemma {:induction false} ResizedFree(fat: seq<int>, fat': seq<int>, ch: seq<int>, ch': seq<int>)
    requires Resized(fat, fat', ch, ch') && (ch == [] || IsChain(fat, ch))
    ensures |FreeSet(fat')| + |ch'| == |FreeSet(fat)| + |ch|
  {
    ChainCount(fat, ch);
    ChainCount(fat', ch');
    var a, b := FreeSet(fat) + ClustersIn(ch), FreeSet(fat') + ClustersIn(ch');
    forall x ensures x in a <==> x in b {
      SameTotal(fat, fat', ch, ch', x);
    }
    assert a == b;
  }

  lemma {:induction false} ChainCount(fat: seq<int>, ch: seq<int>)
    requires ch == [] || IsChain(fat, ch)
    ensures |ClustersIn(ch)| == |ch| && |FreeSet(fat) + ClustersIn(ch)| == |FreeSet(fat)| + |ch|
  {
    if ch != [] {
      NoRepeats(fat, ch);
    }
    DistinctCount(ch);
    forall x | x in ClustersIn(ch) ensures x !in FreeSet(fat) {
      NeverFree(fat, ch, x);
    }
    PlusCount(FreeSet(fat), ClustersIn(ch));
  }

  lemma {:induction false} SameTotal(fat: seq<int>, fat': seq<int>, ch: seq<int>, ch': seq<int>, x: int)
    requires Resized(fat, fat', ch, ch') && (ch == [] || IsChain(fat, ch))
    ensures x in FreeSet(fat) + ClustersIn(ch) <==> x in FreeSet(fat') + ClustersIn(ch')
  {
    if x in ch {
      var i :| 0 <= i < |ch| && ch[i] == x;
      assert i < |ch'| ==> ch'[i] == x;
    } else if x in ch' {
      var i :| 0 <= i < |ch'| && ch'[i] == x;
      assert i >= |ch|;
    }
  }
}
