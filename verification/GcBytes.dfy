/** What a collection keeps, in terms of the bytes that it reads. */
module GcBytes {
  import opened Arith
  import opened Memory
  import opened GcSpec
  import opened GcRuns

  /** Eight bytes of the stack, from any offset up to its recorded bottom, are those of b. */
  ghost predicate InStack(v: View, b: nat) {
    exists p :: v.tos <= p <= v.bos && Stores(v.mem, p, b)
  }

  /** Eight bytes of block a, from any offset up to its last eight ones, are those of b. */
  ghost predicate InBlock(v: View, blocks: Blocks, a: nat, b: nat) {
    a in blocks && exists p :: a <= p && p + 8 <= a + blocks[a] && Stores(v.mem, p, b)
  }

  /** Tracked blocks, the first of which the stack refers to and each other one the block
    * before it. */
  ghost predicate IsChain(v: View, blocks: Blocks, chain: seq<nat>) {
    && |chain| > 0 && (forall i :: 0 <= i < |chain| ==> chain[i] in blocks)
    && InStack(v, chain[0])
    && forall i :: 0 <= i < |chain| - 1 ==> InBlock(v, blocks, chain[i], chain[i + 1])
  }

  ghost predicate Referenced(v: View, blocks: Blocks, b: nat) {
    exists chain :: IsChain(v, blocks, chain) && chain[|chain| - 1] == b
  }

  lemma InStackIsRoot(v: View, blocks: Blocks, b: nat)
    requires Readable(v, blocks) && b in blocks
    ensures InStack(v, b) <==> IsRoot(v, blocks, b)
  {
    forall p | v.tos <= p <= v.bos
      ensures Word(v.mem, p) == b <==> Stores(v.mem, p, b)
    {
      WordIsBytes(v.mem, p, b);
    }
    hide Stores, Word;
  }

  lemma InBlockPoints(v: View, blocks: Blocks, a: nat, b: nat)
    requires Readable(v, blocks) && b in blocks
    ensures InBlock(v, blocks, a, b) <==> Points(v, blocks, a, b)
  {
    if a in blocks {
      assert Mapped(v.mem, a, blocks[a]);
      forall p | a <= p <= a + blocks[a] - WORD
        ensures Mapped(v.mem, p, WORD) && (Word(v.mem, p) == b <==> Stores(v.mem, p, b))
      {
        WordIsBytes(v.mem, p, b);
      }
    }
    hide Stores, Word;
  }

  lemma ReferencedIsReachable(v: View, blocks: Blocks, b: nat)
    requires Readable(v, blocks)
    ensures Referenced(v, blocks, b) <==> Reachable(v, blocks, b)
  {
    hide InStack, InBlock, IsRoot, Points, Readable;
    if Referenced(v, blocks, b) {
      var chain :| IsChain(v, blocks, chain) && chain[|chain| - 1] == b;
      ChainIsPath(v, blocks, chain);
    }
    if Reachable(v, blocks, b) {
      var path :| IsPath(v, blocks, path) && path[|path| - 1] == b;
      PathIsTracked(v, blocks, path);
      ChainIsPath(v, blocks, path);
    }
  }

  lemma PathIsTracked(v: View, blocks: Blocks, path: seq<nat>)
    requires Readable(v, blocks) && IsPath(v, blocks, path)
    ensures forall i :: 0 <= i < |path| ==> path[i] in blocks
  {
    forall i | 0 <= i < |path|
      ensures path[i] in blocks
    {
      assert i > 0 ==> Points(v, blocks, path[i - 1], path[i - 1 + 1]);
    }
  }

  lemma ChainIsPath(v: View, blocks: Blocks, chain: seq<nat>)
    requires Readable(v, blocks) && forall i :: 0 <= i < |chain| ==> chain[i] in blocks
    ensures IsChain(v, blocks, chain) <==> IsPath(v, blocks, chain)
  {
    hide InStack, InBlock, IsRoot, Points, Readable;
    if |chain| > 0 {
      InStackIsRoot(v, blocks, chain[0]);
    }
    forall i | 0 <= i < |chain| - 1
      ensures InBlock(v, blocks, chain[i], chain[i + 1]) <==> Points(v, blocks, chain[i], chain[i + 1])
    {
      InBlockPoints(v, blocks, chain[i], chain[i + 1]);
    }
  }

  /** A collection keeps a block, with its size, if and only if a chain of references leads to it
    * from the stack; every other one it releases. */
  lemma CollectKeepsExactly(s: State, v: View, t: State, b: nat)
    requires Sound(s) && Readable(v, s.blocks) && CollectStep(s, v, t) && b in s.blocks
    ensures b in t.blocks <==> Referenced(v, s.blocks, b)
    ensures b in t.blocks ==> t.blocks[b] == s.blocks[b]
    ensures b !in t.blocks ==> multiset(t.released)[b] == multiset(s.released)[b] + 1
  {
    hide Referenced, Reachable, Readable, Swept;
    ReferencedIsReachable(v, s.blocks, b);
    CollectIsSound(s, v, t);
    CollectReleasesOnce(s, v, t, b);
  }

  /** So a block stays tracked if some eight bytes of the stack are those of its address, or some
    * eight bytes of a block that stays. */
  lemma WhatIsStoredIsKept(s: State, v: View, t: State, p: nat, b: nat)
    requires Sound(s) && Readable(v, s.blocks) && CollectStep(s, v, t) && b in s.blocks && Stores(v.mem, p, b)
    requires v.tos <= p <= v.bos || exists a :: a in t.blocks && a <= p && p + 8 <= a + t.blocks[a]
    ensures b in t.blocks && t.blocks[b] == s.blocks[b]
  {
    hide Stores, Readable, Swept, Survivors;
    CollectKeepsExactly(s, v, t, b);
    if v.tos <= p <= v.bos {
      assert IsChain(v, s.blocks, [b]);
    } else {
      var a :| a in t.blocks && a <= p && p + 8 <= a + t.blocks[a];
      CollectIsSound(s, v, t);
      SurvivorsAreFewer(v, s.blocks);
      CollectKeepsExactly(s, v, t, a);
      var chain :| IsChain(v, s.blocks, chain) && chain[|chain| - 1] == a;
      LongerChain(v, s.blocks, chain, p, b);
    }
  }

  lemma LongerChain(v: View, blocks: Blocks, chain: seq<nat>, p: nat, b: nat)
    requires IsChain(v, blocks, chain) && b in blocks && Stores(v.mem, p, b)
    requires var a := chain[|chain| - 1]; a <= p && p + 8 <= a + blocks[a]
    ensures Referenced(v, blocks, b)
  {
    hide Stores;
    var longer := chain + [b];
    assert InBlock(v, blocks, chain[|chain| - 1], b);
    hide InBlock, InStack;
    assert forall i :: 0 <= i < |longer| - 1 ==> longer[i] == chain[i];
    assert IsChain(v, blocks, longer) && longer[|longer| - 1] == b;
  }
}
