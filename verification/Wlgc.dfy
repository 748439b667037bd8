/** The collector with the hash function of src/wlgc.h. */
module Wlgc {
  import opened Arith
  import opened Gc
  import opened GcSpec
  import HashFunc

  /** hash_func on an address; addresses have 64 bits. */
  function Mix(p: nat): nat {
    if p < WORD_RANGE then HashFunc.Hash(p as bv64) as nat else p
  }

  /** gc_init */
  method Init(bos: nat) returns (gc: Collector)
    ensures fresh(gc) && gc.Valid() && gc.state == INITIAL && gc.hash == Mix
  {
    gc := new Collector(Mix, bos);
  }

  lemma RoundTrip(p: bv64)
    ensures (p as nat) as bv64 == p
  {
  }

  lemma SameNumber(p: bv64, q: bv64)
    requires p as nat == q as nat
    ensures p == q
  {
    RoundTrip(p);
    RoundTrip(q);
  }

  /** Different addresses are mixed to different words: two of them meet in a bucket
    * only because the mixed words agree modulo the capacity. */
  lemma MixSeparatesAddresses(p: bv64, q: bv64)
    requires p != q
    ensures Mix(p as nat) != Mix(q as nat)
  {
    RoundTrip(p);
    RoundTrip(q);
    if HashFunc.Hash(p) as nat == HashFunc.Hash(q) as nat {
      SameNumber(HashFunc.Hash(p), HashFunc.Hash(q));
      HashFunc.HashIsInjective(p, q);
    }
  }

  /** The mixed addresses are those of hash_func. */
  lemma MixOfAddress(p: bv64)
    ensures (p as nat) < 0x1_0000_0000_0000_0000 && Mix(p as nat) == HashFunc.Hash(p) as nat
  {
    RoundTrip(p);
  }
}
