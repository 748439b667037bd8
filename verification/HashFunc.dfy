/** The 64-bit address mixer of src/wlgc.h. It loses no information, so two
  * addresses share a bucket only because the mixed value is reduced modulo the
  * capacity of the table. */
module HashFunc {

  /** 64-bit addition wraps around. It has a name so that proofs can replace a
    * shifted argument by the equal product. */
  function Plus(a: bv64, b: bv64): bv64 { a + b }

  // The seven statements of hash_func.

  function Step1(key: bv64): bv64 { Plus(!key, key << 21) }
  function Step2(key: bv64): bv64 { key ^ (key >> 24) }
  function Step3(key: bv64): bv64 { Plus(Plus(key, key << 3), key << 8) }
  function Step4(key: bv64): bv64 { key ^ (key >> 14) }
  function Step5(key: bv64): bv64 { Plus(Plus(key, key << 2), key << 4) }
  function Step6(key: bv64): bv64 { key ^ (key >> 28) }
  function Step7(key: bv64): bv64 { Plus(key, key << 31) }

  function Hash(key: bv64): bv64 {
    Step7(Step6(Step5(Step4(Step3(Step2(Step1(key)))))))
  }

  // What undoes each statement: an odd multiplier is undone by its inverse modulo
  // 2^64, a xor-shift by s by xoring in the shifts by all the multiples of s.

  function Undo1(key: bv64): bv64 { (key + 1) * 0x7ffffbffffdfffff }
  function Undo2(key: bv64): bv64 { key ^ (key >> 24) ^ (key >> 48) }
  function Undo3(key: bv64): bv64 { key * 0xd38ff08b1c03dd39 }
  function Undo4(key: bv64): bv64 { key ^ (key >> 14) ^ (key >> 28) ^ (key >> 42) ^ (key >> 56) }
  function Undo5(key: bv64): bv64 { key * 0xcf3cf3cf3cf3cf3d }
  function Undo6(key: bv64): bv64 { key ^ (key >> 28) ^ (key >> 56) }
  function Undo7(key: bv64): bv64 { key * 0x3fffffff80000001 }

  function Unhash(key: bv64): bv64 {
    Undo1(Undo2(Undo3(Undo4(Undo5(Undo6(Undo7(key)))))))
  }

  // The four multipliers.

  function Times1(key: bv64): bv64 { key * 0x1fffff - 1 }
  function Times3(key: bv64): bv64 { key * 265 }
  function Times5(key: bv64): bv64 { key * 21 }
  function Times7(key: bv64): bv64 { key * 0x80000001 }

  lemma Complement(key: bv64)
    ensures !key == 0 - key - 1
  {
  }

  lemma Shift21(key: bv64)
    ensures key << 21 == key * 0x200000
  {
  }

  lemma Shift31(key: bv64)
    ensures key << 31 == key * 0x80000000
  {
  }

  lemma Sum1(key: bv64)
    ensures Plus(0 - key - 1, key * 0x200000) == key * 0x1fffff - 1
  {
  }

  lemma Sum7(key: bv64)
    ensures Plus(key, key * 0x80000000) == key * 0x80000001
  {
  }

  /** (~key) + (key << 21) multiplies by 2^21 - 1 and subtracts 1. */
  lemma Multiplier1(key: bv64)
    ensures Step1(key) == Times1(key)
  {
    Complement(key);
    Shift21(key);
    Sum1(key);
  }

  lemma Multiplier3(key: bv64)
    ensures Step3(key) == Times3(key)
  {
    assert key << 3 == key * 8;
    assert key << 8 == key * 256;
    assert Plus(key, key * 8) == key * 9;
    assert Plus(key * 9, key * 256) == key * 265;
  }

  lemma Multiplier5(key: bv64)
    ensures Step5(key) == Times5(key)
  {
    assert key << 2 == key * 4;
    assert key << 4 == key * 16;
    assert Plus(key, key * 4) == key * 5;
    assert Plus(key * 5, key * 16) == key * 21;
  }

  lemma Multiplier7(key: bv64)
    ensures Step7(key) == Times7(key)
  {
    Shift31(key);
    Sum7(key);
  }

  // Each statement and its undoing are mutually inverse.

  lemma Inverse1(key: bv64)
    ensures Undo1(Step1(key)) == key
  {
    Multiplier1(key);
    assert Undo1(key * 0x1fffff - 1) == key;
  }

  lemma Inverse2(key: bv64)
    ensures Undo2(Step2(key)) == key
  {
    assert Undo2(key ^ (key >> 24)) == key;
  }

  lemma Inverse3(key: bv64)
    ensures Undo3(Step3(key)) == key
  {
    Multiplier3(key);
    assert Undo3(key * 265) == key;
  }

  lemma Inverse4(key: bv64)
    ensures Undo4(Step4(key)) == key
  {
    assert Undo4(key ^ (key >> 14)) == key;
  }

  lemma Inverse5(key: bv64)
    ensures Undo5(Step5(key)) == key
  {
    Multiplier5(key);
    assert Undo5(key * 21) == key;
  }

  lemma Inverse6(key: bv64)
    ensures Undo6(Step6(key)) == key
  {
    assert Undo6(key ^ (key >> 28)) == key;
  }

  lemma Inverse7(key: bv64)
    ensures Undo7(Step7(key)) == key
  {
    Multiplier7(key);
    assert Undo7(key * 0x80000001) == key;
  }

  lemma Onto1(key: bv64)
    ensures Step1(Undo1(key)) == key
  {
    Multiplier1(Undo1(key));
    assert Times1((key + 1) * 0x7ffffbffffdfffff) == key;
  }

  lemma Onto2(key: bv64)
    ensures Step2(Undo2(key)) == key
  {
    assert Step2(key ^ (key >> 24) ^ (key >> 48)) == key;
  }

  lemma Onto3(key: bv64)
    ensures Step3(Undo3(key)) == key
  {
    Multiplier3(Undo3(key));
    assert Times3(key * 0xd38ff08b1c03dd39) == key;
  }

  lemma Onto4(key: bv64)
    ensures Step4(Undo4(key)) == key
  {
    assert Step4(key ^ (key >> 14) ^ (key >> 28) ^ (key >> 42) ^ (key >> 56)) == key;
  }

  lemma Onto5(key: bv64)
    ensures Step5(Undo5(key)) == key
  {
    Multiplier5(Undo5(key));
    assert Times5(key * 0xcf3cf3cf3cf3cf3d) == key;
  }

  lemma Onto6(key: bv64)
    ensures Step6(Undo6(key)) == key
  {
    assert Step6(key ^ (key >> 28) ^ (key >> 56)) == key;
  }

  lemma Onto7(key: bv64)
    ensures Step7(Undo7(key)) == key
  {
    Multiplier7(Undo7(key));
    assert Times7(key * 0x3fffffff80000001) == key;
  }

  /** hash_func is a bijection on 64-bit words, and Unhash is its inverse. */
  lemma HashIsBijection(key: bv64)
    ensures Unhash(Hash(key)) == key
    ensures Hash(Unhash(key)) == key
  {
    var a := Step1(key);
    var b := Step2(a);
    var c := Step3(b);
    var d := Step4(c);
    var e := Step5(d);
    var f := Step6(e);
    Inverse1(key);
    Inverse2(a);
    Inverse3(b);
    Inverse4(c);
    Inverse5(d);
    Inverse6(e);
    Inverse7(f);
    var u := Undo7(key);
    var v := Undo6(u);
    var w := Undo5(v);
    var x := Undo4(w);
    var y := Undo3(x);
    var z := Undo2(y);
    Onto7(key);
    Onto6(u);
    Onto5(v);
    Onto4(w);
    Onto3(x);
    Onto2(y);
    Onto1(z);
  }

  /** The mixer separates any two different addresses. */
  lemma HashIsInjective(p: bv64, q: bv64)
    requires Hash(p) == Hash(q)
    ensures p == q
  {
    HashIsBijection(p);
    HashIsBijection(q);
  }

  /** The mixed words of three keys. */
  lemma HashValues()
    ensures Hash(0) == 0x77cfa1eef01bca90 && Hash(1) == 0x5bca7c69b794f8ce && Hash(0x1000) == 0xa87f259f50fdf44c
  {
  }
}
