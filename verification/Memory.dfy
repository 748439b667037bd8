/** Byte memory as the collector reads it. An address is in the map when it may be
  * read, so every precondition below is a memory-safety obligation. */
module Memory {

  type Byte = n: int | 0 <= n < 256

  type Memory = map<nat, Byte>

  /** sizeof(void *) */
  const WORD := 8

  ghost predicate Mapped(mem: Memory, start: nat, n: nat) {
    forall a :: start <= a < start + n ==> a in mem
  }

  /** The little-endian number in the n bytes from a. */
  function LittleEndian(mem: Memory, a: nat, n: nat): nat
    requires Mapped(mem, a, n)
    decreases n
  {
    if n == 0 then 0 else mem[a] + 0x100 * LittleEndian(mem, a + 1, n - 1)
  }

  /** The word that starts at a, which need not be aligned. */
  function Word(mem: Memory, a: nat): nat
    requires Mapped(mem, a, WORD)
  {
    LittleEndian(mem, a, WORD)
  }

  /** The eight bytes from a are those of w, the lowest one first. */
  ghost predicate Stores(mem: Memory, a: nat, w: nat) {
    && w < 0x1_0000_0000_0000_0000 && (forall p :: a <= p < a + 8 ==> p in mem)
    && mem[a] == w % 0x100
    && mem[a + 1] == w / 0x100 % 0x100
    && mem[a + 2] == w / 0x1_0000 % 0x100
    && mem[a + 3] == w / 0x100_0000 % 0x100
    && mem[a + 4] == w / 0x1_0000_0000 % 0x100
    && mem[a + 5] == w / 0x100_0000_0000 % 0x100
    && mem[a + 6] == w / 0x1_0000_0000_0000 % 0x100
    && mem[a + 7] == w / 0x100_0000_0000_0000
  }

  /** A word is read with the lowest byte first. */
  lemma WordIsBytes(mem: Memory, a: nat, w: nat)
    requires Mapped(mem, a, WORD)
    ensures Word(mem, a) == w <==> Stores(mem, a, w)
  {
    hide LittleEndian;
    LowestByte(mem, a, 8, w);
    LowestByte(mem, a + 1, 7, w / 0x100);
    LowestByte(mem, a + 2, 6, w / 0x1_0000);
    LowestByte(mem, a + 3, 5, w / 0x100_0000);
    LowestByte(mem, a + 4, 4, w / 0x1_0000_0000);
    LowestByte(mem, a + 5, 3, w / 0x100_0000_0000);
    LowestByte(mem, a + 6, 2, w / 0x1_0000_0000_0000);
    LowestByte(mem, a + 7, 1, w / 0x100_0000_0000_0000);
    NoByte(mem, a + 8);
  }

  lemma LowestByte(mem: Memory, a: nat, n: nat, w: nat)
    requires n > 0 && Mapped(mem, a, n)
    ensures LittleEndian(mem, a, n) == w <==> mem[a] == w % 0x100 && LittleEndian(mem, a + 1, n - 1) == w / 0x100
  {
  }

  lemma NoByte(mem: Memory, a: nat)
    ensures LittleEndian(mem, a, 0) == 0
  {
  }
}
