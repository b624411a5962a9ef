/** The hash of a key: FNV-1a with 32 bits. */
module Fnv {
  const OFFSET_BASIS: nat := 2166136261
  const PRIME: nat := 16777619
  const WORD: nat := 0x1_0000_0000

  function XorByte(a: nat, b: nat): nat
    requires a < 256 && b < 256
  {
    ((a as bv8) ^ (b as bv8)) as nat
  }

  /** One step of the hash: the byte goes into the low 8 bits, and the product is cut to 32 bits. */
  function Mix(h: nat, c: char): nat {
    (h - h % 256 + XorByte(h % 256, c as int % 256)) * PRIME % WORD
  }

  function HashFrom(h: nat, key: string): nat
    decreases |key|
  {
    if key == [] then h else HashFrom(Mix(h, key[0]), key[1..])
  }

  function Hash(key: string): nat { HashFrom(OFFSET_BASIS, key) }

  lemma HashOfOne(c: char)
    ensures Hash([c]) == Mix(OFFSET_BASIS, c)
  {
    hide Mix;
    assert [c][1..] == [];
    assert HashFrom(Mix(OFFSET_BASIS, c), []) == Mix(OFFSET_BASIS, c);
  }

  lemma HashOfTwo(c: char, d: char)
    ensures Hash([c, d]) == Mix(Mix(OFFSET_BASIS, c), d)
  {
    hide Mix;
    assert [c, d][1..] == [d] && [d][1..] == [];
    var h := Mix(OFFSET_BASIS, c);
    assert HashFrom(Mix(h, d), []) == Mix(h, d);
    assert HashFrom(h, [d]) == Mix(h, d);
  }

  /** The published values for the empty text and for one letter. */
  lemma KnownHashes()
    ensures Hash("") == 0x811C_9DC5 && Hash("a") == 0xE40C_292C
  {
    HashOfOne('a');
    FirstMix();
  }

  lemma FirstMix()
    ensures Mix(OFFSET_BASIS, 'a') == 0xE40C_292C
  {
    LowByte();
    hide XorByte;
  }

  lemma LowByte()
    ensures XorByte(0xC5, 0x61) == 0xA4
  {}
}
