/**
 The hash table of a directory, ff_dir.c: one bit for each of the 65536 hashes.
 */
module HashBits {
  /** FF_HASH_TABLE_ENTRY_COUNT for CRC16 hashes */
  const ENTRY_COUNT: nat := 2048

  type Hash = h: nat | h < 0x1_0000

  type Bits = b: seq<bv32> | |b| == 2048 witness seq(2048, _ => 0)

  const NO_BITS: Bits := seq(2048, _ => 0)

  /** The word of a hash, and its bit in that word */
  function Word(h: Hash): (i: nat)
    ensures i < ENTRY_COUNT
  {
    h / 32 % ENTRY_COUNT
  }

  function Mask(bit: nat): bv32
    requires bit < 32
  {
    (0x8000_0000 as bv32) >> bit
  }

  predicate Meets(word: bv32, mask: bv32) {
    word & mask != 0
  }

  function Joined(word: bv32, mask: bv32): bv32 {
    word | mask
  }

  predicate Has(word: bv32, bit: nat)
    requires bit < 32
  {
    Meets(word, Mask(bit))
  }

  function With(word: bv32, bit: nat): bv32
    requires bit < 32
  {
    Joined(word, Mask(bit))
  }

  /** FF_isHashSet */
  predicate IsHashSet(bits: Bits, h: Hash) {
    Has(bits[Word(h)], h % 32)
  }

  /** FF_SetHash */
  function SetHash(bits: Bits, h: Hash): Bits {
    bits[Word(h) := With(bits[Word(h)], h % 32)]
  }

  lemma MasksApart(b: nat, c: nat)
    requires b < 32 && c < 32
    ensures b != c ==> Mask(b) & Mask(c) == 0
    ensures Mask(b) != 0
  {
  }

  lemma JoinedMeets(w: bv32, a: bv32)
    ensures a != 0 ==> Meets(Joined(w, a), a)
  {
  }

  lemma JoinedElsewhere(w: bv32, a: bv32, b: bv32)
    requires a & b == 0
    ensures Meets(Joined(w, a), b) ==> Meets(w, b)
  {
  }

  lemma JoinedKeeps(w: bv32, a: bv32, b: bv32)
    ensures Meets(w, b) ==> Meets(Joined(w, a), b)
  {
  }

  lemma HasWith(word: bv32, bit: nat, other: nat)
    requires bit < 32 && other < 32
    ensures Has(With(word, bit), bit)
    ensures bit != other ==> (Has(With(word, bit), other) <==> Has(word, other))
  {
    hide Mask, Meets, Joined;
    MasksApart(bit, other);
    JoinedMeets(word, Mask(bit));
    JoinedKeeps(word, Mask(bit), Mask(other));
    if bit != other {
      JoinedElsewhere(word, Mask(bit), Mask(other));
    }
  }

  /** Different hashes have different bits. */
  lemma PlacesApart(g: Hash, h: Hash)
    ensures Word(g) == Word(h) && g % 32 == h % 32 ==> g == h
  {
  }

  /** Setting a hash sets that hash and no other. */
  lemma SetExactly(bits: Bits, h: Hash, g: Hash)
    ensures IsHashSet(SetHash(bits, h), g) <==> g == h || IsHashSet(bits, g)
  {
    hide Has, With, Word;
    PlacesApart(g, h);
    HasWith(bits[Word(h)], h % 32, g % 32);
  }

  lemma NoneSet(h: Hash)
    ensures !IsHashSet(NO_BITS, h)
  {
    hide Mask, Meets;
    ZeroMeets(Mask(h % 32));
  }

  lemma ZeroMeets(m: bv32)
    ensures !Meets(0, m)
  {
  }
}
