/** The DJB2 string hash of hash.c (`hash_compute`).
    `hash_t` is `unsigned long`; this model fixes it at 64 bits (an LP64
    platform), so every addition and shift wraps modulo 2^64. */
module Djb2 {

  /** `(unsigned char) c` */
  type Byte = b: int | 0 <= b < 256

  /** The content of a NUL-terminated C string: the bytes before the
      terminator, none of which is NUL. Two keys are equal exactly when
      `strcmp` on them returns 0. */
  type CString = s: seq<Byte> | forall i | 0 <= i < |s| :: s[i] != 0

  const HASH_MOD: int := 0x1_0000_0000_0000_0000

  /** A value of `hash_t`. */
  type Hash = h: int | 0 <= h < HASH_MOD

  const SEED: Hash := 5381

  /** One round of the recurrence: `h * 33 + c`, wrapping. */
  function Step(h: Hash, c: Byte): Hash {
    (h * 33 + c) % HASH_MOD
  }

  /** Folds Step over the bytes of `s`, first byte first, from `h`. */
  function Fold(h: Hash, s: seq<Byte>): Hash
    decreases |s|
  {
    if s == [] then h else Fold(Step(h, s[0]), s[1..])
  }

  /** The digest of a key: the fold from the seed 5381. */
  function Hash33(s: seq<Byte>): Hash {
    Fold(SEED, s)
  }

  /** Appending one byte is one more round of the recurrence. */
  lemma {:induction false} FoldAppend(h: Hash, s: seq<Byte>, c: Byte)
    ensures Fold(h, s + [c]) == Step(Fold(h, s), c)
    decreases |s|
  {
    if s == [] {
      assert s + [c] == [c];
      assert [c][1..] == [];
    } else {
      assert (s + [c])[1..] == s[1..] + [c];
      FoldAppend(Step(h, s[0]), s[1..], c);
    }
  }

  /** The digest of the empty string is the seed, and appending byte `c`
      to `s` gives `(Hash33(s) * 33 + c) mod 2^64`. */
  lemma Hash33Append(s: seq<Byte>, c: Byte)
    ensures Hash33([]) == 5381
    ensures Hash33(s + [c]) == (Hash33(s) * 33 + c) % HASH_MOD
  {
    FoldAppend(SEED, s, c);
  }

  lemma ModAddLeft(a: int, b: int)
    ensures (a % HASH_MOD + b) % HASH_MOD == (a + b) % HASH_MOD
  {
    var q := a / HASH_MOD;
    assert a == q * HASH_MOD + a % HASH_MOD;
  }

  /** `((h << 5) + h) + c` on a 64-bit unsigned long is `h * 33 + c`
      modulo 2^64: the shift drops the bits above 2^64, and so do both
      additions. */
  lemma {:induction false} ShiftAddIsStep(h: Hash, c: Byte)
    ensures (((h * 32) % HASH_MOD + h) % HASH_MOD + c) % HASH_MOD == Step(h, c)
  {
    ModAddLeft(h * 32, h);
    ModAddLeft(h * 32 + h, c);
    assert h * 32 + h == h * 33;
  }

  /** `hash_compute`: walks the string byte by byte. */
  method HashCompute(key: CString) returns (h: Hash)
    ensures h == Hash33(key)
  {
    h := SEED;
    var i := 0;
    while i < |key|
      invariant 0 <= i <= |key|
      invariant h == Hash33(key[..i])
    {
      var shifted: Hash := (h * 32) % HASH_MOD;  // h << 5
      ghost var before := h;
      h := ((shifted + h) % HASH_MOD + key[i]) % HASH_MOD;
      ShiftAddIsStep(before, key[i]);
      assert key[..i + 1] == key[..i] + [key[i]];
      FoldAppend(SEED, key[..i], key[i]);
      i := i + 1;
    }
    assert key[..i] == key;
  }
}
