/** The Internet checksum of RFC 1071 over byte strings: big-endian 16-bit
    words, summed, with the carries folded back into the low 16 bits and the
    result complemented. The ICMP codec applies it to its header and payload. */
module Checksum {

  type byte = x: int | 0 <= x < 0x100
  type u16 = x: int | 0 <= x < 0x10000

  /** 2^16 - 1: ones' complement arithmetic on 16 bits is arithmetic modulo this. */
  const OnesModulus: int := 0xFFFF

  /** The big-endian 16-bit word whose high byte is `hi` and low byte `lo`
      (`(b1 << 8) + b2`). */
  function Word(hi: byte, lo: byte): u16
  {
    hi * 0x100 + lo
  }

  /** A 16-bit value as two big-endian bytes (struct format `H` with `>`). */
  function Be16(x: u16): seq<byte>
  {
    [x / 0x100, x % 0x100]
  }

  /** The two big-endian bytes of a value make that value again. */
  lemma WordOfBe16(x: u16)
    ensures |Be16(x)| == 2 && Word(Be16(x)[0], Be16(x)[1]) == x
  {
  }

  /** A word split into big-endian bytes gives back its two bytes. */
  lemma Be16OfWord(hi: byte, lo: byte)
    ensures Be16(Word(hi, lo)) == [hi, lo]
  {
    var w := hi * 0x100 + lo;
    assert w / 0x100 == hi && w % 0x100 == lo;
  }

  /** The buffer that is summed: one zero byte is appended to an odd-length
      buffer, an even-length one is left as it is. */
  function Padded(data: seq<byte>): (r: seq<byte>)
    ensures |r| % 2 == 0
    ensures |data| <= |r| <= |data| + 1
    ensures r[..|data|] == data
    ensures forall i | |data| <= i < |r| :: r[i] == 0
  {
    if |data| % 2 == 1 then data + [0] else data
  }

  /** The plain (carry-keeping) sum of the big-endian words of an
      even-length buffer. */
  function WordSum(data: seq<byte>): nat
    requires |data| % 2 == 0
    decreases |data|
  {
    if data == [] then 0 else Word(data[0], data[1]) + WordSum(data[2..])
  }

  lemma {:induction false} WordSumAppend(a: seq<byte>, b: seq<byte>)
    requires |a| % 2 == 0 && |b| % 2 == 0
    ensures WordSum(a + b) == WordSum(a) + WordSum(b)
    decreases |a|
  {
    if a != [] {
      assert (a + b)[2..] == a[2..] + b;
      WordSumAppend(a[2..], b);
    } else {
      assert a + b == b;
    }
  }

  /** Changing the byte at index `i` moves the word sum by the change of that
      byte, weighted 256 when it is the high byte of its word. */
  lemma {:induction false} WordSumUpdate(data: seq<byte>, i: nat, v: byte)
    requires |data| % 2 == 0 && i < |data|
    ensures WordSum(data[i := v]) == WordSum(data) + (v - data[i]) * (if i % 2 == 0 then 0x100 else 1)
    decreases |data|
  {
    var d' := data[i := v];
    if i < 2 {
      assert d'[2..] == data[2..];
    } else {
      assert d'[2..] == data[2..][i - 2 := v];
      WordSumUpdate(data[2..], i - 2, v);
    }
  }

  /** Folds the carries above bit 15 back into the low 16 bits until the
      value fits in 16 bits; the value modulo 0xFFFF is kept, and so is
      being zero or not. */
  function Fold(s: nat): (r: nat)
    ensures r < 0x10000
    ensures r % OnesModulus == s % OnesModulus
    ensures r == 0 <==> s == 0
    decreases s
  {
    if s < 0x10000 then s
    else
      FoldStepKeepsResidue(s);
      Fold(s % 0x10000 + s / 0x10000)
  }

  lemma FoldStepKeepsResidue(s: nat)
    requires s >= 0x10000
    ensures 0 < s % 0x10000 + s / 0x10000 < s
    ensures (s % 0x10000 + s / 0x10000) % OnesModulus == s % OnesModulus
  {
    var q, r := s / 0x10000, s % 0x10000;
    assert s == OnesModulus * q + (q + r);
    AddMultipleKeepsResidue(q + r, q);
  }

  lemma AddMultipleKeepsResidue(x: int, q: int)
    ensures (OnesModulus * q + x) % OnesModulus == x % OnesModulus
  {
  }

  /** Bitwise complement within 16 bits (`~x & 0xffff`, with Python's
      two's-complement `~` and a mask that reduces modulo 2^16). */
  function Complement(x: u16): (r: u16)
    ensures r + x == 0xFFFF
  {
    (-(x as int) - 1) % 0x10000
  }

  /** The Internet checksum of a byte string. */
  function InternetChecksum(data: seq<byte>): u16
  {
    Complement(Fold(WordSum(Padded(data))))
  }

  /** The receiver's check of RFC 1071: the folded sum over the data, with
      its checksum field in place, is all ones. */
  predicate Verifies(data: seq<byte>)
  {
    Fold(WordSum(Padded(data))) == 0xFFFF
  }

  /** Adding the complemented folded sum `Complement(Fold(t))` to a sum `t`
      gives a sum that folds to all ones; and the only other 16-bit value
      that does so is 0xFFFF when that complement is 0. */
  lemma ComplementCompletesSum(t: nat, c: u16)
    ensures c == Complement(Fold(t)) ==> Fold(t + c) == 0xFFFF
    ensures Fold(t + c) == 0xFFFF ==> c == Complement(Fold(t)) || (Complement(Fold(t)) == 0 && c == 0xFFFF)
  {
    var f: int := Fold(t);
    var g: int := Fold(t + c);
    CongruentSum(f, t, c);
    assert g % OnesModulus == (f + c) % OnesModulus;
    if c == Complement(f) {
      assert f + c == 0xFFFF;
      assert g % OnesModulus == 0;
    }
  }

  /** The receiver's check catches any change to a single byte: such a
      change moves the word sum by a nonzero amount smaller than 0xFFFF in
      size, so the sum is no longer a multiple of 0xFFFF. */
  lemma ByteChangeBreaksVerification(data: seq<byte>, i: nat, v: byte)
    requires Verifies(data)
    requires i < |data| && v != data[i]
    ensures !Verifies(data[i := v])
  {
    var changed := data[i := v];
    assert Padded(changed) == Padded(data)[i := v];
    WordSumUpdate(Padded(data), i, v);
    var s, s' := WordSum(Padded(data)), WordSum(Padded(changed));
    var delta: int := (v - data[i]) * (if i % 2 == 0 then 0x100 else 1);
    assert s' == s + delta;
    assert s == OnesModulus * (s / OnesModulus);
    AddMultipleKeepsResidue(delta, s / OnesModulus);
    assert -0xFFFF < delta < 0xFFFF && delta != 0;
    assert s' % OnesModulus != 0;
  }

  /** Ones' complement addition of two 16-bit values: a carry out of bit 15
      is added back in at bit 0 (the end-around carry). */
  function OnesAdd(a: u16, b: u16): u16
  {
    if a + b < 0x10000 then a + b else a + b - 0xFFFF
  }

  /** The ones' complement sum of the words of an even-length buffer, one
      end-around-carry addition per word; an independent definition of what
      `Fold(WordSum(data))` computes. */
  function OnesSum(data: seq<byte>): u16
    requires |data| % 2 == 0
    decreases |data|
  {
    if data == [] then 0 else OnesAdd(Word(data[0], data[1]), OnesSum(data[2..]))
  }

  lemma {:induction false} OnesSumResidue(data: seq<byte>)
    requires |data| % 2 == 0
    ensures OnesSum(data) % OnesModulus == WordSum(data) % OnesModulus
    ensures OnesSum(data) == 0 <==> WordSum(data) == 0
    decreases |data|
  {
    if data != [] {
      OnesSumResidue(data[2..]);
      var w: int, a: int, s: int := Word(data[0], data[1]), OnesSum(data[2..]), WordSum(data[2..]);
      CongruentSum(a, s, w);
      if a + w >= 0x10000 {
        AddMultipleKeepsResidue(a + w, -1);
      }
    }
  }

  lemma CongruentSum(a: int, b: int, c: int)
    requires a % OnesModulus == b % OnesModulus
    ensures (a + c) % OnesModulus == (b + c) % OnesModulus
  {
    assert a == OnesModulus * (a / OnesModulus) + a % OnesModulus;
    assert b == OnesModulus * (b / OnesModulus) + b % OnesModulus;
    AddMultipleKeepsResidue(a % OnesModulus + c, a / OnesModulus);
    AddMultipleKeepsResidue(b % OnesModulus + c, b / OnesModulus);
  }

  /** A value in 0..0xFFFF is fixed by its residue modulo 0xFFFF and by
      whether it is zero (0 and 0xFFFF are the two ones' complement zeros). */
  lemma SameOnesValue(x: int, y: int)
    requires 0 <= x < 0x10000 && 0 <= y < 0x10000
    requires x % OnesModulus == y % OnesModulus
    requires x == 0 <==> y == 0
    ensures x == y
  {
  }

  /** Folding the plain word sum gives the ones' complement sum. */
  lemma FoldIsOnesSum(data: seq<byte>)
    requires |data| % 2 == 0
    ensures Fold(WordSum(data)) == OnesSum(data)
  {
    OnesSumResidue(data);
    SameOnesValue(Fold(WordSum(data)), OnesSum(data));
  }
}
