/**
  FNV-1a with 32-bit state (Go's `hash/fnv` `New32a`): start from the offset
  basis, and for each byte xor it in and multiply by the FNV prime, modulo
  2^32. Each `char` of a string stands for one byte.
*/
module Fnv {

  const OffsetBasis: bv32 := 0x811c9dc5
  const Prime: bv32 := 0x0100_0193

  /** The byte a character stands for. */
  function ByteOf(c: char): bv32
  {
    (c as bv32) & 0xff
  }

  /** One byte: xor it in, then multiply by the prime. */
  function Step(h: bv32, c: char): bv32
  {
    (h ^ ByteOf(c)) * Prime
  }

  /** The state after writing `data` to a hasher whose state was `h`. */
  function Absorb(h: bv32, data: string): bv32
  {
    if data == [] then h
    else Step(Absorb(h, data[..|data| - 1]), data[|data| - 1])
  }

  /** `Sum32` of a fresh hasher after writing `data`. */
  function Sum32(data: string): bv32
  {
    Absorb(OffsetBasis, data)
  }

  /**
    Writing `a` and then `b` leaves the hasher where writing `a + b` does, so
    a sequence of `Write` calls hashes the concatenation of what was written.
  */
  lemma {:induction false} AbsorbConcat(h: bv32, a: string, b: string)
    ensures Absorb(h, a + b) == Absorb(Absorb(h, a), b)
    decreases |b|
  {
    if b == [] {
      assert a + b == a;
    } else {
      var b' := b[..|b| - 1];
      assert (a + b)[..|a + b| - 1] == a + b';
      assert (a + b)[|a + b| - 1] == b[|b| - 1];
      AbsorbConcat(h, a, b');
    }
  }

  /** Published FNV-1a 32 test vectors. */
  lemma Vectors()
    ensures Sum32("") == 0x811c9dc5
    ensures Sum32("a") == 0xe40c292c
    ensures Sum32("foobar") == 0xbf9cf968
  {
    assert Sum32("a") == 0xe40c292c by {
      assert "a"[..0] == "";
      assert ByteOf('a') == 0x61;
      assert (0x811c9dc5 ^ 0x61) * Prime == 0xe40c292c;
    }
    FoobarVector();
  }

  /** The states after each prefix of "foobar". */
  lemma FooVector()
    ensures Sum32("foo") == 0xa9f37ed7
  {
    assert Sum32("f") == 0xe30c2799 by {
      assert "f"[..0] == "";
      assert ByteOf('f') == 0x66;
      assert (0x811c9dc5 ^ 0x66) * Prime == 0xe30c2799;
    }
    assert Sum32("fo") == 0x6222e842 by {
      assert "fo"[..1] == "f";
      assert ByteOf('o') == 0x6f;
      assert (0xe30c2799 ^ 0x6f) * Prime == 0x6222e842;
    }
    assert Sum32("foo") == 0xa9f37ed7 by {
      assert "foo"[..2] == "fo";
      assert ByteOf('o') == 0x6f;
      assert (0x6222e842 ^ 0x6f) * Prime == 0xa9f37ed7;
    }
  }

  lemma FoobVector()
    ensures Sum32("foob") == 0x3f5076ef
  {
    FooVector();
    assert Sum32("foob") == 0x3f5076ef by {
      assert "foob"[..3] == "foo";
      assert ByteOf('b') == 0x62;
      assert (0xa9f37ed7 ^ 0x62) * Prime == 0x3f5076ef;
    }
  }

  lemma FoobaVector()
    ensures Sum32("fooba") == 0x39aaa18a
  {
    FoobVector();
    assert Sum32("fooba") == 0x39aaa18a by {
      assert "fooba"[..4] == "foob";
      assert ByteOf('a') == 0x61;
      assert (0x3f5076ef ^ 0x61) * Prime == 0x39aaa18a;
    }
  }

  lemma FoobarVector()
    ensures Sum32("foobar") == 0xbf9cf968
  {
    FoobaVector();
    assert Sum32("foobar") == 0xbf9cf968 by {
      assert "foobar"[..5] == "fooba";
      assert ByteOf('r') == 0x72;
      assert (0x39aaa18a ^ 0x72) * Prime == 0xbf9cf968;
    }
  }
}
