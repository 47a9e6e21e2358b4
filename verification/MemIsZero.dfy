/** The zero tests of memiszero.c: byte by byte, and word by word with unaligned ends.  The block is `mem`, at address
    `base`; a load is defined only inside the block, and a word load only at a multiple of the word size. */
module MemIsZero {
  import opened Common

  ghost predicate AllZero(mem: seq<byte>) {
    forall i :: 0 <= i < |mem| ==> mem[i] == 0
  }

  function Load8(mem: seq<byte>, base: nat, p: nat): byte
    requires base <= p < base + |mem|
  {
    mem[p - base]
  }

  /** The little-endian value of a byte sequence. */
  function Value(bytes: seq<byte>): nat {
    if bytes == [] then 0 else (bytes[0] as int) + 256 * Value(bytes[1..])
  }

  /** The address is a multiple of the word size, 4 or 8. */
  predicate Aligned(p: nat, w: nat) {
    (w == 4 && p % 4 == 0) || (w == 8 && p % 8 == 0)
  }

  /** An aligned load of `w` bytes. */
  function LoadWord(mem: seq<byte>, base: nat, p: nat, w: nat): nat
    requires Aligned(p, w) && base <= p && p + w <= base + |mem|
  {
    Value(mem[p - base..p - base + w])
  }

  lemma {:induction false} ValueIsZero(bytes: seq<byte>)
    ensures Value(bytes) == 0 <==> AllZero(bytes)
  {
    if bytes != [] {
      ValueIsZero(bytes[1..]);
      assert bytes == [bytes[0]] + bytes[1..];
    }
  }

  lemma AllZeroConcat(a: seq<byte>, b: seq<byte>)
    ensures AllZero(a + b) <==> AllZero(a) && AllZero(b)
  {
    if AllZero(a + b) {
      assert forall i :: 0 <= i < |a| ==> a[i] == (a + b)[i];
      assert forall i :: 0 <= i < |b| ==> b[i] == (a + b)[|a| + i];
    }
  }

  lemma OrIsZero(z: byte, b: byte)
    ensures z | b == 0 <==> z == 0 && b == 0
  {
  }

  method MemIsZeroLoop(mem: seq<byte>, base: nat) returns (r: bool)
    requires base + |mem| < TWO_TO_THE_64
    ensures r <==> AllZero(mem)
  {
    var p, t := base, base + |mem|;
    while p < t
      invariant base <= p <= t && AllZero(mem[..p - base])
    {
      if Load8(mem, base, p) != 0 {
        return false;
      }
      p := p + 1;
    }
    return true;
  }

  /** `k` statements `z |= *p++`, the rest of a fall-through switch entered `k` labels before its end. */
  method OrBytes(mem: seq<byte>, base: nat, p: nat, z: byte, k: nat) returns (p': nat, z': byte)
    requires base <= p && p + k <= base + |mem|
    ensures p' == p + k
    ensures z' == 0 <==> z == 0 && AllZero(mem[p - base..p' - base])
  {
    p', z' := p, z;
    for i := 0 to k
      invariant p' == p + i
      invariant z' == 0 <==> z == 0 && AllZero(mem[p - base..p' - base])
    {
      ghost var done, b := mem[p - base..p' - base], Load8(mem, base, p');
      OrIsZero(z', b);
      AllZeroConcat(done, [b]);
      assert mem[p - base..p' + 1 - base] == done + [b];
      z' := z' | Load8(mem, base, p');
      p' := p' + 1;
    }
  }

  lemma Split(mem: seq<byte>, k: nat)
    requires k <= |mem|
    ensures AllZero(mem) <==> AllZero(mem[..k]) && AllZero(mem[k..|mem|])
  {
    AllZeroConcat(mem[..k], mem[k..|mem|]);
    assert mem == mem[..k] + mem[k..|mem|];
  }

  lemma WordStep(mem: seq<byte>, k: nat, w: nat)
    requires k + w <= |mem| && AllZero(mem[..k])
    ensures Value(mem[k..k + w]) == 0 ==> AllZero(mem[..k + w])
    ensures Value(mem[k..k + w]) != 0 ==> !AllZero(mem)
  {
    ValueIsZero(mem[k..k + w]);
    AllZeroConcat(mem[..k], mem[k..k + w]);
    assert mem[..k + w] == mem[..k] + mem[k..k + w];
    Split(mem, k + w);
  }

  lemma NextAligned(p: nat, t: nat, w: nat)
    requires Aligned(p, w) && Aligned(t, w) && p < t
    ensures Aligned(p + w, w) && p + w <= t
  {
  }

  /** The end of the last whole word, and of the bytes before the first. */
  lemma Bounds8(p: nat, n: nat)
    requires n >= 8
    ensures var t, first := (p + n) / 8 * 8, if p % 8 == 0 then p else p + (8 - p % 8);
            Aligned(t, 8) && t + (p + n) % 8 == p + n && Aligned(first, 8) && first <= t
  {
  }

  lemma Bounds4(p: nat, n: nat)
    requires n >= 4
    ensures var t, first := (p + n) / 4 * 4, if p % 4 == 0 then p else p + (4 - p % 4);
            Aligned(t, 4) && t + (p + n) % 4 == p + n && Aligned(first, 4) && first <= t
  {
  }

  /** The word loop: stops at the first word that is not zero. */
  method WordsAreZero(mem: seq<byte>, base: nat, start: nat, t: nat, w: nat) returns (zero: bool)
    requires Aligned(start, w) && Aligned(t, w)
    requires base <= start <= t <= base + |mem| && AllZero(mem[..start - base])
    ensures zero <==> AllZero(mem[..t - base])
  {
    var p := start;
    while p < t
      invariant start <= p <= t && Aligned(p, w) && AllZero(mem[..p - base])
    {
      NextAligned(p, t, w);
      WordStep(mem[..t - base], p - base, w);
      assert mem[..t - base][..p - base] == mem[..p - base];
      assert mem[..t - base][..p + w - base] == mem[..p + w - base];
      assert mem[..t - base][p - base..p - base + w] == mem[p - base..p - base + w];
      if LoadWord(mem, base, p, w) != 0 {
        return false;
      }
      p := p + w;
    }
    return true;
  }

  /** `memiszero`: bytes up to alignment, aligned words of 8 bytes, and the bytes that remain. */
  method MemIsZero64(mem: seq<byte>, base: nat) returns (r: bool)
    requires base + |mem| < TWO_TO_THE_64
    ensures r <==> AllZero(mem)
  {
    var z: byte, p, n := 0, base, |mem|;
    if n >= 8 {
      Bounds8(p, n);
      var t := (p + n) / 8 * 8;
      n := (p + n) % 8;
      if p % 8 != 0 {
        p, z := OrBytes(mem, base, p, z, 8 - p % 8);
        if z != 0 {
          Split(mem, p - base);
          return false;
        }
      }
      var zero := WordsAreZero(mem, base, p, t, 8);
      if !zero {
        Split(mem, t - base);
        return false;
      }
      p := t;
    }
    Split(mem, p - base);
    p, z := OrBytes(mem, base, p, z, n);
    assert p - base == |mem|;
    return z == 0;
  }

  /** `memiszero_32`: bytes up to alignment, aligned words of 4 bytes, and the bytes that remain. */
  method MemIsZero32(mem: seq<byte>, base: nat) returns (r: bool)
    requires base + |mem| < TWO_TO_THE_64
    ensures r <==> AllZero(mem)
  {
    var z: byte, p, n := 0, base, |mem|;
    if n >= 4 {
      Bounds4(p, n);
      var t := (p + n) / 4 * 4;
      n := (p + n) % 4;
      if p % 4 != 0 {
        p, z := OrBytes(mem, base, p, z, 4 - p % 4);
        if z != 0 {
          Split(mem, p - base);
          return false;
        }
      }
      var zero := WordsAreZero(mem, base, p, t, 4);
      if !zero {
        Split(mem, t - base);
        return false;
      }
      p := t;
    }
    Split(mem, p - base);
    p, z := OrBytes(mem, base, p, z, n);
    assert p - base == |mem|;
    return z == 0;
  }
}
