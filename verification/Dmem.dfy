/**
  The signal processor's 4 KiB data memory: byte-addressed, every address taken modulo
  its size.  Bytes are in the processor's own order; the host's byte swizzle is not modelled.
 */
module Dmem {
  import opened Bytes

  const SIZE := 0x1000

  type Memory = m: seq<byte> | |m| == SIZE witness seq(SIZE, _ => 0)

  // ----- Addresses -----

  /** The address `a` selects: `a` reduced into the memory (WrapIsMod). */
  function Wrap(a: int): (r: nat)
    ensures r < SIZE
    ensures 0 <= a < SIZE ==> r == a
    decreases if a < 0 then SIZE - a else a
  {
    if a < 0 then Wrap(a + SIZE) else if a >= SIZE then Wrap(a - SIZE) else a
  }

  lemma {:induction false} WrapIsMod(a: int)
    ensures Wrap(a) == a % 0x1000
    decreases if a < 0 then SIZE - a else a
  {
    if a < 0 {
      WrapIsMod(a + SIZE);
    } else if a >= SIZE {
      WrapIsMod(a - SIZE);
    }
  }

  /** How many times `a` goes round the memory. */
  lemma {:induction false} Turns(a: int) returns (q: int)
    ensures a == Wrap(a) + SIZE * q
    decreases if a < 0 then SIZE - a else a
  {
    if a < 0 {
      q := Turns(a + SIZE);
      q := q - 1;
    } else if a >= SIZE {
      q := Turns(a - SIZE);
      q := q + 1;
    } else {
      q := 0;
    }
  }

  lemma WrapUnique(a: int, r: nat, q: int)
    requires r < SIZE && a == r + SIZE * q
    ensures Wrap(a) == r
  {
    var p := Turns(a);
    assert SIZE * (p - q) == r - Wrap(a);
  }

  lemma WrapShift(a: int, q: int)
    ensures Wrap(a + SIZE * q) == Wrap(a)
  {
    var p := Turns(a);
    WrapUnique(a + SIZE * q, Wrap(a), p + q);
  }

  /** Adding to a wrapped address. */
  lemma WrapSum(a: int, b: int)
    ensures Wrap(Wrap(a) + b) == Wrap(a + b)
  {
    var q := Turns(a);
    var p := Turns(Wrap(a) + b);
    WrapUnique(a + b, Wrap(Wrap(a) + b), q + p);
  }

  /** Stepping back by less than a turn. */
  lemma WrapBack(x: int, d: int)
    requires 0 <= d <= SIZE
    ensures Wrap(x - d) == if Wrap(x) >= d then Wrap(x) - d else Wrap(x) - d + SIZE
  {
    var q := Turns(x);
    if Wrap(x) >= d {
      WrapUnique(x - d, Wrap(x) - d, q);
    } else {
      WrapUnique(x - d, Wrap(x) - d + SIZE, q - 1);
    }
  }

  /** The offset of address `k` above `a` leads back to `k`. */
  lemma WrapOffset(a: int, k: nat)
    requires k < SIZE
    ensures Wrap(a + Wrap(k - a)) == k
  {
    WrapSum(k - a, a);
  }

  lemma WrapZero(k: nat, a: int)
    requires k < SIZE
    ensures Wrap(k - a) == 0 <==> k == Wrap(a)
  {
    WrapSum(k - a, a);
    var q := Turns(a);
    if k == Wrap(a) {
      WrapUnique(k - a, 0, -q);
    }
  }

  lemma MultipleOf16(k: int)
    ensures 16 * k % 16 == 0
  {
  }

  /** Addresses less than a turn apart are told apart. */
  lemma WrapSame(a: int, b: int)
    requires Wrap(a) == Wrap(b)
    ensures -SIZE < a - b < SIZE ==> a == b
    ensures (a - b) % 16 == 0
  {
    hide Wrap;
    var p := Turns(a);
    var q := Turns(b);
    var t := p - q;
    assert a - b == SIZE * t;
    MultipleOf16(0x100 * t);
    assert a - b == 16 * (0x100 * t);
  }

  // ----- Loads and stores -----

  /** A memory in which one address is distinguished. */
  function Marked(a: nat): Memory {
    seq(SIZE, k => if k == a then 1 else 0)
  }

  function Load(m: Memory, a: int, n: nat): (v: seq<byte>)
    ensures |v| == n
  {
    seq(n, i requires 0 <= i < n => m[Wrap(a + i)])
  }

  function StoredAt(m: Memory, a: int, v: seq<byte>, k: nat): byte
    requires k < SIZE
  {
    if Wrap(k - a) < |v| then v[Wrap(k - a)] else m[k]
  }

  /** `m` with `v` written from address `a` up. */
  function Stored(m: Memory, a: int, v: seq<byte>): Memory {
    seq(SIZE, k requires 0 <= k < SIZE => StoredAt(m, a, v, k))
  }

  lemma StoredNothing(m: Memory, a: int)
    ensures Stored(m, a, []) == m
  {
  }

  lemma StoredTwice(m: Memory, a: int, v: seq<byte>, w: seq<byte>)
    requires |v| + |w| <= SIZE
    ensures Stored(Stored(m, a, v), a + |v|, w) == Stored(m, a, v + w)
  {
    forall k | 0 <= k < SIZE
      ensures Stored(Stored(m, a, v), a + |v|, w)[k] == Stored(m, a, v + w)[k]
    {
      WrapBack(k - a, |v|);
      assert k - (a + |v|) == k - a - |v|;
    }
  }

  lemma StoredByte(m: Memory, a: int, b: byte)
    ensures Stored(m, a, [b]) == m[Wrap(a) := b]
  {
    forall k | 0 <= k < SIZE ensures Stored(m, a, [b])[k] == m[Wrap(a) := b][k] {
      WrapZero(k, a);
    }
  }

  /** An in-place store of a short vector. */
  method Store(dmem: array<byte>, a: int, v: seq<byte>)
    requires dmem.Length == SIZE && |v| <= SIZE
    modifies dmem
    ensures dmem[..] == Stored(old(dmem[..]), a, v)
  {
    ghost var before := dmem[..];
    StoredNothing(before, a);
    for i := 0 to |v|
      invariant dmem[..] == Stored(before, a, v[..i])
    {
      StoredTwice(before, a, v[..i], [v[i]]);
      assert v[..i] + [v[i]] == v[..i + 1];
      StoredByte(dmem[..], a + i, v[i]);
      dmem[Wrap(a + i)] := v[i];
    }
    assert v[..|v|] == v;
  }
}
