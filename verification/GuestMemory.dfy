/**
 Guest memory as device models reach it by DMA: bytes at the mapped addresses. A transfer that touches an
 unmapped address fails and changes nothing.
 */
module GuestMemory {
  import opened Base

  type Memory = map<nat, u8>

  predicate Mapped(m: Memory, address: nat, length: nat) {
    forall a :: address <= a < address + length ==> a in m
  }

  function Load(m: Memory, address: nat, length: nat): (b: seq<u8>)
    requires Mapped(m, address, length)
    ensures |b| == length && forall i :: 0 <= i < length ==> b[i] == m[address + i]
  {
    seq(length, i requires 0 <= i < length => m[address + i])
  }

  function Store(m: Memory, address: nat, data: seq<u8>): (m': Memory)
    ensures m'.Keys == m.Keys
    ensures forall a :: a in m && !(address <= a < address + |data|) ==> m'[a] == m[a]
    ensures forall a :: a in m && address <= a < address + |data| ==> m'[a] == data[a - address]
  {
    map a | a in m :: if address <= a < address + |data| then data[a - address] else m[a]
  }

  function Read(m: Memory, address: nat, length: nat): Option<seq<u8>> {
    if Mapped(m, address, length) then Some(Load(m, address, length)) else None
  }

  lemma LoadStored(m: Memory, address: nat, data: seq<u8>)
    requires Mapped(m, address, |data|)
    ensures Mapped(Store(m, address, data), address, |data|)
    ensures Load(Store(m, address, data), address, |data|) == data
  {
    assert forall i :: 0 <= i < |data| ==> Load(Store(m, address, data), address, |data|)[i] == data[i];
  }

  /** A store elsewhere is not seen. */
  lemma LoadDisjoint(m: Memory, address: nat, data: seq<u8>, other: nat, length: nat)
    requires Mapped(m, other, length)
    requires other + length <= address || address + |data| <= other
    ensures Mapped(Store(m, address, data), other, length)
    ensures Load(Store(m, address, data), other, length) == Load(m, other, length)
  {
  }

  /** Little-endian value of a byte string. */
  function Le(b: seq<u8>): nat {
    if b == [] then 0 else b[0] + 256 * Le(b[1..])
  }

  function Bytes(x: nat, n: nat): (b: seq<u8>)
    ensures |b| == n
  {
    if n == 0 then [] else [x % 256] + Bytes(x / 256, n - 1)
  }

  function Power256(n: nat): nat {
    if n == 0 then 1 else 256 * Power256(n - 1)
  }

  lemma {:induction false} LeBytes(x: nat, n: nat)
    requires x < Power256(n)
    ensures Le(Bytes(x, n)) == x
  {
    if n > 0 {
      assert Bytes(x, n)[1..] == Bytes(x / 256, n - 1);
      LeBytes(x / 256, n - 1);
    }
  }

  lemma {:induction false} LeBound(b: seq<u8>)
    ensures Le(b) < Power256(|b|)
  {
    if b != [] {
      LeBound(b[1..]);
    }
  }

  /** Bytes are determined by their value and their number. */
  lemma {:induction false} BytesLe(b: seq<u8>)
    ensures Bytes(Le(b), |b|) == b
  {
    if b != [] {
      BytesLe(b[1..]);
      assert Le(b) % 256 == b[0] && Le(b) / 256 == Le(b[1..]);
      assert b == [b[0]] + b[1..];
    }
  }

  /** A byte string holds a number exactly when it is the number's encoding. */
  lemma LeExact(b: seq<u8>, x: nat)
    ensures Le(b) == x <==> x < Power256(|b|) && b == Bytes(x, |b|)
  {
    LeBound(b);
    BytesLe(b);
    if x < Power256(|b|) {
      LeBytes(x, |b|);
    }
  }

  lemma PowersOf256()
    ensures Power256(2) == U16 && Power256(4) == U32 && Power256(8) == U64
  {
    assert Power256(1) == 256 && Power256(3) == 256 * Power256(2);
    assert Power256(6) == 256 * (256 * Power256(4)) && Power256(8) == 256 * (256 * Power256(6));
  }
}
