/**
 The physical memory of the emulator, nemu/src/memory/memory.c: bytes, read and written in
 little-endian order.
 */
module FlatMemory {
  import opened Arithmetic

  /** 128 MB, nemu/include/memory/memory.h. */
  const MEM_SIZE: nat := 0x800_0000

  /** The number a sequence of bytes stands for, lowest byte first. */
  function LittleEndian(bytes: seq<byte>): nat {
    if bytes == [] then 0 else bytes[0] + 0x100 * LittleEndian(bytes[1..])
  }

  /** The lowest n bytes of x, lowest first. */
  function BytesOf(x: nat, n: nat): (bytes: seq<byte>)
    ensures |bytes| == n
  {
    if n == 0 then [] else [x % 0x100] + BytesOf(x / 0x100, n - 1)
  }

  /** Reading back what was written gives the lowest bytes of it. */
  lemma {:induction false} BytesRoundTrip(x: nat, n: nat)
    ensures LittleEndian(BytesOf(x, n)) == x % Pow2(8 * n)
  {
    if n == 0 {
      PowZero();
    } else {
      var bytes := BytesOf(x, n);
      assert bytes[1..] == BytesOf(x / 0x100, n - 1);
      BytesRoundTrip(x / 0x100, n - 1);
      DivDiv(x, 0x100, Pow2(8 * (n - 1)));
      Pow2Add(8, 8 * (n - 1));
      PowEight();
    }
  }

  /** Bytes in two parts: the number is the low part plus the shifted high part. */
  lemma {:induction false} LittleEndianSplit(low: seq<byte>, high: seq<byte>)
    ensures LittleEndian(low + high) == LittleEndian(low) + Pow2(8 * |low|) * LittleEndian(high)
  {
    if low == [] {
      assert low + high == high;
      PowZero();
    } else {
      assert (low + high)[1..] == low[1..] + high;
      LittleEndianSplit(low[1..], high);
      assert LittleEndian(low + high) == low[0] + 0x100 * LittleEndian((low + high)[1..]);
      assert LittleEndian(low) == low[0] + 0x100 * LittleEndian(low[1..]);
      hide Pow2, LittleEndian;
      Pow2Add(8, 8 * (|low| - 1));
      PowEight();
      Regroup256(Pow2(8 * (|low| - 1)), LittleEndian(high));
    }
  }

  lemma Regroup256(p: nat, h: nat)
    ensures 0x100 * (p * h) == 0x100 * p * h
  {
  }

  lemma {:induction false} LittleEndianBound(bytes: seq<byte>)
    ensures LittleEndian(bytes) < Pow2(8 * |bytes|)
  {
    if bytes == [] {
      PowZero();
    } else {
      LittleEndianBound(bytes[1..]);
      Pow2Add(8, 8 * (|bytes| - 1));
      PowEight();
    }
  }

  lemma WordBound(bytes: seq<byte>)
    requires |bytes| <= 4
    ensures LittleEndian(bytes) < WORD
  {
    LittleEndianBound(bytes);
    Pow2Monotone(8 * |bytes|, 32);
    PowEight();
    PowDouble(8);
    PowDouble(16);
  }

  /** What memory returns for len bytes at paddr. */
  function Loaded(mem: seq<byte>, paddr: nat, len: nat): nat
    requires paddr + len <= |mem|
  {
    LittleEndian(mem[paddr..paddr + len])
  }

  /** Memory after the lowest len bytes of data were written at paddr. */
  function Stored(mem: seq<byte>, paddr: nat, len: nat, data: nat): (mem': seq<byte>)
    requires paddr + len <= |mem|
    ensures |mem'| == |mem|
  {
    mem[..paddr] + BytesOf(data, len) + mem[paddr + len..]
  }

  /** A load of the stored bytes returns them; other bytes are as before. */
  /** The order of the bytes: the lowest one lies at the lowest address. */
  lemma LowestByteFirst(mem: seq<byte>, p: nat, data: uint32)
    requires p + 4 <= |mem|
    ensures Loaded(mem, p, 4) ==
            mem[p] as nat + 0x100 * (mem[p + 1] as nat) + 0x1_0000 * (mem[p + 2] as nat) + 0x100_0000 * (mem[p + 3] as nat)
    ensures var mem' := Stored(mem, p, 4, data);
            && mem'[p] == data % 0x100 && mem'[p + 1] == data / 0x100 % 0x100
            && mem'[p + 2] == data / 0x1_0000 % 0x100 && mem'[p + 3] == data / 0x100_0000
  {
    FourBytes(mem[p..p + 4]);
    FourBytesOf(data);
  }

  lemma FourBytes(b: seq<byte>)
    requires |b| == 4
    ensures LittleEndian(b) == b[0] as nat + 0x100 * (b[1] as nat) + 0x1_0000 * (b[2] as nat) + 0x100_0000 * (b[3] as nat)
  {
    assert LittleEndian(b) == b[0] + 0x100 * LittleEndian(b[1..]);
    assert LittleEndian(b[1..]) == b[1] + 0x100 * LittleEndian(b[2..]) by {
      assert b[1..][1..] == b[2..];
    }
    assert LittleEndian(b[2..]) == b[2] + 0x100 * LittleEndian(b[3..]) by {
      assert b[2..][1..] == b[3..];
    }
    assert LittleEndian(b[3..]) == b[3] by {
      assert b[3..][1..] == [];
    }
  }

  lemma FourBytesOf(x: uint32)
    ensures BytesOf(x, 4) == [x % 0x100, x / 0x100 % 0x100, x / 0x1_0000 % 0x100, x / 0x100_0000]
  {
    assert BytesOf(x, 4) == [x % 0x100] + BytesOf(x / 0x100, 3);
    assert BytesOf(x / 0x100, 3) == [x / 0x100 % 0x100] + BytesOf(x / 0x1_0000, 2) by {
      assert x / 0x100 / 0x100 == x / 0x1_0000;
    }
    assert BytesOf(x / 0x1_0000, 2) == [x / 0x1_0000 % 0x100] + BytesOf(x / 0x100_0000, 1) by {
      assert x / 0x1_0000 / 0x100 == x / 0x100_0000;
    }
    assert BytesOf(x / 0x100_0000, 1) == [x / 0x100_0000 % 0x100] + BytesOf(x / 0x100_0000 / 0x100, 0);
  }

  lemma StoredMeaning(mem: seq<byte>, paddr: nat, len: nat, data: nat)
    requires paddr + len <= |mem|
    ensures Loaded(Stored(mem, paddr, len, data), paddr, len) == data % Pow2(8 * len)
    ensures forall k :: 0 <= k < |mem| && !(paddr <= k < paddr + len) ==> Stored(mem, paddr, len, data)[k] == mem[k]
  {
    assert Stored(mem, paddr, len, data)[paddr..paddr + len] == BytesOf(data, len);
    BytesRoundTrip(data, len);
  }

  method HwMemRead(hwMem: array<byte>, paddr: nat, len: nat) returns (ret: uint32)
    requires paddr + len <= hwMem.Length && len <= 4
    ensures ret == Loaded(hwMem[..], paddr, len)
  {
    WordBound(hwMem[paddr..paddr + len]);
    assert hwMem[..][paddr..paddr + len] == hwMem[paddr..paddr + len];
    ret := LittleEndian(hwMem[paddr..paddr + len]);
  }

  method HwMemWrite(hwMem: array<byte>, paddr: nat, len: nat, data: uint32)
    requires paddr + len <= hwMem.Length && len <= 4
    modifies hwMem
    ensures hwMem[..] == Stored(old(hwMem[..]), paddr, len, data)
  {
    var bytes := BytesOf(data, len);
    forall i | 0 <= i < len {
      hwMem[paddr + i] := bytes[i];
    }
  }
}
