/** A flat little-endian physical memory of bytes, read and written in 64-bit words. */
module PhysMem {
  import opened Bits

  type Byte = b: nat | b < 256

  /** The number a little-endian byte string stands for. */
  function Value(s: seq<Byte>): nat
  {
    if s == [] then 0 else (s[0] as nat) + 256 * Value(s[1..])
  }

  /** The lowest `n` bytes of `w`, least significant first. */
  function Bytes(w: nat, n: nat): (s: seq<Byte>)
    ensures |s| == n
  {
    if n == 0 then [] else [w % 256] + Bytes(w / 256, n - 1)
  }

  lemma {:induction false} ValueOfBytes(w: nat, n: nat)
    requires w < Pow2(8 * n)
    ensures Value(Bytes(w, n)) == w
  {
    if n > 0 {
      assert Pow2(8 * n) == 256 * Pow2(8 * (n - 1)) by { EightBits(n); }
      assert Bytes(w, n)[1..] == Bytes(w / 256, n - 1);
      ValueOfBytes(w / 256, n - 1);
    }
  }

  lemma {:induction false} BytesOfValue(s: seq<Byte>)
    ensures Bytes(Value(s), |s|) == s && Value(s) < Pow2(8 * |s|)
  {
    if s != [] {
      BytesOfValue(s[1..]);
      EightBits(|s|);
      assert Value(s) / 256 == Value(s[1..]);
    }
  }

  lemma EightBits(n: nat)
    requires n > 0
    ensures Pow2(8 * n) == 256 * Pow2(8 * (n - 1))
  {
    var k := 8 * n;
    assert Pow2(k) == 4 * Pow2(k - 2);
    assert Pow2(k - 2) == 4 * Pow2(k - 4);
    assert Pow2(k - 4) == 4 * Pow2(k - 6);
    assert Pow2(k - 6) == 4 * Pow2(k - 8);
  }

  /** The 64-bit little-endian word at byte address `a`. */
  function Word(m: seq<Byte>, a: nat): (w: nat)
    requires a + 8 <= |m|
    ensures w < TWO64
  {
    BytesOfValue(m[a..a + 8]);
    PowerValues();
    Value(m[a..a + 8])
  }

  lemma {:induction false} ByteOfValue(s: seq<Byte>, k: nat)
    requires k < |s|
    ensures Value(s) / Pow2(8 * k) % 256 == s[k]
  {
    if k > 0 {
      hide Pow2;
      DropByte(s[0], Value(s[1..]), k);
      ByteOfValue(s[1..], k - 1);
    }
  }

  lemma DropByte(b: Byte, v: nat, k: nat)
    requires k > 0
    ensures (b + 256 * v) / Pow2(8 * k) == v / Pow2(8 * (k - 1))
  {
    EightBits(k);
    hide Pow2;
    DivDiv(b + 256 * v, 256, Pow2(8 * (k - 1)));
    AddQuotient(b, 256, v);
  }

  /** The lowest byte comes first. */
  lemma LittleEndian(m: seq<Byte>, a: nat, k: nat)
    requires a + 8 <= |m| && k < 8
    ensures Word(m, a) / Pow2(8 * k) % 256 == m[a + k]
  {
    ByteOfValue(m[a..a + 8], k);
  }

  /** `m` with the word at `a` replaced by `w`. */
  function Put(m: seq<Byte>, a: nat, w: nat): (r: seq<Byte>)
    requires a + 8 <= |m|
    ensures |r| == |m|
    ensures forall i :: 0 <= i < |m| && !(a <= i < a + 8) ==> r[i] == m[i]
  {
    m[..a] + Bytes(w, 8) + m[a + 8..]
  }

  lemma WordOfPut(m: seq<Byte>, a: nat, w: nat)
    requires a + 8 <= |m| && w < TWO64
    ensures Word(Put(m, a, w), a) == w
  {
    assert Put(m, a, w)[a..a + 8] == Bytes(w, 8);
    PowerValues();
    ValueOfBytes(w, 8);
  }

  /** Words that share no byte with the replaced one are kept. */
  lemma WordFrame(m: seq<Byte>, a: nat, w: nat, b: nat)
    requires a + 8 <= |m| && b + 8 <= |m|
    requires b + 8 <= a || a + 8 <= b
    ensures Word(Put(m, a, w), b) == Word(m, b)
  {
    assert Put(m, a, w)[b..b + 8] == m[b..b + 8];
  }

  lemma SameBytesSameWord(m: seq<Byte>, m': seq<Byte>, a: nat)
    requires a + 8 <= |m| && a + 8 <= |m'| && forall i :: a <= i < a + 8 ==> m[i] == m'[i]
    ensures Word(m, a) == Word(m', a)
  {
    assert m[a..a + 8] == m'[a..a + 8];
  }

  /** `*(u64 *)(mem + a) = w`. */
  method StoreWord(mem: array<Byte>, a: nat, w: nat)
    requires a + 8 <= mem.Length
    modifies mem
    ensures mem[..] == Put(old(mem[..]), a, w)
  {
    forall k | 0 <= k < 8 {
      mem[a + k] := Bytes(w, 8)[k];
    }
    assert mem[a..a + 8] == Bytes(w, 8);
  }
}
