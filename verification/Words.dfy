/** Machine words: fixed-width wrap-around, little-endian bytes and byte-addressed memory. */
module Words {

  type Byte = x: int | 0 <= x < 256

  const TWO16: int := 0x1_0000
  const TWO31: int := 0x8000_0000
  const TWO32: int := 0x1_0000_0000
  const TWO63: int := 0x8000_0000_0000_0000
  const TWO64: int := 0x1_0000_0000_0000_0000

  function U32(x: int): (r: nat)
    ensures r < TWO32
  {
    x % TWO32
  }

  function U64(x: int): (r: nat)
    ensures r < TWO64
  {
    x % TWO64
  }

  /** The value of the low 16 bits read as a two's complement number. */
  function S16(x: int): (r: int)
    ensures -0x8000 <= r < 0x8000
    ensures -0x8000 <= x < 0x8000 ==> r == x
  {
    (x + 0x8000) % TWO16 - 0x8000
  }

  /** The value of the low 32 bits read as a two's complement number. */
  function S32(x: int): (r: int)
    ensures -TWO31 <= r < TWO31
    ensures -TWO31 <= x < TWO31 ==> r == x
  {
    (x + TWO31) % TWO32 - TWO31
  }

  /** The value of the low 64 bits read as a two's complement number. */
  function S64(x: int): (r: int)
    ensures -TWO63 <= r < TWO63
    ensures -TWO63 <= x < TWO63 ==> r == x
  {
    (x + TWO63) % TWO64 - TWO63
  }

  function Pow256(n: nat): (r: nat)
    ensures r >= 1
  {
    if n == 0 then 1 else 256 * Pow256(n - 1)
  }

  /** The n low bytes of v, least significant first. */
  function LittleEndian(v: nat, n: nat): (r: seq<Byte>)
    ensures |r| == n
    decreases n
  {
    if n == 0 then [] else [v % 256] + LittleEndian(v / 256, n - 1)
  }

  function FromLittleEndian(s: seq<Byte>): (r: nat)
    ensures r < Pow256(|s|)
  {
    if s == [] then 0 else s[0] + 256 * FromLittleEndian(s[1..])
  }

  /** Writing a number and reading it back keeps its n low bytes. */
  lemma {:induction false} LittleEndianRoundTrip(v: nat, n: nat)
    ensures FromLittleEndian(LittleEndian(v, n)) == v % Pow256(n)
    decreases n
  {
    if n > 0 {
      LittleEndianRoundTrip(v / 256, n - 1);
      assert LittleEndian(v, n)[1..] == LittleEndian(v / 256, n - 1);
      ModStep(v, Pow256(n - 1));
    }
  }

  /** Reading bytes as a number and writing it back gives the bytes. */
  lemma {:induction false} LittleEndianInverse(s: seq<Byte>)
    ensures LittleEndian(FromLittleEndian(s), |s|) == s
  {
    if s != [] {
      LittleEndianInverse(s[1..]);
      assert s == [s[0]] + s[1..];
      ModUnique(FromLittleEndian(s), 256, FromLittleEndian(s[1..]), s[0]);
    }
  }

  lemma {:induction false} Pow256Sum(a: nat, b: nat)
    ensures Pow256(a + b) == Pow256(a) * Pow256(b)
  {
    if a > 0 {
      Pow256Sum(a - 1, b);
      assert 256 * (Pow256(a - 1) * Pow256(b)) == (256 * Pow256(a - 1)) * Pow256(b);
    }
  }

  lemma {:induction false} FromLittleEndianAppend(s: seq<Byte>, b: Byte)
    ensures FromLittleEndian(s + [b]) == FromLittleEndian(s) + Pow256(|s|) * b
  {
    if s == [] {
      assert [] + [b] == [b];
    } else {
      FromLittleEndianAppend(s[1..], b);
      assert (s + [b])[1..] == s[1..] + [b];
      assert 256 * (Pow256(|s| - 1) * b) == (256 * Pow256(|s| - 1)) * b;
    }
  }

  lemma ModStep(v: nat, p: nat)
    requires p >= 1
    ensures v % (256 * p) == v % 256 + 256 * ((v / 256) % p)
  {
    var q, r := v / 256, v % 256;
    var a, b := q / p, q % p;
    assert v == 256 * q + r && q == p * a + b;
    assert v == (256 * p) * a + (256 * b + r) by {
      assert 256 * (p * a) == (256 * p) * a;
    }
    assert 256 * b + r < 256 * p;
    ModUnique(v, 256 * p, a, 256 * b + r);
  }

  lemma ModUnique(v: int, m: int, a: int, r: int)
    requires m > 0 && v == m * a + r && 0 <= r < m
    ensures v % m == r && v / m == a
  {
    var q, s := v / m, v % m;
    var d := q - a;
    assert m * d == r - s by {
      assert v == m * q + s;
      assert m * q - m * a == m * d;
    }
    if d >= 1 {
      MulAtLeast(m, d);
    } else if d <= -1 {
      MulAtLeast(m, -d);
    }
  }

  lemma ModRange(a: int, m: int)
    requires m > 0
    ensures 0 <= a % m < m
  {
  }

  lemma MulAtLeast(m: int, d: int)
    requires m > 0 && d >= 1
    ensures m * d >= m
  {
  }

  lemma MulMonotone(a: nat, b: nat, w: nat)
    requires a <= b
    ensures a * w <= b * w
  {
  }

  lemma Pow256Of8()
    ensures Pow256(8) == TWO64
  {
    assert Pow256(2) == 0x1_0000;
    assert Pow256(4) == 0x1_0000_0000;
    assert Pow256(6) == 0x1_0000_0000_0000;
  }

  /** Byte-addressed memory; an address never written reads as zero. */
  type Memory = map<int, Byte>

  function Peek(m: Memory, a: int): Byte {
    if a in m then m[a] else 0
  }

  function Store(m: Memory, a: int, bytes: seq<Byte>): (r: Memory)
    ensures forall k :: Peek(r, k) == if a <= k < a + |bytes| then bytes[k - a] else Peek(m, k)
    decreases |bytes|
  {
    if bytes == [] then m else Store(m[a := bytes[0]], a + 1, bytes[1..])
  }

  function Load(m: Memory, a: int, n: nat): (r: seq<Byte>)
    ensures |r| == n
    ensures forall i :: 0 <= i < n ==> r[i] == Peek(m, a + i)
    decreases n
  {
    if n == 0 then [] else [Peek(m, a)] + Load(m, a + 1, n - 1)
  }

  /** Writes the n low bytes of v at address a. */
  function StoreWord(m: Memory, a: int, v: nat, n: nat): Memory {
    Store(m, a, LittleEndian(v, n))
  }

  function LoadWord(m: Memory, a: int, n: nat): nat {
    FromLittleEndian(Load(m, a, n))
  }

  /** Bytes read back from where they were written are the bytes written. */
  lemma LoadStored(m: Memory, a: int, bytes: seq<Byte>)
    ensures Load(Store(m, a, bytes), a, |bytes|) == bytes
  {
  }

  /** A word read back from where it was written is the word written, cut to its width. */
  lemma LoadStoredWord(m: Memory, a: int, v: nat, n: nat)
    ensures LoadWord(StoreWord(m, a, v, n), a, n) == v % Pow256(n)
  {
    LoadStored(m, a, LittleEndian(v, n));
    LittleEndianRoundTrip(v, n);
  }

  /** Two memories that agree on n bytes agree on the word there. */
  lemma LoadAgree(m: Memory, m': Memory, a: int, n: nat)
    requires forall k :: a <= k < a + n ==> Peek(m, k) == Peek(m', k)
    ensures Load(m, a, n) == Load(m', a, n) && LoadWord(m, a, n) == LoadWord(m', a, n)
  {
    assert Load(m, a, n) == Load(m', a, n);
  }
}
