/**
 Vocabulary shared by every part of the model: fixed-width bytes and words, the
 error values that cross module boundaries, and concatenation of pieces.
 */
module Common {

  newtype uint8 = x: int | 0 <= x < 0x100
  newtype uint32 = x: int | 0 <= x < 0x1_0000_0000

  type Bytes = seq<uint8>

  datatype Option<+T> = None | Some(value: T)

  /** CRC-32 (IEEE polynomial). Its value is never looked into: everything is
      proved for an arbitrary function of the covered bytes. */
  const Crc32: Bytes -> uint32

  /** CRC-32C (Castagnoli polynomial), treated the same way. */
  const Crc32C: Bytes -> uint32

  /** The error results the source tells apart. `Failed` stands for every other
      error value: a dial, read, write or RPC failure, or an ack error. `Panic` is a run-time
      panic, and `StillRetrying` a call that was cut off in a loop that need not end. */
  datatype Error = Nil | EOF | ClosedPipe | EndOfBlock | Failed | Panic | StillRetrying

  /** The four bytes that `binary.BigEndian.PutUint32` stores. */
  function BigEndian32(x: uint32): (b: Bytes)
    ensures |b| == 4
  {
    var n := x as int;
    [(n / 0x100_0000) as uint8, (n / 0x1_0000 % 0x100) as uint8, (n / 0x100 % 0x100) as uint8, (n % 0x100) as uint8]
  }

  function FromBigEndian32(b: Bytes): (x: uint32)
    requires |b| == 4
  {
    (b[0] as int * 0x100_0000 + b[1] as int * 0x1_0000 + b[2] as int * 0x100 + b[3] as int) as uint32
  }

  lemma BigEndian32RoundTrip(x: uint32)
    ensures FromBigEndian32(BigEndian32(x)) == x
  {
    var n := x as int;
    assert n == n / 0x100 * 0x100 + n % 0x100;
    assert n / 0x100 == n / 0x1_0000 * 0x100 + n / 0x100 % 0x100;
    assert n / 0x1_0000 == n / 0x100_0000 * 0x100 + n / 0x1_0000 % 0x100;
  }

  /** The first byte in which they differ decides. */
  predicate LexLess(a: Bytes, b: Bytes) {
    b != [] && (a == [] || a[0] < b[0] || (a[0] == b[0] && LexLess(a[1..], b[1..])))
  }

  /** The highest byte comes first: numbers are in the order of their bytes. */
  lemma BigEndian32Order(x: uint32, y: uint32)
    ensures x < y <==> LexLess(BigEndian32(x), BigEndian32(y))
  {
    var a, b := BigEndian32(x), BigEndian32(y);
    BigEndian32RoundTrip(x);
    BigEndian32RoundTrip(y);
    hide BigEndian32;
    assert LexLess(a, b) == (a[0] < b[0] || (a[0] == b[0] && LexLess(a[1..], b[1..])));
    LexLess3(a[1..], b[1..]);
  }

  lemma LexLess3(a: Bytes, b: Bytes)
    requires |a| == |b| == 3
    ensures LexLess(a, b) <==> a[0] as int * 0x1_0000 + a[1] as int * 0x100 + a[2] as int
                               < b[0] as int * 0x1_0000 + b[1] as int * 0x100 + b[2] as int
  {
    assert LexLess(a[1..], b[1..])
           == (a[1] < b[1] || (a[1] == b[1] && LexLess(a[2..], b[2..]))) by {
      assert a[1..][1..] == a[2..] && b[1..][1..] == b[2..];
    }
    assert LexLess(a[2..], b[2..]) == (a[2] < b[2]) by {
      assert a[2..][1..] == [] && b[2..][1..] == [];
    }
  }

  function Min(a: int, b: int): int {
    if a < b then a else b
  }

  lemma SliceOfPrefix<T>(s: seq<T>, m: nat, lo: nat, hi: nat)
    requires lo <= hi <= m <= |s|
    ensures s[..m][lo..hi] == s[lo..hi]
  {
  }

  lemma PrefixOfDrop<T>(s: seq<T>, lo: nat, m: nat)
    requires lo + m <= |s|
    ensures s[lo..][..m] == s[lo..lo + m]
  {
  }

  lemma SliceSplit<T>(s: seq<T>, lo: nat, m: nat, hi: nat)
    requires lo <= m <= hi <= |s|
    ensures s[lo..hi] == s[lo..m] + s[m..hi]
  {
  }

  lemma SliceOfSlice<T>(s: seq<T>, a: nat, b: nat, lo: nat, hi: nat)
    requires a <= b <= |s| && lo <= hi <= b - a
    ensures s[a..b][lo..hi] == s[a + lo..a + hi]
  {
    var t := s[a..b];
    forall i | 0 <= i < hi - lo
      ensures t[lo..hi][i] == s[a + lo..a + hi][i]
    {
      assert t[lo + i] == s[a + (lo + i)];
    }
  }

  /** `math.Ceil` of a quotient of non-negative numbers. */
  function CeilDiv(n: nat, d: nat): nat
    requires d > 0
  {
    (n + d - 1) / d
  }

  /** The quotient rounded up is the only k with (k-1)*d < n <= k*d. */
  lemma CeilDivUnique(n: nat, d: nat, k: nat)
    requires d > 0
    requires n <= k * d
    requires k > 0 ==> (k - 1) * d < n
    ensures CeilDiv(n, d) == k
  {
    var m := n + d - 1;
    if k > 0 {
      assert (k - 1) * d == k * d - d;
      assert k * d <= m < k * d + d;
      DivUnique(m, d, k);
    } else {
      assert m == d - 1;
      DivUnique(m, d, 0);
    }
  }

  lemma DivUnique(m: nat, d: nat, k: nat)
    requires d > 0
    requires k * d <= m < k * d + d
    ensures m / d == k
  {
    var q := m / d;
    assert q * d <= m < q * d + d;
    assert q < k ==> (q + 1) * d <= k * d;
    assert k < q ==> (k + 1) * d <= q * d;
  }
}
