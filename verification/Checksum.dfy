/** The checksum-difference helper, against the Internet checksum of RFC 1071 (section 2) and its incremental
    update of RFC 1624 (section 3). */
module Checksum {
  import opened Words
  import opened Wrappers

  const EINVAL := 22

  /** 16-bit word i of a buffer, in host byte order. */
  function Word16(b: seq<Byte>, i: nat): (w: nat)
    requires 2 * i + 1 < |b|
    ensures w <= 0xffff
  {
    var low: int, high: int := b[2 * i], b[2 * i + 1];
    low + 256 * high
  }

  /** Sum of the first n words. */
  function Sum(b: seq<Byte>, n: nat): nat
    requires 2 * n <= |b|
  {
    if n == 0 then 0 else Sum(b, n - 1) + Word16(b, n - 1)
  }

  /** Sum of the complements of the first n words. */
  function ComplementSum(b: seq<Byte>, n: nat): nat
    requires 2 * n <= |b|
  {
    if n == 0 then 0 else ComplementSum(b, n - 1) + (0xffff - Word16(b, n - 1))
  }

  /** A buffer argument holds at least its stated size, unless it is null. */
  predicate Readable(b: Option<seq<Byte>>, size: int) {
    b.Some? ==> size <= |b.value|
  }

  function WordsIn(size: int): nat {
    if size < 0 then 0 else size / 2
  }

  /** What the helper would return with unbounded integers. */
  function Total(from: Option<seq<Byte>>, fromSize: int, to: Option<seq<Byte>>, toSize: int, seed: int): int
    requires Readable(from, fromSize) && Readable(to, toSize)
  {
    seed + (if to.Some? then Sum(to.value, WordsIn(toSize)) else 0)
         + (if from.Some? then ComplementSum(from.value, WordsIn(fromSize)) else 0)
  }

  function Result(from: Option<seq<Byte>>, fromSize: int, to: Option<seq<Byte>>, toSize: int, seed: int): int
    requires Readable(from, fromSize) && Readable(to, toSize)
  {
    if fromSize % 4 != 0 || toSize % 4 != 0 then -EINVAL
    else if S32(Total(from, fromSize, to, toSize, seed)) < 0 then -EINVAL
    else S32(Total(from, fromSize, to, toSize, seed))
  }

  /** Wrap-around can be done after each addition or once at the end. */
  lemma WrapOnce(a: int, b: int)
    ensures S32(S32(a) + b) == S32(a + b)
  {
    var q := (a + TWO31) / TWO32;
    assert S32(a) == a - TWO32 * q;
    var x := a + b + TWO31;
    ModUnique(x, TWO32, x / TWO32, x % TWO32);
    ModUnique(x - TWO32 * q, TWO32, x / TWO32 - q, x % TWO32);
  }

  method CsumDiff(from: Option<seq<Byte>>, fromSize: int, to: Option<seq<Byte>>, toSize: int, seed: int)
    returns (r: int)
    requires Readable(from, fromSize) && Readable(to, toSize) && -TWO31 <= seed < TWO31
    ensures r == Result(from, fromSize, to, toSize, seed)
  {
    hide S32;
    if fromSize % 4 != 0 || toSize % 4 != 0 {
      return -EINVAL;
    }
    var diff := S32(seed);
    if to.Some? {
      var i: nat := 0;
      while i < toSize / 2
        invariant i <= WordsIn(toSize)
        invariant diff == S32(seed + Sum(to.value, i))
      {
        WrapOnce(seed + Sum(to.value, i), Word16(to.value, i));
        diff := S32(diff + Word16(to.value, i));
        i := i + 1;
      }
    }
    ghost var base := seed + if to.Some? then Sum(to.value, WordsIn(toSize)) else 0;
    assert diff == S32(base);
    if from.Some? {
      var i: nat := 0;
      while i < fromSize / 2
        invariant i <= WordsIn(fromSize)
        invariant diff == S32(base + ComplementSum(from.value, i))
      {
        WrapOnce(base + ComplementSum(from.value, i), 0xffff - Word16(from.value, i));
        diff := S32(diff + (0xffff - Word16(from.value, i)));
        i := i + 1;
      }
    }
    if diff < 0 {
      diff := -EINVAL;
    }
    r := diff;
  }

  // ---------------------------------------------------------------- overflow

  /** For buffers of whole 32-bit words the result is the true sum exactly when that lies within 31 bits, or happens to
      be the error code itself. */
  lemma ExactIff(from: Option<seq<Byte>>, fromSize: int, to: Option<seq<Byte>>, toSize: int, seed: int)
    requires Readable(from, fromSize) && Readable(to, toSize) && fromSize % 4 == 0 && toSize % 4 == 0
    ensures Result(from, fromSize, to, toSize, seed) == Total(from, fromSize, to, toSize, seed) <==>
            0 <= Total(from, fromSize, to, toSize, seed) < TWO31 ||
            Total(from, fromSize, to, toSize, seed) == -EINVAL
  {
    hide Sum, ComplementSum;
  }

  /** A sum past 32 bits comes out positive again: the overflow is not reported. */
  lemma OverflowUnreported(from: Option<seq<Byte>>, fromSize: int, to: Option<seq<Byte>>, toSize: int, seed: nat)
    requires Readable(from, fromSize) && Readable(to, toSize) && fromSize % 4 == 0 && toSize % 4 == 0
    requires TWO32 <= Total(from, fromSize, to, toSize, seed) < TWO32 + TWO31
    ensures Result(from, fromSize, to, toSize, seed) == Total(from, fromSize, to, toSize, seed) - TWO32
  {
    hide Sum, ComplementSum;
    var t := Total(from, fromSize, to, toSize, seed);
    ModUnique(t + TWO31, TWO32, 1, t + TWO31 - TWO32);
  }

  // ---------------------------------------------------------------- the result in bytes

  /** The bytes at first, first + 2, first + 4, ..., n of them, added up. */
  function EveryOther(b: seq<Byte>, first: nat, n: nat): nat
    requires n > 0 ==> first + 2 * (n - 1) < |b|
  {
    if n == 0 then 0 else EveryOther(b, first, n - 1) + b[first + 2 * (n - 1)]
  }

  /** Words are little-endian: bytes at even places count once, those at odd places 256 times. */
  lemma {:induction false} SumInBytes(b: seq<Byte>, n: nat)
    requires 2 * n <= |b|
    ensures Sum(b, n) == EveryOther(b, 0, n) + 256 * EveryOther(b, 1, n)
  {
    if n > 0 { SumInBytes(b, n - 1); }
  }

  /** What the words of a buffer add, for a size that may be negative. */
  function BytesAdded(b: seq<Byte>, size: int): nat
    requires size <= |b|
  {
    if size <= 0 then 0 else EveryOther(b, 0, size / 2) + 256 * EveryOther(b, 1, size / 2)
  }

  /** For all arguments: an error for sizes that are no multiple of four; else the seed, the words of one buffer and,
      for each word of the other, 65535 less it, added up in 32 bits, and an error if that is negative. */
  lemma ResultInBytes(from: Option<seq<Byte>>, fromSize: int, to: Option<seq<Byte>>, toSize: int, seed: int)
    requires Readable(from, fromSize) && Readable(to, toSize)
    ensures fromSize % 4 != 0 || toSize % 4 != 0 ==> Result(from, fromSize, to, toSize, seed) == -22
    ensures fromSize % 4 == 0 && toSize % 4 == 0 ==>
            var added := if to.Some? then BytesAdded(to.value, toSize) else 0;
            var complements := if from.Some? && fromSize > 0
                               then 65535 * (fromSize / 2) - BytesAdded(from.value, fromSize) else 0;
            var low := (seed + added + complements) % 0x1_0000_0000;
            Result(from, fromSize, to, toSize, seed) == if low < 0x8000_0000 then low else -22
  {
    if to.Some? { SumInBytes(to.value, WordsIn(toSize)); }
    if from.Some? {
      SumInBytes(from.value, WordsIn(fromSize));
      ComplementIs(from.value, WordsIn(fromSize));
    }
    SignedLow(Total(from, fromSize, to, toSize, seed));
    hide S32, Sum, ComplementSum, EveryOther;
  }

  lemma SignedLow(t: int)
    ensures t % 0x1_0000_0000 < 0x8000_0000 ==> S32(t) == t % 0x1_0000_0000
    ensures S32(t) < 0 <==> t % 0x1_0000_0000 >= 0x8000_0000
  {
    var q, low := t / TWO32, t % TWO32;
    if low < TWO31 {
      ModUnique(t + TWO31, TWO32, q, low + TWO31);
    } else {
      ModUnique(t + TWO31, TWO32, q + 1, low - TWO31);
    }
  }

  /** A 32-bit number alone gives the sum of its halves. */
  lemma HalvesAdded(v: nat)
    requires v < TWO32
    ensures Returned([], LittleEndian(v, 4), 0) == v % 0x1_0000 + v / 0x1_0000
  {
    var b := LittleEndian(v, 4);
    ResultInBytes(Some([]), 0, Some(b), 4, 0);
    FourBytes(v);
    assert EveryOther(b, 0, 2) == EveryOther(b, 0, 1) + b[2] && EveryOther(b, 0, 1) == b[0];
    assert EveryOther(b, 1, 2) == EveryOther(b, 1, 1) + b[3] && EveryOther(b, 1, 1) == b[1];
  }

  lemma FourBytes(v: nat)
    requires v < TWO32
    ensures var b := LittleEndian(v, 4);
            b[0] as int + 256 * (b[1] as int) == v % 0x1_0000 && b[2] as int + 256 * (b[3] as int) == v / 0x1_0000
  {
    var a, b, c := v / 256, v / 256 / 256, v / 256 / 256 / 256;
    assert LittleEndian(c, 1) == [c % 256] + LittleEndian(c / 256, 0);
    assert LittleEndian(b, 2) == [b % 256] + LittleEndian(c, 1);
    assert LittleEndian(a, 3) == [a % 256] + LittleEndian(b, 2);
    assert LittleEndian(v, 4) == [v % 256, a % 256, b % 256, c % 256];
    hide LittleEndian;
    TwoBytes(v, a, b);
    TwoBytes(b, c, c / 256);
  }

  lemma TwoBytes(v: nat, a: nat, b: nat)
    requires a == v / 256 && b == a / 256
    ensures v % 256 + 256 * (a % 256) == v % 0x1_0000 && b == v / 0x1_0000
  {
    ModUnique(v, 0x1_0000, b, v % 256 + 256 * (a % 256));
  }

  // ---------------------------------------------------------------- incremental update

  const M := 0xffff

  lemma {:induction false} ComplementIs(b: seq<Byte>, n: nat)
    requires 2 * n <= |b|
    ensures ComplementSum(b, n) == M * n - Sum(b, n)
  {
    if n > 0 { ComplementIs(b, n - 1); }
  }

  /** One buffer replaced by another, both given in full. */
  function Diff(from: seq<Byte>, to: seq<Byte>, seed: nat): int {
    Total(Some(from), |from|, Some(to), |to|, seed)
  }

  function SumAll(b: seq<Byte>): nat {
    Sum(b, |b| / 2)
  }

  /** The difference is the seed plus the new words minus the old ones, up to a multiple of 0xffff. */
  lemma DiffIs(from: seq<Byte>, to: seq<Byte>, seed: nat)
    ensures Diff(from, to, seed) == seed + SumAll(to) - SumAll(from) + M * (|from| / 2)
    ensures Diff(from, to, seed) >= seed
  {
    ComplementIs(from, |from| / 2);
  }

  /** Going from a to b and on to c adds what going from a to c adds, up to a multiple of 0xffff. */
  lemma DiffsAdd(a: seq<Byte>, b: seq<Byte>, c: seq<Byte>, seed: nat)
    ensures Diff(a, b, seed) >= 0
    ensures Diff(b, c, Diff(a, b, seed)) == Diff(a, c, seed) + M * (|b| / 2)
  {
    DiffIs(a, b, seed);
    DiffIs(b, c, Diff(a, b, seed));
    DiffIs(a, c, seed);
  }

  lemma Congruent(x: int, k: nat)
    ensures (x + M * k) % M == x % M
  {
    ModUnique(x, M, x / M, x % M);
    ModUnique(x + M * k, M, x / M + k, x % M);
  }

  lemma {:induction false} SumBound(b: seq<Byte>, n: nat)
    requires 2 * n <= |b|
    ensures Sum(b, n) <= M * n
  {
    if n > 0 { SumBound(b, n - 1); }
  }

  // ---------------------------------------------------------------- what the helper returns

  /** Buffers the helper can be given: whole 32-bit words, sizes within an int. */
  predicate Given(from: seq<Byte>, to: seq<Byte>, seed: nat) {
    |from| % 4 == 0 && |to| % 4 == 0 && |from| < TWO31 && |to| < TWO31 && seed < TWO31
  }

  /** What the helper returns for one buffer replaced by another, both given in full. */
  function Returned(from: seq<Byte>, to: seq<Byte>, seed: nat): int {
    Result(Some(from), |from|, Some(to), |to|, seed)
  }

  /** A result that is no error is the true sum less some full turns of 32 bits, fewer than 2^15. */
  lemma TurnsLost(from: seq<Byte>, to: seq<Byte>, seed: nat) returns (k: nat)
    requires Given(from, to, seed)
    ensures Returned(from, to, seed) < TWO31
    ensures Returned(from, to, seed) >= 0 ==> Diff(from, to, seed) == Returned(from, to, seed) + TWO32 * k && k < 0x8000
    ensures Diff(from, to, seed) < TWO31 ==> Returned(from, to, seed) == Diff(from, to, seed)
  {
    hide Sum, ComplementSum;
    SumBound(to, |to| / 2);
    ComplementIs(from, |from| / 2);
    var d := Diff(from, to, seed);
    k := (d + TWO31) / TWO32;
  }

  /** A full turn is one more than a multiple of 0xffff, so lost turns show. */
  lemma TurnShows(r: int, k: nat)
    requires k < M
    ensures (r + TWO32 * k) % M == r % M <==> k == 0
  {
    Congruent(r + k, 0x1_0001 * k);
    assert r + TWO32 * k == (r + k) + M * (0x1_0001 * k);
    var q, x := r / M, r % M;
    assert r + k == M * q + (x + k);
    if x + k < M {
      ModUnique(r + k, M, q, x + k);
    } else {
      ModUnique(r + k, M, q + 1, x + k - M);
    }
  }

  /** For all buffers: the result is no error and the seed plus the new words minus the old ones modulo 0xffff exactly
      when the words add up to less than 2^31. */
  lemma CongruentIff(from: seq<Byte>, to: seq<Byte>, seed: nat)
    requires Given(from, to, seed)
    ensures var r := Returned(from, to, seed);
            r >= 0 && r % M == (seed + SumAll(to) - SumAll(from)) % M <==> Diff(from, to, seed) < TWO31
  {
    hide Returned, Diff, SumAll;
    var k := TurnsLost(from, to, seed);
    DiffIs(from, to, seed);
    Congruent(seed + SumAll(to) - SumAll(from), |from| / 2);
    if Returned(from, to, seed) >= 0 { TurnShows(Returned(from, to, seed), k); }
  }

  /** The bound is met whenever the seed and 0xffff for each word stay below 2^31. */
  lemma ShortEnough(from: seq<Byte>, to: seq<Byte>, seed: nat)
    requires seed + M * (|from| / 2 + |to| / 2) < TWO31
    ensures Diff(from, to, seed) < TWO31
  {
    hide Sum, ComplementSum;
    SumBound(to, |to| / 2);
    ComplementIs(from, |from| / 2);
  }

  /** Called with r for b to c, the helper reports no error and something congruent to want. */
  predicate ChainGives(r: int, b: seq<Byte>, c: seq<Byte>, want: int) {
    r >= 0 && Returned(b, c, r) >= 0 && Returned(b, c, r) % M == want % M
  }

  /** Calling the helper for a to b, and with its result for b to c, gives a result for a to c exactly when the words
      of both steps add up to less than 2^31; and then a single call from a to c agrees. */
  lemma ChainIff(a: seq<Byte>, b: seq<Byte>, c: seq<Byte>, seed: nat)
    requires Given(a, b, seed) && |c| % 4 == 0 && |c| < TWO31
    ensures Diff(a, b, seed) >= 0
    ensures var r := Returned(a, b, seed); var total := Diff(b, c, Diff(a, b, seed));
            (ChainGives(r, b, c, seed + SumAll(c) - SumAll(a)) <==> total < TWO31) &&
            (total < TWO31 ==> Returned(a, c, seed) >= 0 && Returned(b, c, r) % M == Returned(a, c, seed) % M)
  {
    hide Returned, Diff, SumAll;
    DiffsAdd(a, b, c, seed);
    DiffIs(a, b, seed);
    DiffIs(b, c, Diff(a, b, seed));
    DiffIs(a, c, seed);
    var want, total, r := seed + SumAll(c) - SumAll(a), Diff(b, c, Diff(a, b, seed)), Returned(a, b, seed);
    var k := TurnsLost(a, b, seed);
    Congruent(want, |a| / 2);
    Congruent(Diff(a, c, seed), |b| / 2);
    if r >= 0 {
      DiffIs(b, c, r);
      var k' := TurnsLost(b, c, r);
      if Returned(b, c, r) >= 0 {
        assert total == Returned(b, c, r) + TWO32 * (k + k');
        TurnShows(Returned(b, c, r), k + k');
      }
    }
    if total < TWO31 {
      var direct := TurnsLost(a, c, seed);
    }
  }

  /** Folding the carries back in until 16 bits are left. */
  function Fold(n: nat): (r: nat)
    ensures r <= M
  {
    if n <= M then n else Fold(n / 0x1_0000 + n % 0x1_0000)
  }

  /** Folding gives the residue modulo 0xffff, written 0xffff rather than 0 for every positive number. */
  lemma {:induction false} FoldIs(n: nat)
    ensures Fold(n) == if n == 0 then 0 else (n - 1) % M + 1
  {
    if n <= M {
      if n > 0 { ModUnique(n - 1, M, 0, n - 1); }
    } else {
      var m := n / 0x1_0000 + n % 0x1_0000;
      FoldIs(m);
      assert n - 1 == (m - 1) + M * (n / 0x1_0000);
      Congruent(m - 1, n / 0x1_0000);
    }
  }

  /** Numbers congruent modulo 0xffff fold alike exactly when both or neither are zero. */
  lemma FoldAlikeIff(x: nat, y: nat)
    requires x % M == y % M
    ensures Fold(x) == Fold(y) <==> (x == 0 <==> y == 0)
  {
    FoldIs(x);
    FoldIs(y);
    if x > 0 && y > 0 {
      PredCongruent(x);
      PredCongruent(y);
    }
  }

  lemma PredCongruent(x: nat)
    requires x > 0
    ensures (x - 1) % M == (x % M + (M - 1)) % M
  {
    var q, r := x / M, x % M;
    assert x - 1 == M * q + (r - 1);
    if r == 0 {
      ModUnique(x - 1, M, q - 1, M - 1);
      ModUnique(r + (M - 1), M, 0, M - 1);
    } else {
      ModUnique(x - 1, M, q, r - 1);
      ModUnique(r + (M - 1), M, 1, r - 1);
    }
  }

  /** A packet is summed piece by piece. */
  lemma {:induction false} SumConcat(a: seq<Byte>, b: seq<Byte>)
    requires |a| % 2 == 0 && |b| % 2 == 0
    ensures SumAll(a + b) == SumAll(a) + SumAll(b)
  {
    SumConcatTo(a, b, |b| / 2);
    SumPrefix(a, b, |a| / 2);
  }

  lemma {:induction false} SumPrefix(a: seq<Byte>, b: seq<Byte>, n: nat)
    requires 2 * n <= |a|
    ensures Sum(a + b, n) == Sum(a, n)
  {
    if n > 0 { SumPrefix(a, b, n - 1); }
  }

  lemma {:induction false} SumConcatTo(a: seq<Byte>, b: seq<Byte>, n: nat)
    requires |a| % 2 == 0 && 2 * n <= |b|
    ensures Sum(a + b, |a| / 2 + n) == Sum(a + b, |a| / 2) + Sum(b, n)
    decreases n
  {
    if n > 0 { SumConcatTo(a, b, n - 1); }
  }

  /** With unbounded integers, updating a packet's folded sum agrees with summing the patched packet except where an
      all-zero result is written 0xffff. */
  lemma PatchedDiffIff(before: seq<Byte>, from: seq<Byte>, to: seq<Byte>, after: seq<Byte>)
    requires |before| % 2 == 0 && |from| % 4 == 0 && |to| % 4 == 0 && |after| % 2 == 0
    ensures var packet, patched := before + from + after, before + to + after;
            Diff(from, to, Fold(SumAll(packet))) % M == SumAll(patched) % M &&
            Diff(from, to, Fold(SumAll(packet))) >= 0 &&
            (Fold(Diff(from, to, Fold(SumAll(packet)))) == Fold(SumAll(patched)) <==>
             SumAll(patched) != 0 || (SumAll(packet) == 0 && from == []))
  {
    hide Fold, SumAll, Diff, Sum, ComplementSum, S32;
    var packet, patched := before + from + after, before + to + after;
    PacketSum(before, from, after);
    PacketSum(before, to, after);
    var rest := SumAll(before) + SumAll(after);
    var s := SumAll(packet);
    DiffIs(from, to, Fold(s));
    EmptySum();
    Halved(from);
    PatchResidue(rest, SumAll(from), SumAll(to), |from| / 2, Diff(from, to, Fold(s)));
    PatchSums(rest, SumAll(from), SumAll(to), |from| / 2, Diff(from, to, Fold(s)));
  }

  /** Calling the helper with a packet's folded sum and folding the result gives the folded sum of the patched packet
      exactly when the words stay below 2^31 and the patched packet has a nonzero word, or nothing was replaced in a
      packet that had none. */
  lemma PatchAgreesIff(before: seq<Byte>, from: seq<Byte>, to: seq<Byte>, after: seq<Byte>)
    requires |before| % 2 == 0 && |after| % 2 == 0 && Given(from, to, 0)
    ensures var packet, patched := before + from + after, before + to + after;
            var r := Returned(from, to, Fold(SumAll(packet)));
            r >= 0 && Fold(r) == Fold(SumAll(patched)) <==>
            Diff(from, to, Fold(SumAll(packet))) < TWO31 &&
            (SumAll(patched) != 0 || (SumAll(packet) == 0 && from == []))
  {
    hide Fold, SumAll, Diff, Returned;
    var packet, patched := before + from + after, before + to + after;
    var seed := Fold(SumAll(packet));
    PatchedDiffIff(before, from, to, after);
    var k := TurnsLost(from, to, seed);
    var r := Returned(from, to, seed);
    if r >= 0 {
      FoldKeepsResidue(r);
      FoldKeepsResidue(SumAll(patched));
      TurnShows(r, k);
    }
  }

  lemma PacketSum(before: seq<Byte>, middle: seq<Byte>, after: seq<Byte>)
    requires |before| % 2 == 0 && |middle| % 2 == 0 && |after| % 2 == 0
    ensures SumAll(before + middle + after) == SumAll(before) + SumAll(after) + SumAll(middle)
  {
    hide SumAll;
    SumConcat(before + middle, after);
    SumConcat(before, middle);
  }

  lemma Halved(b: seq<Byte>)
    requires |b| % 4 == 0
    ensures |b| / 2 == 0 <==> b == []
  {
  }

  lemma EmptySum()
    ensures SumAll([]) == 0
  {
  }

  lemma PatchResidue(rest: nat, a: nat, b: nat, n: nat, d: int)
    requires d == Fold(rest + a) + b - a + M * n
    ensures d % M == (rest + b) % M
  {
    hide Fold;
    FoldKeepsResidue(rest + a);
    Congruent(rest + b, n);
    DifferBy(d, rest + b + M * n, rest + a, Fold(rest + a));
  }

  lemma PatchSums(rest: nat, a: nat, b: nat, n: nat, d: int)
    requires d == Fold(rest + a) + b - a + M * n && d >= Fold(rest + a) && (n == 0 ==> a == 0)
    ensures Fold(d) == Fold(rest + b) <==> rest + b != 0 || (rest + a == 0 && n == 0)
  {
    hide Fold;
    var s, s' := rest + a, rest + b;
    FoldIs(s);
    PatchResidue(rest, a, b, n, d);
    FoldAlikeIff(d, s');
  }

  lemma FoldKeepsResidue(n: nat)
    ensures Fold(n) % M == n % M
  {
    FoldIs(n);
    if n > 0 {
      var q, r := (n - 1) / M, (n - 1) % M;
      assert n == M * q + (r + 1);
      Congruent(r + 1, q);
    }
  }

  lemma DifferBy(x: int, y: int, a: int, b: int)
    requires y - x == a - b && a % M == b % M
    ensures x % M == y % M
  {
    var k := a / M - b / M;
    assert a - b == M * k;
    if k >= 0 { Congruent(x, k); } else { Congruent(y, -k); }
  }
}
