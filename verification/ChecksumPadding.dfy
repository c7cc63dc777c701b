/**
 The padding of a file checksum (Checksum in file_reader.go): the block checksums are
 followed by zeros up to a power of two, at least 32 bytes in all.
 */
module ChecksumPadding {
  import opened Common

  const MIN_PADDED := 32

  function Pow2(k: nat): nat {
    if k == 0 then 1 else 2 * Pow2(k - 1)
  }

  function TotalLength(sums: seq<Bytes>): nat {
    if sums == [] then 0 else TotalLength(sums[..|sums| - 1]) + |sums[|sums| - 1]|
  }

  /** How often the loop has doubled the padded length. */
  function Doublings(sums: seq<Bytes>): nat {
    if sums == [] then 0
    else
      var k := Doublings(sums[..|sums| - 1]);
      if MIN_PADDED * Pow2(k) < TotalLength(sums) then k + 1 else k
  }

  /** 32 * 2^k is the least such number that `total` bytes fit into. */
  predicate IsLeastPadding(k: nat, total: nat) {
    total <= MIN_PADDED * Pow2(k) && (k > 0 ==> MIN_PADDED * Pow2(k - 1) < total)
  }

  method PaddedLength(sums: seq<Bytes>) returns (paddedLength: nat, totalLength: nat)
    ensures paddedLength == MIN_PADDED * Pow2(Doublings(sums)) && totalLength == TotalLength(sums)
  {
    paddedLength, totalLength := MIN_PADDED, 0;
    var i := 0;
    while i < |sums|
      invariant i <= |sums| && totalLength == TotalLength(sums[..i])
      invariant paddedLength == MIN_PADDED * Pow2(Doublings(sums[..i]))
    {
      assert sums[..i + 1][..i] == sums[..i];
      totalLength := totalLength + |sums[i]|;
      if paddedLength < totalLength {
        paddedLength := paddedLength * 2;
      }
      i := i + 1;
    }
    assert sums[..i] == sums;
  }

  lemma {:induction false} Pow2Positive(k: nat)
    ensures Pow2(k) > 0
  {
    if k > 0 {
      Pow2Positive(k - 1);
    }
  }

  /** With block checksums of at most 32 bytes, as MD5 sums are, doubling once per block keeps
      up: the padded length is the least power of two, from 32 on, that holds them all. */
  lemma {:induction false} PaddingIsLeast(sums: seq<Bytes>)
    requires forall i :: 0 <= i < |sums| ==> |sums[i]| <= MIN_PADDED
    ensures IsLeastPadding(Doublings(sums), TotalLength(sums))
    decreases |sums|
  {
    if sums != [] {
      var init := sums[..|sums| - 1];
      PaddingIsLeast(init);
      Pow2Positive(Doublings(init));
    }
  }

  lemma {:induction false} Pow2Monotone(j: nat, k: nat)
    requires j <= k
    ensures Pow2(j) <= Pow2(k)
    decreases k
  {
    if j < k {
      Pow2Monotone(j, k - 1);
    }
  }

  /** There is only one least padding. */
  lemma LeastPaddingIsUnique(j: nat, k: nat, total: nat)
    requires IsLeastPadding(j, total) && IsLeastPadding(k, total)
    ensures j == k
  {
    if j < k {
      Pow2Monotone(j, k - 1);
    } else if k < j {
      Pow2Monotone(k, j - 1);
    }
  }

  /** How many doublings `total` bytes need. */
  function Needed(total: nat): (k: nat)
    ensures IsLeastPadding(k, total)
    decreases total
  {
    if total <= MIN_PADDED then 0
    else
      var k := Needed((total + 1) / 2);
      assert k > 0 ==> Pow2(k) == 2 * Pow2(k - 1);
      k + 1
  }

  lemma LeastIsLeast(j: nat, k: nat, total: nat)
    requires IsLeastPadding(j, total) && total <= MIN_PADDED * Pow2(k)
    ensures j <= k
  {
    if k < j {
      Pow2Monotone(k, j - 1);
    }
  }

  lemma NeededIsMonotone(a: nat, b: nat)
    requires a <= b
    ensures Needed(a) <= Needed(b)
  {
    hide Needed, Pow2;
    LeastIsLeast(Needed(a), Needed(b), a);
  }

  /** Each sum adds one doubling if one is needed: the loop does min(needed, one more). */
  lemma OneStep(sums: seq<Bytes>)
    requires sums != []
    ensures var init := sums[..|sums| - 1];
            Doublings(sums) == Min(Needed(TotalLength(sums)), Doublings(init) + 1)
    ensures Doublings(sums) <= Needed(TotalLength(sums))
  {
    var init, total := sums[..|sums| - 1], TotalLength(sums);
    NeverTooMany(init);
    NeededIsMonotone(TotalLength(init), total);
    var d, need := Doublings(init), Needed(total);
    if MIN_PADDED * Pow2(d) < total {
      if need <= d {
        Pow2Monotone(need, d);
      }
    } else if d < need {
      Pow2Monotone(d, need - 1);
    }
  }

  lemma {:induction false} NeverTooMany(sums: seq<Bytes>)
    ensures Doublings(sums) <= Needed(TotalLength(sums))
    decreases |sums|
  {
    if sums != [] {
      var init, total := sums[..|sums| - 1], TotalLength(sums);
      NeverTooMany(init);
      NeededIsMonotone(TotalLength(init), total);
      if MIN_PADDED * Pow2(Doublings(init)) < total && Needed(total) <= Doublings(init) {
        Pow2Monotone(Needed(total), Doublings(init));
      }
    }
  }

  /** After any j of the sums, each further one can add a doubling, and no more. */
  ghost predicate KeepsUp(sums: seq<Bytes>) {
    forall j :: 0 <= j <= |sums| ==>
                  Needed(TotalLength(sums)) <= Needed(TotalLength(sums[..j])) + (|sums| - j)
  }

  lemma {:induction false} DoublingsAreBounded(sums: seq<Bytes>, j: nat)
    requires j <= |sums|
    ensures Doublings(sums) <= Needed(TotalLength(sums[..j])) + (|sums| - j)
    decreases |sums|
  {
    if j == |sums| {
      assert sums[..j] == sums;
      NeverTooMany(sums);
    } else {
      OneStep(sums);
      DoublingsAreBounded(sums[..|sums| - 1], j);
      assert sums[..|sums| - 1][..j] == sums[..j];
    }
  }

  /** The doublings fall short of what is needed by one per step since they last caught up. */
  lemma {:induction false} LastCaughtUp(sums: seq<Bytes>) returns (j: nat)
    ensures j <= |sums| && Doublings(sums) == Needed(TotalLength(sums[..j])) + (|sums| - j)
    decreases |sums|
  {
    if sums == [] || Doublings(sums) == Needed(TotalLength(sums)) {
      j := |sums|;
      assert sums[..j] == sums;
    } else {
      OneStep(sums);
      j := LastCaughtUp(sums[..|sums| - 1]);
      assert sums[..|sums| - 1][..j] == sums[..j];
    }
  }

  /** For block sums of any length, exactly when the padding is right: from no point on does
      the total outgrow what one doubling per remaining block can add. */
  lemma PaddingIsExact(sums: seq<Bytes>)
    ensures IsLeastPadding(Doublings(sums), TotalLength(sums)) <==> KeepsUp(sums)
  {
    hide Doublings, Needed, TotalLength, IsLeastPadding, Pow2;
    var d, total := Doublings(sums), TotalLength(sums);
    NeverTooMany(sums);
    if IsLeastPadding(d, total) {
      LeastPaddingIsUnique(d, Needed(total), total);
      forall j | 0 <= j <= |sums|
        ensures Needed(total) <= Needed(TotalLength(sums[..j])) + (|sums| - j)
      {
        DoublingsAreBounded(sums, j);
      }
    }
    if KeepsUp(sums) {
      var j := LastCaughtUp(sums);
      assert Needed(total) <= Needed(TotalLength(sums[..j])) + (|sums| - j);
      assert d == Needed(total);
    }
  }

  /** A single block sum of more than 64 bytes is such a case. */
  lemma LongSumIsNotPadded(sum: Bytes)
    requires |sum| > 2 * MIN_PADDED
    ensures !IsLeastPadding(Doublings([sum]), TotalLength([sum]))
  {
    assert [sum][..0] == [];
    assert Pow2(1) == 2 * Pow2(0);
  }
}
