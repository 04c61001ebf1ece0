/** The block schedule of the scan (remote_script.py lines 53-58 and 72-74):
    the sizes the loop passes to `read`, one per iteration. */
module Schedule {
  import opened Wire

  /** The read sizes asked for, in order, to cover `remaining` bytes in blocks
      of `blockSize`: a full block while more than a block remains, then what
      is left. A count of zero or less is asked for once, as it is. */
  function Lengths(remaining: int, blockSize: nat): seq<int>
    requires blockSize > 0
    decreases remaining
  {
    if remaining <= blockSize then [remaining]
    else [blockSize] + Lengths(remaining - blockSize, blockSize)
  }

  /** There is at least one read; the first asks for a full block or for
      all there is; there are more exactly when a full block does not cover
      the range; every read but the last asks for a full block; and for a
      positive range the last read asks for at least one byte and at most a
      block. */
  lemma {:induction false} LengthsShape(remaining: int, blockSize: nat)
    requires blockSize > 0
    ensures var r := Lengths(remaining, blockSize);
      && |r| >= 1 && r[0] == Min(remaining, blockSize)
      && (|r| == 1 <==> remaining <= blockSize)
      && (forall i :: 0 <= i < |r| - 1 ==> r[i] == blockSize)
      && (remaining > 0 ==> 0 < r[|r| - 1] <= blockSize)
    decreases remaining
  {
    if remaining > blockSize {
      var rest := Lengths(remaining - blockSize, blockSize);
      LengthsShape(remaining - blockSize, blockSize);
      assert Lengths(remaining, blockSize) == [blockSize] + rest;
    }
  }

  function Sum(s: seq<int>): int
  {
    if s == [] then 0 else s[0] + Sum(s[1..])
  }

  lemma {:induction false} DivShift(x: int, d: int)
    requires d > 0
    ensures (x + d) / d == x / d + 1 && (x + d) % d == x % d
  {
    DivUnique(x + d, d, x / d + 1, x % d);
  }

  /** For a positive range: the lengths add up to the range, there are
      ceil(remaining / blockSize) of them, and the last one is the remainder
      of the division, or a full block when the division is exact. */
  lemma {:induction false} LengthsCover(remaining: int, blockSize: nat)
    requires blockSize > 0 && remaining > 0
    ensures var r := Lengths(remaining, blockSize);
      && Sum(r) == remaining
      && |r| == (remaining + blockSize - 1) / blockSize
      && r[|r| - 1] == (if remaining % blockSize == 0 then blockSize else remaining % blockSize)
  {
    LengthsSum(remaining, blockSize);
    LengthsCount(remaining, blockSize);
    LengthsLast(remaining, blockSize);
  }

  /** The read sizes add up to the range, whatever its sign: a range of at
      most one block is a single read of itself. */
  lemma {:induction false} LengthsSum(remaining: int, blockSize: nat)
    requires blockSize > 0
    ensures Sum(Lengths(remaining, blockSize)) == remaining
    decreases remaining
  {
    var r := Lengths(remaining, blockSize);
    if remaining > blockSize {
      LengthsSum(remaining - blockSize, blockSize);
      assert r[1..] == Lengths(remaining - blockSize, blockSize);
    }
  }

  lemma {:induction false} LengthsCount(remaining: int, blockSize: nat)
    requires blockSize > 0 && remaining > 0
    ensures |Lengths(remaining, blockSize)| == (remaining + blockSize - 1) / blockSize
    decreases remaining
  {
    if remaining <= blockSize {
      DivUnique(remaining + blockSize - 1, blockSize, 1, remaining - 1);
    } else {
      var rest := remaining - blockSize;
      LengthsCount(rest, blockSize);
      assert Lengths(remaining, blockSize) == [blockSize] + Lengths(rest, blockSize);
      DivShift(rest + blockSize - 1, blockSize);
    }
  }

  lemma {:induction false} LengthsLast(remaining: int, blockSize: nat)
    requires blockSize > 0 && remaining > 0
    ensures var r := Lengths(remaining, blockSize);
      r[|r| - 1] == (if remaining % blockSize == 0 then blockSize else remaining % blockSize)
    decreases remaining
  {
    if remaining < blockSize {
      DivUnique(remaining, blockSize, 0, remaining);
    } else if remaining == blockSize {
      DivUnique(remaining, blockSize, 1, 0);
    } else {
      var rest := remaining - blockSize;
      LengthsLast(rest, blockSize);
      var r := Lengths(remaining, blockSize);
      assert r == [blockSize] + Lengths(rest, blockSize);
      DivShift(rest, blockSize);
    }
  }

  /** Every length before index k is a full block, so the first k reads
      cover k * blockSize bytes. */
  lemma {:induction false} FullPrefixSum(lens: seq<int>, blockSize: nat, k: nat)
    requires k <= |lens|
    requires forall i :: 0 <= i < k ==> lens[i] == blockSize
    ensures Sum(lens[..k]) == k * blockSize
  {
    if k > 0 {
      assert lens[..k][1..] == lens[1..][..k - 1];
      FullPrefixSum(lens[1..], blockSize, k - 1);
    }
  }

  /** Read k asks for a full block, or for what the reads before it left
      when that fits in one; it is the last read exactly when it does fit. */
  lemma {:induction false} LengthsAt(remaining: int, blockSize: nat, k: nat)
    requires blockSize > 0 && k < |Lengths(remaining, blockSize)|
    ensures var lens := Lengths(remaining, blockSize);
      && lens[k] == Min(remaining - Sum(lens[..k]), blockSize)
      && (k + 1 == |lens| <==> remaining - Sum(lens[..k]) <= blockSize)
    decreases remaining
  {
    var lens := Lengths(remaining, blockSize);
    if k == 0 {
      assert lens[..k] == [];
    } else {
      var rest := Lengths(remaining - blockSize, blockSize);
      assert lens == [blockSize] + rest;
      LengthsAt(remaining - blockSize, blockSize, k - 1);
      assert lens[..k][1..] == rest[..k - 1];
      assert Sum(lens[..k]) == blockSize + Sum(rest[..k - 1]);
    }
  }
}
