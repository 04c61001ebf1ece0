/** The file side of the scan (remote_script.py lines 50-62 and 72-74): the
    blocks the loop reads from the file and absorbs into the aggregate digest. */
module Scan {
  import opened Wire
  import opened Schedule

  /** `f.read(n)` on the file whose bytes are `content`, positioned at `pos`.
      A count of -1 reads to the end of the file, and the scan only compares
      the length of that result with -1, which no length equals. A count
      below -1 is not a read at all: the buffered file refuses it with
      ValueError, so it has no result here. */
  function FileRead(content: seq<byte>, pos: nat, n: int): (r: seq<byte>)
    requires n >= -1
    ensures n >= 0 ==> r == Read(content, pos, n)
    ensures |r| == n ==> n >= 0
  {
    if n < 0 then Read(content, pos, |content|) else Read(content, pos, n)
  }

  /** The blocks the scan absorbs reading from `pos` with the read sizes
      `lens` in turn: every read returning all it asked for, up to the first
      short read, which ends the scan and is not absorbed (lines 59-62). */
  function Blocks(content: seq<byte>, pos: nat, lens: seq<int>): (r: seq<seq<byte>>)
    ensures |r| <= |lens|
    decreases |lens|
  {
    if lens == [] || lens[0] < -1 then []
    else
      var b := FileRead(content, pos, lens[0]);
      if |b| != lens[0] then [] else [b] + Blocks(content, pos + |b|, lens[1..])
  }

  /** The blocks joined in order: what `hash_total` has absorbed. */
  function Concat(blocks: seq<seq<byte>>): seq<byte>
  {
    if blocks == [] then [] else Concat(blocks[..|blocks| - 1]) + blocks[|blocks| - 1]
  }

  /** Joining blocks one after the other: the first, then the rest joined. */
  lemma {:induction false} ConcatCons(blocks: seq<seq<byte>>)
    requires blocks != []
    ensures Concat(blocks) == blocks[0] + Concat(blocks[1..])
    decreases |blocks|
  {
    if |blocks| == 1 {
      assert blocks[1..] == [] && blocks[..0] == [];
    } else {
      var init := blocks[..|blocks| - 1];
      ConcatCons(init);
      assert init[1..] == blocks[1..][..|blocks[1..]| - 1];
    }
  }

  lemma {:induction false} ConcatStep(blocks: seq<seq<byte>>, k: nat)
    requires k < |blocks|
    ensures Concat(blocks[..k + 1]) == Concat(blocks[..k]) + blocks[k]
  {
    assert blocks[..k + 1][..k] == blocks[..k];
  }

  /** The first iteration of a scan of `left` bytes asks for a full block
      or for all that is left: a short read absorbs nothing, and otherwise
      its block comes first and the rest of the scan starts after it. */
  lemma {:induction false} BlocksCons(content: seq<byte>, pos: nat, left: int, blockSize: nat)
    requires blockSize > 0 && left >= -1
    ensures var n := Min(left, blockSize);
      var block := FileRead(content, pos, n);
      var blocks := Blocks(content, pos, Lengths(left, blockSize));
      && (|block| != n ==> blocks == [])
      && (|block| == n ==>
            && blocks != [] && blocks[0] == block
            && (left == n ==> blocks[1..] == [])
            && (left != n ==> blocks[1..] == Blocks(content, pos + n, Lengths(left - n, blockSize))))
  {
    var lens := Lengths(left, blockSize);
    if left <= blockSize {
      assert lens == [left];
    } else {
      assert lens == [blockSize] + Lengths(left - blockSize, blockSize);
    }
  }

  lemma {:induction false} SumNonNegative(lens: seq<int>)
    requires forall i :: 0 <= i < |lens| ==> lens[i] >= 0
    ensures Sum(lens) >= 0
  {
    if lens != [] {
      SumNonNegative(lens[1..]);
    }
  }

  /** Block k is exactly the lens[k] bytes of the file that follow the
      blocks before it. */
  lemma {:induction false} BlockAt(content: seq<byte>, pos: nat, lens: seq<int>, k: nat)
    requires k < |Blocks(content, pos, lens)|
    ensures |Blocks(content, pos, lens)[k]| == lens[k] && Sum(lens[..k]) >= 0
    ensures Blocks(content, pos, lens)[k] == Read(content, pos + Sum(lens[..k]), lens[k])
    decreases |lens|
  {
    var blocks := Blocks(content, pos, lens);
    var b := FileRead(content, pos, lens[0]);
    assert |b| == lens[0] && blocks[0] == b;
    if k == 0 {
      assert lens[..k] == [];
    } else {
      var rest := Blocks(content, pos + |b|, lens[1..]);
      assert blocks == [b] + rest;
      BlockAt(content, pos + |b|, lens[1..], k - 1);
      assert lens[..k][1..] == lens[1..][..k - 1];
      assert Sum(lens[..k]) == |b| + Sum(lens[1..][..k - 1]);
      assert blocks[k] == rest[k - 1];
    }
  }

  /** When the reads before block k all ask for `blockSize`, block k starts
      k * blockSize bytes after `pos`. */
  lemma {:induction false} FullBlockAt(content: seq<byte>, pos: nat, lens: seq<int>, blockSize: nat, k: nat)
    requires k < |Blocks(content, pos, lens)|
    requires forall i :: 0 <= i < k ==> lens[i] == blockSize
    ensures |Blocks(content, pos, lens)[k]| == lens[k]
    ensures Blocks(content, pos, lens)[k] == Read(content, pos + k * blockSize, lens[k])
  {
    BlockAt(content, pos, lens, k);
    FullPrefixSum(lens, blockSize, k);
  }

  /** Two reads that both return all they asked for read what one read of
      both sizes would. */
  lemma {:induction false} ReadJoin(content: seq<byte>, pos: nat, x: nat, y: nat)
    requires |Read(content, pos, x)| == x && |Read(content, pos + x, y)| == y
    ensures Read(content, pos, x) + Read(content, pos + x, y) == Read(content, pos, x + y)
  {
    var front, back, whole := Read(content, pos, x), Read(content, pos + x, y), Read(content, pos, x + y);
    assert |whole| == x + y;
    forall i | 0 <= i < x + y
      ensures (front + back)[i] == whole[i]
    {
      if i >= x {
        assert back[i - x] == content[pos + x + (i - x)];
      }
    }
  }

  lemma {:induction false} SumSnoc(s: seq<int>)
    requires |s| > 0
    ensures Sum(s) == Sum(s[..|s| - 1]) + s[|s| - 1]
  {
    if |s| > 1 {
      assert s[1..][..|s| - 2] == s[..|s| - 1][1..];
      SumSnoc(s[1..]);
    } else {
      assert s[..0] == [] && s[1..] == [];
    }
  }

  /** The first j absorbed blocks are the file's bytes from `pos` on, as
      many as their reads asked for, with no gap and no overlap. */
  lemma {:induction false} ConcatPrefix(content: seq<byte>, pos: nat, lens: seq<int>, j: nat)
    requires j <= |Blocks(content, pos, lens)|
    ensures Sum(lens[..j]) >= 0
    ensures |Concat(Blocks(content, pos, lens)[..j])| == Sum(lens[..j])
    ensures Concat(Blocks(content, pos, lens)[..j]) == Read(content, pos, Sum(lens[..j]))
  {
    var blocks := Blocks(content, pos, lens);
    if j == 0 {
      assert lens[..j] == [] && blocks[..j] == [];
    } else {
      ConcatPrefix(content, pos, lens, j - 1);
      var before := Sum(lens[..j - 1]);
      ConcatStep(blocks, j - 1);
      BlockAt(content, pos, lens, j - 1);
      assert lens[..j][..j - 1] == lens[..j - 1];
      SumSnoc(lens[..j]);
      ReadJoin(content, pos, before, lens[j - 1]);
    }
  }

  /** When the file holds every byte the read sizes ask for, no read is short
      and there is one block per read size. */
  lemma {:induction false} BlocksComplete(content: seq<byte>, pos: nat, lens: seq<int>)
    requires forall i :: 0 <= i < |lens| ==> lens[i] >= 0
    requires pos + Sum(lens) <= |content|
    ensures |Blocks(content, pos, lens)| == |lens|
    decreases |lens|
  {
    if lens != [] {
      SumNonNegative(lens[1..]);
      BlocksComplete(content, pos + lens[0], lens[1..]);
    }
  }

  /** The scan stops early only at a count `read` refuses or at a read the
      file cannot satisfy. */
  lemma {:induction false} BlocksStop(content: seq<byte>, pos: nat, lens: seq<int>)
    requires |Blocks(content, pos, lens)| < |lens|
    ensures var n := |Blocks(content, pos, lens)|;
      && Sum(lens[..n]) >= 0
      && (lens[n] < -1 || |FileRead(content, pos + Sum(lens[..n]), lens[n])| != lens[n])
    decreases |lens|
  {
    var blocks := Blocks(content, pos, lens);
    var n := |blocks|;
    if n == 0 {
      assert lens[..n] == [];
    } else {
      var b := blocks[0];
      assert |b| == lens[0];
      var rest := Blocks(content, pos + |b|, lens[1..]);
      assert blocks == [b] + rest;
      BlocksStop(content, pos + |b|, lens[1..]);
      assert lens[..n][1..] == lens[1..][..n - 1];
      assert Sum(lens[..n]) == lens[0] + Sum(lens[1..][..n - 1]);
      assert lens[1..][n - 1] == lens[n];
    }
  }

  /** In a scan from `start`, block k is the lens[k] file bytes at
      start + k * blockSize: every block before it is full. */
  lemma {:induction false} ScheduledBlockAt(content: seq<byte>, start: nat, remaining: int, blockSize: nat, k: nat)
    requires blockSize > 0
    requires k < |Blocks(content, start, Lengths(remaining, blockSize))|
    ensures |Blocks(content, start, Lengths(remaining, blockSize))[k]| == Lengths(remaining, blockSize)[k]
    ensures Blocks(content, start, Lengths(remaining, blockSize))[k]
            == Read(content, start + k * blockSize, Lengths(remaining, blockSize)[k])
  {
    LengthsShape(remaining, blockSize);
    FullBlockAt(content, start, Lengths(remaining, blockSize), blockSize, k);
  }

  /** In a scan from `start`, the aggregate after absorbing block k is every
      file byte from `start` to the end of block k. */
  lemma {:induction false} ScheduledAggregate(content: seq<byte>, start: nat, remaining: int, blockSize: nat, k: nat)
    requires blockSize > 0
    requires k < |Blocks(content, start, Lengths(remaining, blockSize))|
    ensures |Blocks(content, start, Lengths(remaining, blockSize))[k]| == Lengths(remaining, blockSize)[k]
    ensures Sum(Lengths(remaining, blockSize)[..k + 1]) == k * blockSize + Lengths(remaining, blockSize)[k]
    ensures Concat(Blocks(content, start, Lengths(remaining, blockSize))[..k + 1])
            == Read(content, start, Sum(Lengths(remaining, blockSize)[..k + 1]))
  {
    var lens := Lengths(remaining, blockSize);
    LengthsShape(remaining, blockSize);
    BlockAt(content, start, lens, k);
    FullPrefixSum(lens, blockSize, k);
    SumSnoc(lens[..k + 1]);
    assert lens[..k + 1][..k] == lens[..k];
    ConcatPrefix(content, start, lens, k + 1);
  }

  /** When the file holds the whole range, every scheduled read is full:
      there are ceil(remaining / blockSize) blocks, each as long as its read
      asks, and the aggregate absorbs exactly the range. */
  lemma {:induction false} ScanCovers(content: seq<byte>, start: nat, remaining: int, blockSize: nat)
    requires blockSize > 0 && remaining > 0 && start + remaining <= |content|
    ensures var lens := Lengths(remaining, blockSize);
      var blocks := Blocks(content, start, lens);
      && |blocks| == |lens| == (remaining + blockSize - 1) / blockSize
      && Concat(blocks) == content[start..start + remaining]
  {
    var lens := Lengths(remaining, blockSize);
    var blocks := Blocks(content, start, lens);
    LengthsShape(remaining, blockSize);
    LengthsCover(remaining, blockSize);
    assert forall i :: 0 <= i < |lens| ==> lens[i] >= 0;
    BlocksComplete(content, start, lens);
    ConcatPrefix(content, start, lens, |blocks|);
    assert lens[..|blocks|] == lens && blocks[..|blocks|] == blocks;
  }

  /** An empty range is still read once: one empty block, whatever the file
      holds. */
  lemma {:induction false} EmptyRange(content: seq<byte>, start: nat, blockSize: nat)
    requires blockSize > 0
    ensures Lengths(0, blockSize) == [0] && Blocks(content, start, Lengths(0, blockSize)) == [[]]
  {
    assert FileRead(content, start, 0) == [];
  }

  /** A range that starts past its end asks for a negative count: -1 reads
      what the file holds, which never has length -1, and `read` refuses any
      smaller count. Either way nothing is absorbed. */
  lemma {:induction false} NegativeRange(content: seq<byte>, start: nat, remaining: int, blockSize: nat)
    requires blockSize > 0 && remaining < 0
    ensures Blocks(content, start, Lengths(remaining, blockSize)) == []
  {
    assert Lengths(remaining, blockSize) == [remaining];
  }
}

