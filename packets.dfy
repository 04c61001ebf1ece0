/** What the remote writes after the handshake once told to go
    (remote_script.py lines 63-71 and 78-79): for each absorbed block a `d`
    packet and, when asked, a `b` packet; then one `t` packet. */
module Packets {
  import opened Wire
  import opened Scan

  /** `hashlib.new(name, data).digest()`: the digest of `data` under the
      algorithm called `name`. The algorithms are not modelled: every
      property of this model holds for every such function. */
  type Hash = (seq<byte>, seq<byte>) -> seq<byte>

  const TAG_DIGEST: byte := 0x64  // 'd'
  const TAG_BLOCK: byte := 0x62   // 'b'
  const TAG_TOTAL: byte := 0x74   // 't'

  /** The reply that asks for the block just digested. */
  const SEND: seq<byte> := [0x73, 0x65, 0x6e, 0x64]  // "send"

  /** What follows a block's digest: nothing, or the block itself and the
      aggregate digest of every block absorbed so far. */
  datatype Served = NotAsked | Sent(block: seq<byte>, total: seq<byte>)

  /** The packets written for one absorbed block. */
  datatype Step = Step(digest: seq<byte>, served: Served)

  /** `d` + digest, then `b` + block + aggregate digest when the block was
      asked for. Digests are not length-prefixed: both ends know the
      algorithm's digest length. */
  function StepBytes(s: Step): seq<byte>
  {
    [TAG_DIGEST] + s.digest
      + match s.served
        case NotAsked => []
        case Sent(block, total) => [TAG_BLOCK] + block + total
  }

  /** The bytes of the steps written one after another, nothing between. */
  function Serialize(steps: seq<Step>): seq<byte>
  {
    if steps == [] then [] else StepBytes(steps[0]) + Serialize(steps[1..])
  }

  /** Writing two runs of steps in turn writes their bytes in turn. */
  lemma {:induction false} SerializeAppend(a: seq<Step>, b: seq<Step>)
    ensures Serialize(a + b) == Serialize(a) + Serialize(b)
  {
    if a == [] {
      assert a + b == b;
    } else {
      assert (a + b)[0] == a[0] && (a + b)[1..] == a[1..] + b;
      SerializeAppend(a[1..], b);
    }
  }

  /** The reply to the k-th `d` packet: the 4 bytes read from stdin after
      the k replies before it, all read from position `at` on (line 67). */
  function Reply(input: seq<byte>, at: nat, k: nat): (r: seq<byte>)
    ensures |r| <= 4
  {
    Read(input, at + 4 * k, 4)
  }

  /** What is written for block k of `blocks` when its reply is `reply`. */
  function StepFor(hash: Hash, name: seq<byte>, blocks: seq<seq<byte>>, k: nat, reply: seq<byte>): Step
    requires k < |blocks|
  {
    Step(hash(name, blocks[k]),
         if reply == SEND then Sent(blocks[k], hash(name, Concat(blocks[..k + 1]))) else NotAsked)
  }

  /** One step per absorbed block, in block order, the k-th answering the
      k-th 4-byte reply. */
  function Steps(hash: Hash, name: seq<byte>, blocks: seq<seq<byte>>, input: seq<byte>, at: nat): seq<Step>
  {
    seq(|blocks|, k requires 0 <= k < |blocks| => StepFor(hash, name, blocks, k, Reply(input, at, k)))
  }

  /** Where stdin stands before the k-th of the replies read from `at` on:
      every reply takes 4 bytes, or what is left of stdin. */
  function ReplyPos(input: seq<byte>, at: nat, k: nat): nat
  {
    if at + 4 * k <= |input| then at + 4 * k else if at <= |input| then |input| else at
  }

  /** Reading 4 bytes at ReplyPos reads reply k, and moves on to ReplyPos of
      the next one. */
  lemma ReplyPosStep(input: seq<byte>, at: nat, k: nat)
    ensures Read(input, ReplyPos(input, at, k), 4) == Reply(input, at, k)
    ensures ReplyPos(input, at, k + 1) == ReplyPos(input, at, k) + |Reply(input, at, k)|
  {
  }

  /** Reading one reply and then k more lands where k + 1 replies do. */
  lemma ReplyPosShift(input: seq<byte>, at: nat, k: nat)
    ensures ReplyPos(input, at + |Read(input, at, 4)|, k) == ReplyPos(input, at, k + 1)
  {
  }

  /** The steps written for `blocks` in turn when the replies are read from
      stdin position `pos` on and the aggregate already holds `absorbed`. */
  function Walk(hash: Hash, name: seq<byte>, blocks: seq<seq<byte>>, input: seq<byte>, pos: nat, absorbed: seq<byte>)
    : (r: seq<Step>)
    ensures |r| == |blocks|
    decreases |blocks|
  {
    if blocks == [] then []
    else
      var reply := Read(input, pos, 4);
      var total := absorbed + blocks[0];
      [Step(hash(name, blocks[0]), if reply == SEND then Sent(blocks[0], hash(name, total)) else NotAsked)]
        + Walk(hash, name, blocks[1..], input, pos + |reply|, total)
  }

  /** The walk writes the first block's step, then walks the rest with the
      first reply read and the first block absorbed; the aggregate of the
      whole walk is the first block, then the rest. */
  lemma {:induction false} WalkCons(hash: Hash, name: seq<byte>, blocks: seq<seq<byte>>, input: seq<byte>, pos: nat,
                                    absorbed: seq<byte>)
    requires blocks != []
    ensures var reply := Read(input, pos, 4);
      var total := absorbed + blocks[0];
      && Walk(hash, name, blocks, input, pos, absorbed)
         == [Step(hash(name, blocks[0]), if reply == SEND then Sent(blocks[0], hash(name, total)) else NotAsked)]
            + Walk(hash, name, blocks[1..], input, pos + |reply|, total)
      && absorbed + Concat(blocks) == total + Concat(blocks[1..])
  {
    ConcatCons(blocks);
    assert absorbed + (blocks[0] + Concat(blocks[1..])) == absorbed + blocks[0] + Concat(blocks[1..]);
  }

  /** Step j of the walk answers the j-th reply from `pos` on and, when asked,
      carries the aggregate of everything absorbed through block j. */
  lemma {:induction false} WalkAt(hash: Hash, name: seq<byte>, blocks: seq<seq<byte>>, input: seq<byte>, pos: nat,
                                  absorbed: seq<byte>, j: nat)
    requires j < |blocks|
    ensures Walk(hash, name, blocks, input, pos, absorbed)[j]
            == Step(hash(name, blocks[j]),
                    if Read(input, ReplyPos(input, pos, j), 4) == SEND
                    then Sent(blocks[j], hash(name, absorbed + Concat(blocks[..j + 1])))
                    else NotAsked)
    decreases j
  {
    var reply := Read(input, pos, 4);
    var total := absorbed + blocks[0];
    var rest := Walk(hash, name, blocks[1..], input, pos + |reply|, total);
    ConcatCons(blocks[..j + 1]);
    assert blocks[..j + 1][1..] == blocks[1..][..j];
    if j == 0 {
      assert blocks[1..][..0] == [];
      assert absorbed + Concat(blocks[..1]) == total;
    } else {
      WalkAt(hash, name, blocks[1..], input, pos + |reply|, total, j - 1);
      ReplyPosShift(input, pos, j - 1);
      assert Walk(hash, name, blocks, input, pos, absorbed)[j] == rest[j - 1];
      assert total + Concat(blocks[1..][..j]) == absorbed + Concat(blocks[..j + 1]);
    }
  }

  /** Walking the blocks from the first reply on, with nothing absorbed yet,
      writes the steps the blocks and replies determine. */
  lemma WalkSteps(hash: Hash, name: seq<byte>, blocks: seq<seq<byte>>, input: seq<byte>, at: nat)
    ensures Walk(hash, name, blocks, input, at, []) == Steps(hash, name, blocks, input, at)
  {
    var walk, steps := Walk(hash, name, blocks, input, at, []), Steps(hash, name, blocks, input, at);
    forall k | 0 <= k < |blocks|
      ensures walk[k] == steps[k]
    {
      WalkAt(hash, name, blocks, input, at, [], k);
      ReplyPosStep(input, at, k);
      assert [] + Concat(blocks[..k + 1]) == Concat(blocks[..k + 1]);
    }
  }
}
