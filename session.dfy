/** The whole script (remote_script.py lines 28-80): read the request, write
    the handshake, wait for `go`, then scan the file block by block in
    lockstep with the peer's replies. */
module Session {
  import opened Wire
  import opened Request
  import opened Schedule
  import opened Scan
  import opened Packets

  /** The token the peer sends to start the scan. */
  const GO: seq<byte> := [0x67, 0x6f]  // "go"

  /** What a scan produces: the steps it writes, one per absorbed block, and
      every byte absorbed into the aggregate digest. */
  datatype Outcome = Outcome(steps: seq<Step>, absorbed: seq<byte>)

  /** The scan loop (lines 56-76) from the top of an iteration: `left` bytes
      still to scan, the file at `filePos`, stdin at `pos`, and `absorbed`
      the bytes the aggregate digest has taken in so far. The iteration asks
      for a full block, or for what is left when that fits in one. */
  function ScanFrom(hash: Hash, name: seq<byte>, input: seq<byte>, content: seq<byte>, blockSize: nat,
                    left: int, filePos: nat, pos: nat, absorbed: seq<byte>): Outcome
    requires blockSize > 0 && left >= -1
    decreases left, 2
  {
    ScanWith(hash, name, input, content, blockSize, left, filePos, pos, absorbed, Min(left, blockSize))
  }

  /** The iteration that asks for n bytes: it stops without absorbing at a
      short read, and otherwise goes on with the block it read. */
  function ScanWith(hash: Hash, name: seq<byte>, input: seq<byte>, content: seq<byte>, blockSize: nat,
                    left: int, filePos: nat, pos: nat, absorbed: seq<byte>, n: int): Outcome
    requires blockSize > 0 && left >= -1 && n == Min(left, blockSize)
    decreases left, 1
  {
    var block := FileRead(content, filePos, n);
    if |block| != n then Outcome([], absorbed)
    else Absorb(hash, name, input, content, blockSize, left, filePos, pos, absorbed, block)
  }

  /** The rest of the iteration once a full block is read: absorb it, write
      its digest, read the 4-byte reply and write the block when asked; then
      stop once nothing is left. */
  function Absorb(hash: Hash, name: seq<byte>, input: seq<byte>, content: seq<byte>, blockSize: nat,
                  left: int, filePos: nat, pos: nat, absorbed: seq<byte>, block: seq<byte>): Outcome
    requires blockSize > 0 && |block| == Min(left, blockSize)
    decreases left, 0
  {
    var reply := Read(input, pos, 4);
    var total := absorbed + block;
    var step := Step(hash(name, block), if reply == SEND then Sent(block, hash(name, total)) else NotAsked);
    if left - |block| == 0 then Outcome([step], total)
    else
      var rest := ScanFrom(hash, name, input, content, blockSize, left - |block|, filePos + |block|, pos + |reply|, total);
      Outcome([step] + rest.steps, rest.absorbed)
  }

  /** How the script ends. */
  datatype Ending =
    | Unreadable  // fewer than 40 request bytes, or a name length `read` refuses: the script raises before writing anything
    | Declined    // the two bytes after the request are not `go`
    | SeekFailed  // the start of the scan is beyond what `seek` accepts (line 55): it raises, and nothing follows the handshake
    | ReadRefused // the start is two or more bytes past the size, so the first `read` (line 59) gets a count below -1 and raises
    | Scanned(steps: seq<Step>, total: seq<byte>)  // one step per absorbed block, then the aggregate digest

  /** What the script writes: the handshake (sanity hash, then the observed
      size), then the scan, if there is one. */
  datatype Run = Run(handshake: seq<byte>, ending: Ending)

  function Output(run: Run): seq<byte>
  {
    run.handshake
      + match run.ending
        case Scanned(steps, total) => Serialize(steps) + [TAG_TOTAL] + total
        case _ => []
  }

  /** The script loops forever when it scans with a zero block size, so the
      model asks for a positive block size whenever `go` starts the scan. */
  predicate BlockSizePositive(input: seq<byte>)
  {
    match ParseRequest(input)
    case None => true
    case Some((req, next)) => Read(input, next, 2) == GO ==> req.header.blockSize > 0
  }

  /** The byte the scan starts at. */
  function ScanStart(h: Header): nat
  {
    h.offsetBlocks * h.blockSize
  }

  /** The run of the script on stdin `input`, a file of `size` bytes when the
      handshake looks at it and holding `content` when the scan reads it. */
  function Transcript(hash: Hash, input: seq<byte>, size: FileSize, content: seq<byte>): Run
    requires BlockSizePositive(input)
  {
    match ParseRequest(input)
    case None => Run([], Unreadable)
    case Some((req, next)) =>
      var handshake := hash(req.hashname, req.filename) + EncodeU64(size);
      if Read(input, next, 2) != GO then Run(handshake, Declined)
      else
        var start := ScanStart(req.header);
        if start >= I64_BOUND then Run(handshake, SeekFailed)
        else if size - start < -1 then Run(handshake, ReadRefused)
        else
          var scan := ScanFrom(hash, req.hashname, input, content, req.header.blockSize,
                               size - start, start, next + |GO|, []);
          Run(handshake, Scanned(scan.steps, hash(req.hashname, scan.absorbed)))
  }

  /** Runs the script: the bytes it writes to stdout, in order. */
  method Serve(hash: Hash, input: seq<byte>, size: FileSize, content: seq<byte>) returns (out: seq<byte>)
    requires BlockSizePositive(input)
    ensures out == Output(Transcript(hash, input, size, content))
  {
    var parsed := ParseRequest(input);
    if parsed.None? {
      return [];
    }
    var req, next := parsed.value.0, parsed.value.1;
    out := hash(req.hashname, req.filename);
    out := out + EncodeU64(size);
    var token := Read(input, next, 2);
    if token != GO {
      return;
    }
    var start := ScanStart(req.header);
    if start >= I64_BOUND {
      return;
    }
    if size - start < -1 {
      return;  // the loop's first `read` raises
    }
    TranscriptScans(hash, input, size, content);
    var pos := next + |GO|;
    var scan := ScanFile(hash, req.hashname, input, pos, content, start, size - start, req.header.blockSize);
    out := out + scan;
  }

  /** Once `go` arrives, the script writes the handshake and then the whole
      scan from the block the header names, with the replies read from just
      after `go`. */
  lemma {:induction false} TranscriptScans(hash: Hash, input: seq<byte>, size: FileSize, content: seq<byte>)
    requires BlockSizePositive(input) && ParseRequest(input).Some?
    requires Read(input, ParseRequest(input).value.1, 2) == GO
    requires ScanStart(ParseRequest(input).value.0.header) < I64_BOUND
    requires ScanStart(ParseRequest(input).value.0.header) <= size + 1
    ensures var req, next := ParseRequest(input).value.0, ParseRequest(input).value.1;
      && req.header.blockSize > 0
      && var scan := ScanFrom(hash, req.hashname, input, content, req.header.blockSize,
                              size - ScanStart(req.header), ScanStart(req.header), next + |GO|, []);
         Output(Transcript(hash, input, size, content))
         == hash(req.hashname, req.filename) + EncodeU64(size)
            + (Serialize(scan.steps) + [TAG_TOTAL] + hash(req.hashname, scan.absorbed))
  {
  }

  /** The scan loop (lines 53-80) from byte `start` of a file holding
      `content`, with `remaining` bytes to go and the peer's replies read
      from stdin position `at` on: the packets it writes, the final `t`
      packet included. */
  method ScanFile(hash: Hash, name: seq<byte>, input: seq<byte>, at: nat, content: seq<byte>,
                  start: nat, remaining: int, blockSize: nat) returns (out: seq<byte>)
    requires blockSize > 0 && remaining >= -1
    ensures var scan := ScanFrom(hash, name, input, content, blockSize, remaining, start, at, []);
      out == Serialize(scan.steps) + [TAG_TOTAL] + hash(name, scan.absorbed)
  {
    var total: seq<byte> := [];  // what `hash_total` has absorbed
    var readRemain := remaining;
    var rBlockSize: int := blockSize;
    var filePos: nat := start;
    var pos: nat := at;
    ghost var whole := ScanFrom(hash, name, input, content, blockSize, remaining, start, at, []);
    out := [];
    assert [] + Serialize(whole.steps) == Serialize(whole.steps);
    while true
      invariant rBlockSize == blockSize && readRemain >= -1
      invariant Scanning(hash, name, input, content, blockSize, whole, readRemain, filePos, pos, total, out)
      decreases readRemain
    {
      ghost var left, filePos0, pos0, absorbed, before := readRemain, filePos, pos, total, out;
      if readRemain <= blockSize {
        rBlockSize := readRemain;
      }
      var block := FileRead(content, filePos, rBlockSize);
      if |block| != rBlockSize {
        ScanShort(hash, name, input, content, blockSize, whole, readRemain, filePos, pos, total, out);
        break;
      }
      total := total + block;
      out := out + [TAG_DIGEST] + hash(name, block);
      var reply := Read(input, pos, 4);
      pos := pos + |reply|;
      if reply == SEND {
        out := out + [TAG_BLOCK] + block + hash(name, total);
      }
      filePos := filePos + |block|;
      readRemain := readRemain - rBlockSize;
      ScanStep(hash, name, input, content, blockSize, whole, left, filePos0, pos0, absorbed, before,
               block, reply, readRemain, filePos, pos, total, out);
      if readRemain == 0 {
        break;
      }
    }
    out := out + [TAG_TOTAL] + hash(name, total);
  }

  /** The loop invariant of ScanFile: the bytes written so far followed by
      the steps of the scan from the current state are the steps of the whole
      scan, and the scan from here absorbs what the whole scan does. */
  predicate Scanning(hash: Hash, name: seq<byte>, input: seq<byte>, content: seq<byte>, blockSize: nat,
                     whole: Outcome, left: int, filePos: nat, pos: nat, absorbed: seq<byte>, out: seq<byte>)
    requires blockSize > 0 && left >= -1
  {
    var rest := ScanFrom(hash, name, input, content, blockSize, left, filePos, pos, absorbed);
    out + Serialize(rest.steps) == Serialize(whole.steps) && rest.absorbed == whole.absorbed
  }

  /** A short read ends the scan without a step and without absorbing. */
  lemma {:induction false} ScanStops(hash: Hash, name: seq<byte>, input: seq<byte>, content: seq<byte>, blockSize: nat,
                  left: int, filePos: nat, pos: nat, absorbed: seq<byte>)
    requires blockSize > 0 && left >= -1
    requires |FileRead(content, filePos, Min(left, blockSize))| != Min(left, blockSize)
    ensures ScanFrom(hash, name, input, content, blockSize, left, filePos, pos, absorbed) == Outcome([], absorbed)
  {
    assert ScanFrom(hash, name, input, content, blockSize, left, filePos, pos, absorbed)
        == ScanWith(hash, name, input, content, blockSize, left, filePos, pos, absorbed, Min(left, blockSize));
  }

  /** At a short read the loop has written everything but the `t` packet,
      and the aggregate has absorbed all it will. */
  lemma {:induction false} ScanShort(hash: Hash, name: seq<byte>, input: seq<byte>, content: seq<byte>, blockSize: nat,
                  whole: Outcome, left: int, filePos: nat, pos: nat, absorbed: seq<byte>, out: seq<byte>)
    requires blockSize > 0 && left >= -1
    requires Scanning(hash, name, input, content, blockSize, whole, left, filePos, pos, absorbed, out)
    requires |FileRead(content, filePos, Min(left, blockSize))| != Min(left, blockSize)
    ensures out == Serialize(whole.steps) && absorbed == whole.absorbed
  {
    ScanStops(hash, name, input, content, blockSize, left, filePos, pos, absorbed);
    assert out + [] == out;
  }

  /** One iteration of the scan loop that reads a full block and then the
      reply keeps the invariant, or, when nothing is left, has written every
      step of the scan. */
  lemma {:induction false} ScanStep(hash: Hash, name: seq<byte>, input: seq<byte>, content: seq<byte>, blockSize: nat, whole: Outcome,
                 left: int, filePos: nat, pos: nat, absorbed: seq<byte>, before: seq<byte>,
                 block: seq<byte>, reply: seq<byte>,
                 left': int, filePos': nat, pos': nat, absorbed': seq<byte>, after: seq<byte>)
    requires blockSize > 0 && left >= -1
    requires Scanning(hash, name, input, content, blockSize, whole, left, filePos, pos, absorbed, before)
    requires block == FileRead(content, filePos, Min(left, blockSize)) && |block| == Min(left, blockSize)
    requires reply == Read(input, pos, 4)
    requires left' == left - |block| && filePos' == filePos + |block| && pos' == pos + |reply| && absorbed' == absorbed + block
    requires after == if reply == SEND
                      then before + [TAG_DIGEST] + hash(name, block) + [TAG_BLOCK] + block + hash(name, absorbed')
                      else before + [TAG_DIGEST] + hash(name, block)
    ensures left' == 0 ==> after == Serialize(whole.steps) && absorbed' == whole.absorbed
    ensures left' != 0 ==> Scanning(hash, name, input, content, blockSize, whole, left', filePos', pos', absorbed', after)
  {
    var scan := ScanFrom(hash, name, input, content, blockSize, left, filePos, pos, absorbed);
    ScanUnfold(hash, name, input, content, blockSize, left, filePos, pos, absorbed, block);
    var step := Step(hash(name, block), if reply == SEND then Sent(block, hash(name, absorbed')) else NotAsked);
    var rest: seq<Step> := [];
    if left' != 0 {
      var next := ScanFrom(hash, name, input, content, blockSize, left', filePos', pos', absorbed');
      assert scan == Outcome([step] + next.steps, next.absorbed);
      rest := next.steps;
      assert scan.steps[1..] == rest;
    } else {
      assert scan == Outcome([step], absorbed');
      assert scan.steps[1..] == rest;
    }
    WriteStep(scan.steps, before, hash(name, block), block, hash(name, absorbed'), reply == SEND, after);
    assert after + [] == after;
  }

  /** Writing the first step's bytes, as the loop body writes them, leaves
      the rest of the steps to write. */
  lemma {:induction false} WriteStep(steps: seq<Step>, before: seq<byte>, digest: seq<byte>, block: seq<byte>, total: seq<byte>,
                  sent: bool, after: seq<byte>)
    requires steps != [] && steps[0] == Step(digest, if sent then Sent(block, total) else NotAsked)
    requires after == if sent then before + [TAG_DIGEST] + digest + [TAG_BLOCK] + block + total
                      else before + [TAG_DIGEST] + digest
    ensures after + Serialize(steps[1..]) == before + Serialize(steps)
  {
    var bytes := StepBytes(steps[0]);
    if sent {
      assert after == before + ([TAG_DIGEST] + digest + ([TAG_BLOCK] + block + total));
    } else {
      assert after == before + ([TAG_DIGEST] + digest + []);
    }
    assert after == before + bytes;
    assert after + Serialize(steps[1..]) == before + (bytes + Serialize(steps[1..]));
  }

  /** An iteration that reads a full block writes its step first; the scan
      ends there when nothing is left, and otherwise goes on past the block
      and its reply with the block absorbed. */
  lemma {:induction false} ScanUnfold(hash: Hash, name: seq<byte>, input: seq<byte>, content: seq<byte>, blockSize: nat,
                   left: int, filePos: nat, pos: nat, absorbed: seq<byte>, block: seq<byte>)
    requires blockSize > 0 && left >= -1
    requires block == FileRead(content, filePos, Min(left, blockSize)) && |block| == Min(left, blockSize)
    ensures var reply := Read(input, pos, 4);
      var step := Step(hash(name, block),
                       if reply == SEND then Sent(block, hash(name, absorbed + block)) else NotAsked);
      var scan := ScanFrom(hash, name, input, content, blockSize, left, filePos, pos, absorbed);
      && (left == |block| ==> scan == Outcome([step], absorbed + block))
      && (left != |block| ==>
            var rest := ScanFrom(hash, name, input, content, blockSize, left - |block|, filePos + |block|,
                                 pos + |reply|, absorbed + block);
            scan == Outcome([step] + rest.steps, rest.absorbed))
  {
    assert ScanFrom(hash, name, input, content, blockSize, left, filePos, pos, absorbed)
        == ScanWith(hash, name, input, content, blockSize, left, filePos, pos, absorbed, Min(left, blockSize))
        == Absorb(hash, name, input, content, blockSize, left, filePos, pos, absorbed, block);
  }

  /** The scan from any iteration writes the steps a walk over the blocks
      the schedule absorbs writes, and absorbs those blocks. */
  lemma {:induction false} ScanFollows(hash: Hash, name: seq<byte>, input: seq<byte>, content: seq<byte>, blockSize: nat,
                                       left: int, filePos: nat, pos: nat, absorbed: seq<byte>)
    requires blockSize > 0 && left >= -1
    ensures var blocks := Blocks(content, filePos, Lengths(left, blockSize));
      ScanFrom(hash, name, input, content, blockSize, left, filePos, pos, absorbed)
      == Outcome(Walk(hash, name, blocks, input, pos, absorbed), absorbed + Concat(blocks))
    decreases left
  {
    var n := Min(left, blockSize);
    var block := FileRead(content, filePos, n);
    if |block| == n && left != n {
      assert n == blockSize < left;
      ScanFollows(hash, name, input, content, blockSize, left - n, filePos + n, pos + |Read(input, pos, 4)|, absorbed + block);
    }
    ScanFollowsStep(hash, name, input, content, blockSize, left, filePos, pos, absorbed);
  }

  /** One iteration of the scan against one step of the walk: a short read
      ends both, a last block ends both after its step, and otherwise both
      go on from the same place. */
  lemma {:induction false} ScanFollowsStep(hash: Hash, name: seq<byte>, input: seq<byte>, content: seq<byte>, blockSize: nat,
                                           left: int, filePos: nat, pos: nat, absorbed: seq<byte>)
    requires blockSize > 0 && left >= -1
    requires var n := Min(left, blockSize);
      var block := FileRead(content, filePos, n);
      |block| == n && left != n ==>
        var blocks' := Blocks(content, filePos + n, Lengths(left - n, blockSize));
        var pos', absorbed' := pos + |Read(input, pos, 4)|, absorbed + block;
        ScanFrom(hash, name, input, content, blockSize, left - n, filePos + n, pos', absorbed')
        == Outcome(Walk(hash, name, blocks', input, pos', absorbed'), absorbed' + Concat(blocks'))
    ensures var blocks := Blocks(content, filePos, Lengths(left, blockSize));
      ScanFrom(hash, name, input, content, blockSize, left, filePos, pos, absorbed)
      == Outcome(Walk(hash, name, blocks, input, pos, absorbed), absorbed + Concat(blocks))
  {
    var n := Min(left, blockSize);
    var block := FileRead(content, filePos, n);
    if |block| != n {
      FollowsShort(hash, name, input, content, blockSize, left, filePos, pos, absorbed);
    } else if left == n {
      FollowsLast(hash, name, input, content, blockSize, left, filePos, pos, absorbed);
    } else {
      FollowsNext(hash, name, input, content, blockSize, left, filePos, pos, absorbed);
    }
  }

  /** A short read ends the scan and the walk, with nothing absorbed. */
  lemma {:induction false} FollowsShort(hash: Hash, name: seq<byte>, input: seq<byte>, content: seq<byte>, blockSize: nat,
                                        left: int, filePos: nat, pos: nat, absorbed: seq<byte>)
    requires blockSize > 0 && left >= -1
    requires |FileRead(content, filePos, Min(left, blockSize))| != Min(left, blockSize)
    ensures var blocks := Blocks(content, filePos, Lengths(left, blockSize));
      ScanFrom(hash, name, input, content, blockSize, left, filePos, pos, absorbed)
      == Outcome(Walk(hash, name, blocks, input, pos, absorbed), absorbed + Concat(blocks))
  {
    var blocks := Blocks(content, filePos, Lengths(left, blockSize));
    BlocksCons(content, filePos, left, blockSize);
    ScanStops(hash, name, input, content, blockSize, left, filePos, pos, absorbed);
    assert blocks == [] && Walk(hash, name, blocks, input, pos, absorbed) == [];
    assert absorbed + Concat(blocks) == absorbed;
  }

  /** A last block that reads in full is the walk's only step. */
  lemma {:induction false} FollowsLast(hash: Hash, name: seq<byte>, input: seq<byte>, content: seq<byte>, blockSize: nat,
                                       left: int, filePos: nat, pos: nat, absorbed: seq<byte>)
    requires blockSize > 0 && -1 <= left <= blockSize
    requires |FileRead(content, filePos, left)| == left
    ensures var blocks := Blocks(content, filePos, Lengths(left, blockSize));
      ScanFrom(hash, name, input, content, blockSize, left, filePos, pos, absorbed)
      == Outcome(Walk(hash, name, blocks, input, pos, absorbed), absorbed + Concat(blocks))
  {
    var blocks := Blocks(content, filePos, Lengths(left, blockSize));
    var block := FileRead(content, filePos, left);
    BlocksCons(content, filePos, left, blockSize);
    ScanUnfold(hash, name, input, content, blockSize, left, filePos, pos, absorbed, block);
    WalkCons(hash, name, blocks, input, pos, absorbed);
    assert blocks[1..] == [] && Concat(blocks[1..]) == [];
    assert absorbed + block + [] == absorbed + block;
  }

  /** A full block with more to come: the scan and the walk both write its
      step and go on from the same place. */
  lemma {:induction false} FollowsNext(hash: Hash, name: seq<byte>, input: seq<byte>, content: seq<byte>, blockSize: nat,
                                       left: int, filePos: nat, pos: nat, absorbed: seq<byte>)
    requires blockSize > 0 && left >= -1
    requires var n := Min(left, blockSize);
      var block := FileRead(content, filePos, n);
      && |block| == n && left != n
      && var blocks' := Blocks(content, filePos + n, Lengths(left - n, blockSize));
         var pos', absorbed' := pos + |Read(input, pos, 4)|, absorbed + block;
         ScanFrom(hash, name, input, content, blockSize, left - n, filePos + n, pos', absorbed')
         == Outcome(Walk(hash, name, blocks', input, pos', absorbed'), absorbed' + Concat(blocks'))
    ensures var blocks := Blocks(content, filePos, Lengths(left, blockSize));
      ScanFrom(hash, name, input, content, blockSize, left, filePos, pos, absorbed)
      == Outcome(Walk(hash, name, blocks, input, pos, absorbed), absorbed + Concat(blocks))
  {
    var n := Min(left, blockSize);
    var blocks := Blocks(content, filePos, Lengths(left, blockSize));
    var block := FileRead(content, filePos, n);
    var reply := Read(input, pos, 4);
    var total := absorbed + block;
    var tail := Blocks(content, filePos + n, Lengths(left - n, blockSize));
    var step := Step(hash(name, block), if reply == SEND then Sent(block, hash(name, total)) else NotAsked);
    var rest := ScanFrom(hash, name, input, content, blockSize, left - n, filePos + n, pos + |reply|, total);
    BlocksCons(content, filePos, left, blockSize);
    assert blocks != [] && blocks[0] == block && blocks[1..] == tail;
    ScanUnfold(hash, name, input, content, blockSize, left, filePos, pos, absorbed, block);
    assert left - |block| == left - n && filePos + |block| == filePos + n;
    assert ScanFrom(hash, name, input, content, blockSize, left, filePos, pos, absorbed)
        == Outcome([step] + rest.steps, rest.absorbed);
    WalkCons(hash, name, blocks, input, pos, absorbed);
    assert Walk(hash, name, blocks, input, pos, absorbed)
        == [step] + Walk(hash, name, tail, input, pos + |reply|, total);
    assert absorbed + Concat(blocks) == total + Concat(tail);
  }

  /** The scan of a file from `start` with `remaining` bytes to go and the
      replies read from `at` on writes one step per block the schedule
      absorbs, the k-th answering the k-th reply, and the aggregate takes in
      every absorbed block. */
  lemma {:induction false} ScanMatches(hash: Hash, name: seq<byte>, input: seq<byte>, content: seq<byte>, blockSize: nat,
                                       remaining: int, start: nat, at: nat)
    requires blockSize > 0 && remaining >= -1
    ensures var blocks := Blocks(content, start, Lengths(remaining, blockSize));
      ScanFrom(hash, name, input, content, blockSize, remaining, start, at, [])
      == Outcome(Steps(hash, name, blocks, input, at), Concat(blocks))
  {
    var blocks := Blocks(content, start, Lengths(remaining, blockSize));
    ScanFollows(hash, name, input, content, blockSize, remaining, start, at, []);
    WalkSteps(hash, name, blocks, input, at);
    assert [] + Concat(blocks) == Concat(blocks);
  }

  /** The script writes nothing at all exactly when the request cannot be
      read: fewer than 40 bytes arrive, or a name length is too large for
      `read`. Otherwise it first writes the sanity hash of the file name and
      then the observed size, which the peer decodes back. */
  lemma {:induction false} HandshakeFirst(hash: Hash, input: seq<byte>, size: FileSize, content: seq<byte>)
    requires BlockSizePositive(input)
    ensures var run := Transcript(hash, input, size, content);
      && (run.ending == Unreadable <==> |input| < HEADER_SIZE || !Readable(DecodeHeader(input[..HEADER_SIZE])))
      && (run.ending == Unreadable ==> Output(run) == [])
      && (run.ending != Unreadable ==>
            var req := ParseRequest(input).value.0;
            var digest := hash(req.hashname, req.filename);
            && run.handshake == digest + EncodeU64(size)
            && DecodeU64(run.handshake[|digest|..]) == size
            && Output(run)[..|run.handshake|] == run.handshake)
  {
    if ParseRequest(input).Some? {
      var run := Transcript(hash, input, size, content);
      var req := ParseRequest(input).value.0;
      var digest := hash(req.hashname, req.filename);
      assert run.handshake[|digest|..] == EncodeU64(size);
      U64RoundTrip(size);
    }
  }

  /** The handshake depends on the request and the file's size only, never
      on what the file holds. */
  lemma {:induction false} HandshakeIgnoresContents(hash: Hash, input: seq<byte>, size: FileSize,
                                                    content: seq<byte>, content': seq<byte>)
    requires BlockSizePositive(input)
    ensures Transcript(hash, input, size, content).handshake == Transcript(hash, input, size, content').handshake
  {
  }

  /** Anything but `go` after the request, a token cut short by the end of
      stdin included, ends the script after the handshake. */
  lemma {:induction false} DeclineWritesNothing(hash: Hash, input: seq<byte>, size: FileSize, content: seq<byte>)
    requires BlockSizePositive(input) && ParseRequest(input).Some?
    requires var next := ParseRequest(input).value.1;
      Read(input, next, 2) != GO || next + 2 > |input|
    ensures var run := Transcript(hash, input, size, content);
      run.ending == Declined && Output(run) == run.handshake
  {
    var next := ParseRequest(input).value.1;
    assert |Read(input, next, 2)| == 2 ==> next + 2 <= |input|;
    var run := Transcript(hash, input, size, content);
    assert run.handshake + [] == run.handshake;
  }

  /** After `go`, the scan starts at block `offsetBlocks` and covers the
      rest of the file the handshake measured: one step per absorbed block
      in order, step k answering the k-th 4-byte reply after `go`, then the
      digest of every absorbed block. */
  lemma {:induction false} ScanAfterGo(hash: Hash, input: seq<byte>, size: FileSize, content: seq<byte>)
    requires BlockSizePositive(input) && ParseRequest(input).Some?
    requires Read(input, ParseRequest(input).value.1, 2) == GO
    requires ScanStart(ParseRequest(input).value.0.header) < I64_BOUND
    requires ScanStart(ParseRequest(input).value.0.header) <= size + 1
    ensures var req, next := ParseRequest(input).value.0, ParseRequest(input).value.1;
      var start := ScanStart(req.header);
      var blocks := Blocks(content, start, Lengths(size - start, req.header.blockSize));
      Transcript(hash, input, size, content)
      == Run(hash(req.hashname, req.filename) + EncodeU64(size),
             Scanned(Steps(hash, req.hashname, blocks, input, next + |GO|), hash(req.hashname, Concat(blocks))))
  {
    var req, next := ParseRequest(input).value.0, ParseRequest(input).value.1;
    var start := ScanStart(req.header);
    var blockSize := req.header.blockSize;
    assert blockSize > 0;
    var scan := ScanFrom(hash, req.hashname, input, content, blockSize, size - start, start, next + |GO|, []);
    assert Transcript(hash, input, size, content)
        == Run(hash(req.hashname, req.filename) + EncodeU64(size),
               Scanned(scan.steps, hash(req.hashname, scan.absorbed)));
    ScanMatches(hash, req.hashname, input, content, blockSize, size - start, start, next + |GO|);
  }

  /** When the file still holds every byte up to the size the handshake
      measured and the scan starts before it, the scan writes
      ceil((size - start) / blockSize) steps and the final digest covers
      exactly the bytes from the start block to the end. */
  lemma {:induction false} ScanWholeRange(hash: Hash, input: seq<byte>, size: FileSize, content: seq<byte>)
    requires BlockSizePositive(input) && ParseRequest(input).Some?
    requires Read(input, ParseRequest(input).value.1, 2) == GO
    requires ScanStart(ParseRequest(input).value.0.header) < size <= |content|
    ensures var req := ParseRequest(input).value.0;
      var start, blockSize := ScanStart(req.header), req.header.blockSize;
      var run := Transcript(hash, input, size, content);
      && run.ending.Scanned?
      && |run.ending.steps| == (size - start + blockSize - 1) / blockSize
      && run.ending.total == hash(req.hashname, content[start..size])
  {
    var req, next := ParseRequest(input).value.0, ParseRequest(input).value.1;
    var start := ScanStart(req.header);
    ScanAfterGo(hash, input, size, content);
    StepsCover(hash, req.hashname, input, next + |GO|, content, start, size, req.header.blockSize);
  }

  /** The steps and the aggregate of a scan over a range the file holds in
      full: one step per scheduled read, and the aggregate of the range. */
  lemma {:induction false} StepsCover(hash: Hash, name: seq<byte>, input: seq<byte>, at: nat, content: seq<byte>,
                                      start: nat, end: nat, blockSize: nat)
    requires blockSize > 0 && start < end <= |content|
    ensures var blocks := Blocks(content, start, Lengths(end - start, blockSize));
      && |Steps(hash, name, blocks, input, at)| == (end - start + blockSize - 1) / blockSize
      && hash(name, Concat(blocks)) == hash(name, content[start..end])
  {
    ScanCovers(content, start, end - start, blockSize);
    assert start + (end - start) == end;
  }

  /** A scan that starts exactly at the end of the file the handshake
      measured writes one step, for an empty block; one that starts one byte
      past it reads with a count of -1 and writes no step. Either way the
      final digest is that of nothing. */
  lemma {:induction false} ScanEmptyRange(hash: Hash, input: seq<byte>, size: FileSize, content: seq<byte>)
    requires BlockSizePositive(input) && ParseRequest(input).Some?
    requires Read(input, ParseRequest(input).value.1, 2) == GO
    requires size <= ScanStart(ParseRequest(input).value.0.header) <= size + 1
    requires ScanStart(ParseRequest(input).value.0.header) < I64_BOUND
    ensures var req := ParseRequest(input).value.0;
      var run := Transcript(hash, input, size, content);
      && run.ending.Scanned?
      && run.ending.total == hash(req.hashname, [])
      && |run.ending.steps| == (if size == ScanStart(req.header) then 1 else 0)
      && (size == ScanStart(req.header) ==> run.ending.steps[0].digest == hash(req.hashname, []))
  {
    var req := ParseRequest(input).value.0;
    var start := ScanStart(req.header);
    ScanAfterGo(hash, input, size, content);
    if size == start {
      EmptyRange(content, start, req.header.blockSize);
      assert Concat([[]]) == [];
    } else {
      NegativeRange(content, start, size - start, req.header.blockSize);
    }
  }

  /** A start beyond what `seek` accepts raises after the handshake: nothing
      else is written, not even the `t` packet. */
  lemma {:induction false} SeekOutOfRange(hash: Hash, input: seq<byte>, size: FileSize, content: seq<byte>)
    requires BlockSizePositive(input) && ParseRequest(input).Some?
    requires Read(input, ParseRequest(input).value.1, 2) == GO
    requires ScanStart(ParseRequest(input).value.0.header) >= I64_BOUND
    ensures var run := Transcript(hash, input, size, content);
      run.ending == SeekFailed && Output(run) == run.handshake
  {
    var run := Transcript(hash, input, size, content);
    assert run.handshake + [] == run.handshake;
  }

  /** A start two or more bytes past the measured size gives the loop's
      first `read` a count below -1, which it refuses by raising: nothing
      follows the handshake, not even the `t` packet. */
  lemma {:induction false} ReadRefusedPastEnd(hash: Hash, input: seq<byte>, size: FileSize, content: seq<byte>)
    requires BlockSizePositive(input) && ParseRequest(input).Some?
    requires Read(input, ParseRequest(input).value.1, 2) == GO
    requires size + 2 <= ScanStart(ParseRequest(input).value.0.header) < I64_BOUND
    ensures var run := Transcript(hash, input, size, content);
      run.ending == ReadRefused && Output(run) == run.handshake
  {
    var run := Transcript(hash, input, size, content);
    assert run.handshake + [] == run.handshake;
  }
}
