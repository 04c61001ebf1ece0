# bscp remote side, modelled in Dafny

`remote_script.py` is the half of bscp that runs on the remote host. It
reads a request from stdin:
- a 40-byte header of five little-endian u64 fields;
- then the file name;
- then the hash-algorithm name.

It writes a handshake: the digest of the file name, then the file's size as a
little-endian u64. Then it waits for the two bytes `go`. After `go` it scans
the file in lockstep with the peer:
- one block at a time, starting at block `offset_blocks`;
- for each block it writes `d` plus the block's digest;
- it then reads a 4-byte reply;
- when that reply is `send`, it also writes `b`, the block, and the digest of
  everything absorbed so far.

The script finishes with `t` plus that aggregate digest.

The model makes this deterministic. Its inputs are:
- the whole of stdin, as one byte sequence: the request, the token and the
  replies;
- the size the handshake observes;
- the file's bytes when the scan reads them.

Because the size and the bytes are separate inputs, a file that shrinks
between the handshake and the scan can be stated. The hash library is a
parameter `hash(name, data)`. The incremental `hash_total` object is the
sequence of bytes it has absorbed, and its digest is `hash(name, absorbed)`.

Modules:
- `Wire`: the u64 little-endian codec (`struct.pack('<Q')` and
  `struct.unpack('<Q')`), and the blocking `read(n)` of a stream.
- `Request`: the header and request codec, and the parse of stdin.
- `Schedule`: the read sizes the loop asks for (`readremain`, `rblocksize`).
- `Scan`: the file reads and the absorbed blocks, up to the first short read
  or refused count.
- `Packets`: the `d` and `b` packets for each block, and their bytes.
- `Session`: the whole run.
  - `Transcript` is the reference function.
  - `Serve` and its loop `ScanFile` are the imperative script, proved equal to
    it.
  - The end-to-end properties are lemmas about `Transcript`.

## Model

| member | source | states |
|---|---|---|
| Wire.EncodeLE | remote_script.py:41 | x below 256^n is written in exactly n bytes |
| Wire.EncodeLEDigit | remote_script.py:41 | byte i of the encoding is digit i of x in base 256, so the least significant byte comes first |
| Wire.DecodeLEBound | remote_script.py:28 | n bytes decode to a number below 256^n |
| Wire.DecodeEncodeLE | remote_script.py:28-41 | decoding the n-byte encoding of x gives back x |
| Wire.EncodeDecodeLE | remote_script.py:28-41 | every byte string is the encoding of the number it decodes to |
| Wire.EncodeU64 | remote_script.py:41 | `struct.pack('<Q')` writes 8 bytes |
| Wire.U64Digits | remote_script.py:41 | the 8 bytes are the base-256 digits of the value, least significant first |
| Wire.U64RoundTrip | remote_script.py:28-41 | unpacking a packed u64 gives back the value |
| Wire.U64BytesRoundTrip | remote_script.py:28 | any 8 bytes are the packing of the u64 they unpack to |
| Wire.DecodeU64 | remote_script.py:28 | `struct.unpack('<Q')` of 8 bytes. U64RoundTrip and U64BytesRoundTrip make it the exact inverse of EncodeU64 |
| Wire.Read | remote_script.py:29-30 | a blocking read returns n bytes exactly when n is 0 or n bytes remain; otherwise it returns what is left before the end of the stream |
| Wire.ReadBytes | remote_script.py:29-30 | the bytes a read returns are the stream's bytes from the cursor on, in order |
| Request.EncodeHeader | remote_script.py:28 | the header is exactly 40 bytes |
| Request.DecodeHeader | remote_script.py:28 | the five fields unpacked from 40 bytes in wire order. HeaderRoundTrip and HeaderBytesRoundTrip make it the exact inverse of EncodeHeader |
| Request.HeaderBytesRoundTrip | remote_script.py:28 | every 40 bytes are the encoding of the header they decode to, so no header is rejected |
| Request.HeaderRoundTrip | remote_script.py:28 | decoding an encoded header gives back all five fields, in the order remote_size, blocksize, offset_blocks, filename_len, hashname_len |
| Request.EncodeRequest | remote_script.py:28-30 | a request is the header, then the file name, then the hash name |
| Request.ParseRequest | remote_script.py:28-30 | parsing fails exactly when fewer than 40 bytes arrive or a declared name length is 2^63 or more. Otherwise the header is the first 40 bytes. The file name follows: min(filename_len, what arrived) bytes. Then the hash name: min(hashname_len, what is left) bytes. Parsing stops right after them, and a name cut short reaches the end of stdin |
| Request.ParseEncoded | remote_script.py:28-30 | a well-formed request followed by anything parses back to itself, and the cursor stops at its end |
| Request.ParseComplete | remote_script.py:28-30 | when all declared name bytes arrive, the consumed prefix is the encoding of the parsed request |
| Schedule.Lengths | remote_script.py:53-58 | the read sizes the loop asks for, in order. LengthsShape, LengthsCover and LengthsAt state what they are |
| Schedule.LengthsShape | remote_script.py:53-58 | there is at least one read, and more than one exactly when the range exceeds a block. Every read but the last asks for a full block. For a positive range the last asks for between 1 and blockSize bytes |
| Schedule.LengthsSum | remote_script.py:53-74 | for any range, empty or negative included, the read sizes add up to the range |
| Schedule.LengthsCount | remote_script.py:53-74 | a positive range takes ceil(remaining / blockSize) reads |
| Schedule.LengthsLast | remote_script.py:57-58 | the last read of a positive range asks for the remainder, or a full block when the division is exact |
| Schedule.LengthsCover | remote_script.py:53-74 | sum, count and last size of the schedule, together |
| Schedule.LengthsAt | remote_script.py:56-58 | read k asks for min(what the reads before it left, blockSize). It is the last exactly when what is left fits in one block, which is when `readremain` reaches 0 |
| Schedule.FullPrefixSum | remote_script.py:55-59 | k full blocks cover k * blockSize bytes |
| Scan.FileRead | remote_script.py:59 | `f.read(n)` is defined for counts of -1 or more, which are the counts the buffered file accepts. It reads what a stream read does, and a count of -1 reads to the end of the file, which never gives a result of that length |
| Scan.Blocks | remote_script.py:59-62 | the loop absorbs at most one block per scheduled read. It stops at the first short read or at the first count `read` refuses |
| Scan.BlockAt | remote_script.py:59 | block k is exactly the lens[k] file bytes that follow the blocks before it |
| Scan.FullBlockAt | remote_script.py:55-59 | when the reads before block k are all full, block k starts k * blockSize bytes after the start |
| Scan.ScheduledBlockAt | remote_script.py:53-59 | in a scan, block k is the file bytes at start + k * blockSize, as many as read k asks for |
| Scan.ScheduledAggregate | remote_script.py:59-62 | after block k, the aggregate has absorbed every file byte from the start to the end of block k |
| Scan.Concat | remote_script.py:62 | the bytes `hash_total` has absorbed: the blocks joined in order. ConcatPrefix, ScheduledAggregate and ScanCovers state what they are |
| Scan.ConcatPrefix | remote_script.py:62 | the first j blocks joined are the file's bytes from the start, with no gap and no overlap |
| Scan.BlocksComplete | remote_script.py:59-61 | when the file holds every byte asked for, no read is short: one block per read |
| Scan.BlocksStop | remote_script.py:59-61 | the scan stops early only at a count `read` refuses or at a read the file cannot satisfy |
| Scan.ScanCovers | remote_script.py:53-74 | when the file holds the whole range, there are ceil(remaining / blockSize) blocks and the aggregate is exactly the range |
| Scan.EmptyRange | remote_script.py:53-62 | an empty range is read once, giving one empty block |
| Scan.NegativeRange | remote_script.py:53-61 | a range that starts past its end absorbs nothing: a count of -1 gives a short read, and a smaller count is refused |
| Packets.SerializeAppend | remote_script.py:64-70 | writing two runs of packets in turn writes their bytes in turn |
| Packets.StepBytes | remote_script.py:64-70 | the bytes of one step: `d` and the digest, then `b`, the block and the aggregate digest when asked. WriteStep ties them to the loop's writes |
| Packets.Serialize | remote_script.py:64-70 | the steps' bytes one after another, with SerializeAppend for runs written in turn |
| Packets.Steps | remote_script.py:59-71 | the indexed reference for the scan: step k is the step of block k and reply k. WalkSteps, ScanMatches and ScanAfterGo tie the loop to it |
| Packets.Reply | remote_script.py:67 | each reply is at most 4 bytes |
| Packets.ReplyPosStep | remote_script.py:67 | every reply reads 4 bytes, or what is left of stdin, from where the previous one stopped |
| Packets.Walk | remote_script.py:62-71 | the walk writes one step per absorbed block |
| Packets.WalkCons | remote_script.py:62-71 | the walk writes the first block's step and then walks the rest with the first block absorbed, and the aggregate is the first block followed by the rest |
| Packets.WalkAt | remote_script.py:62-71 | step j is `d` with the digest of block j. When the j-th reply is `send` it also carries block j and the digest of everything through block j; otherwise nothing more |
| Packets.WalkSteps | remote_script.py:62-71 | walking from the first reply with nothing absorbed gives exactly the indexed steps |
| Session.Transcript | remote_script.py:28-80 | the whole run: no output for an unreadable request. The handshake alone after a token other than `go`, a start `seek` refuses, or a first read count `read` refuses. Otherwise the scan and `t`. Serve is proved equal to it, and the lemmas below state its properties |
| Session.Output | remote_script.py:33-79 | the bytes of a run on stdout: the handshake (lines 33, 41), the steps' packets (64-70), then `t` and the aggregate digest (78-79) after a scan. Serve, HandshakeFirst, DeclineWritesNothing, SeekOutOfRange and ReadRefusedPastEnd state the output through it |
| Session.ScanFrom | remote_script.py:56-74 | the scan loop from the top of an iteration. ScanFollows and ScanMatches state what it writes and absorbs |
| Session.ScanWith | remote_script.py:57-61 | the iteration that asks for min(left, blocksize) bytes stops at a short read. FollowsShort and ScanShort state it |
| Session.Absorb | remote_script.py:62-74 | a full block is absorbed and its step written, then the loop ends or goes on. FollowsLast, FollowsNext and ScanStep state it |
| Session.Serve | remote_script.py:28-80 | the bytes the script writes are those of the transcript |
| Session.ScanFile | remote_script.py:53-80 | the loop writes the packets of the scan's steps, then `t` with the digest of what the scan absorbed |
| Session.ScanShort | remote_script.py:60-61 | at a short read the loop has written every step, and the aggregate is final |
| Session.ScanStep | remote_script.py:62-74 | one full iteration keeps the loop invariant, or, when `readremain` reaches 0, leaves every step written |
| Session.WriteStep | remote_script.py:64-70 | the loop body's writes are the bytes of one step |
| Session.ScanFollows | remote_script.py:56-74 | from any iteration, the scan writes the walk over the blocks the schedule absorbs, and absorbs exactly those blocks |
| Session.ScanFollowsStep | remote_script.py:56-74 | one iteration of the scan matches one step of the walk |
| Session.FollowsShort | remote_script.py:59-61 | a short read ends both the scan and the walk |
| Session.FollowsLast | remote_script.py:62-74 | a full last block is the only step of both |
| Session.FollowsNext | remote_script.py:62-74 | a full block with more to come starts both and leaves them at the same place |
| Session.ScanMatches | remote_script.py:56-74 | the scan writes one step per absorbed block, step k answering reply k, and its aggregate is all the absorbed blocks |
| Session.HandshakeFirst | remote_script.py:28-41 | nothing is written exactly when fewer than 40 request bytes arrive or a name length is too large for `read`. Otherwise the output starts with the digest of the file name and the packed size, which unpacks back to the size |
| Session.HandshakeIgnoresContents | remote_script.py:32-41 | the handshake never depends on the file's contents |
| Session.DeclineWritesNothing | remote_script.py:45-46 | any token but `go`, a short one included, ends the run right after the handshake |
| Session.ScanAfterGo | remote_script.py:45-80 | after `go`, the output is the handshake, then the steps for the blocks the schedule absorbs from `offset_blocks * blocksize`, with step k answering reply k after `go`. It ends with one `t` carrying the digest of all absorbed blocks, including after a short read |
| Session.ScanWholeRange | remote_script.py:53-80 | when the file still holds the measured range, there are ceil((size - start) / blocksize) steps, and `t` carries the digest of exactly the bytes from the start to the size |
| Session.StepsCover | remote_script.py:53-79 | over a range the file holds, there is one step per scheduled read, and the aggregate is the range |
| Session.ScanEmptyRange | remote_script.py:53-79 | a start exactly at the size gives one `d` for the empty block. A start one byte past it reads with a count of -1 and gives no `d`. Either way `t` carries the digest of nothing |
| Session.SeekOutOfRange | remote_script.py:53-55 | after `go`, a start of 2^63 or more makes `seek` raise: the output is the handshake alone, with no `d` and no `t` |
| Session.ReadRefusedPastEnd | remote_script.py:53-59 | after `go`, a start below 2^63 but two or more bytes past the size gives the first `read` a count below -1, which raises: the output is the handshake alone, with no `d` and no `t` |

## Left out

- The hash algorithms (`hashlib.new`, lines 32, 48, 63). They are a function
  parameter. Every property holds for every such function. The exception
  raised for an unknown algorithm name is not modelled.
- The UTF-8 decode of the hash name (line 30), and the exception it raises on
  invalid UTF-8. The model keeps the name as bytes.
- Opening, measuring and closing the file (lines 35-40, 50-52, 75-76),
  including a failure to open it. These are replaced by the size observed at
  the handshake and the file's bytes at the scan. The `seek(0, SEEK_END)` on
  line 52 has no effect on the output. The `seek` to the start (line 55)
  becomes the position the scan reads from.
- `flush` and `sys.exit` (lines 43, 46, 66, 71, 80). Flushing does not change
  the bytes written, and the exit is the `Declined` ending.
- `remote_size` (line 28). It is decoded into `Header.remoteSize` and never
  used.
- A block size of 0 once `go` arrives. With a non-empty range the script then
  loops forever, so `Transcript` and `Serve` require a positive block size
  whenever the scan starts (`BlockSizePositive`). The one run with a zero
  block size that does finish is `go` with a file of size 0: one empty `d`,
  then `t`. The model does not cover it.
- The text of the ValueError `read` raises for a count below -1 (line 59).
  The model ends such a run with `ReadRefused`, after the handshake
  (`ReadRefusedPastEnd`). Only a start one byte past the size reads with the
  count -1, which the file accepts (`ScanEmptyRange`).
- `offset_blocks * blocksize` and `readremain` are Python integers, so they
  are unbounded. Numbers are narrowed only where `read` and `seek` convert
  them to a signed 64-bit C integer. The model covers that narrowing: a name
  length of 2^63 or more (lines 29-30, `ParseRequest`), and a start of 2^63
  or more (line 55, `SeekOutOfRange`).
- A `seek` to a start below 2^63 that is past the largest file the file
  system allows (line 55). Whether it raises depends on the file system; the
  model lets the seek succeed. Such a start lies past the end of the file.
  Unless it is exactly one byte past the size, the first read is then
  refused, and the output is the same handshake alone
  (`ReadRefusedPastEnd`).
- A read of a very large count can fail for lack of memory, depending on
  the machine. This holds for a declared name length (lines 29-30) and for
  a huge block size at the file read (line 59). The model reads what
  arrives. The count of the file read never overflows: it is at most the
  size, which is below 2^63.
- A concurrent block server, `send` requests that carry a block index, and
  `x` error packets: this script has none of them. It is strictly lockstep,
  and a `b` packet carries the aggregate digest, not the block's own.
- A short read of a name is not an error: the blocking `read` returns what
  arrived and the script goes on with it (`ParseRequest`).
