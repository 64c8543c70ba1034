/** The block-aligned remote read cache.

    The file is cut into blocks of `blockSize` bytes (the last one shorter
    when the size is not a multiple), and the cache is an array with one slot
    per block. A slot is either empty or holds its whole block: range
    requests are widened to block boundaries, and reads are served only from
    resident blocks. */
module BlockCache {
  import opened Options
  import opened Remote

  /** The number of slots for a file of `size` bytes, `size / bs` rounded
      up: the slots cover the file exactly, the last one starting inside it
      and ending at or past its end. */
  function SlotCount(size: nat, bs: nat): (n: nat)
    requires bs > 0
    ensures size == 0 ==> n == 0
    ensures size > 0 ==> n > 0 && (n - 1) * bs < size <= n * bs
  {
    var n := (size + bs - 1) / bs;
    assert size + bs - 1 == n * bs + (size + bs - 1) % bs;
    assert (n - 1) * bs == n * bs - bs;
    n
  }

  /** The byte `p` lies in block `p / bs`. */
  lemma BlockOf(p: nat, bs: nat)
    requires bs > 0
    ensures (p / bs) * bs <= p < (p / bs) * bs + bs
  {
    assert p == (p / bs) * bs + p % bs;
  }

  /** A byte between the bounds of block `b` lies in block `b`. */
  lemma InBlock(p: nat, b: nat, bs: nat)
    requires bs > 0 && b * bs <= p < b * bs + bs
    ensures p / bs == b
  {
    BlockOf(p, bs);
    var q := p / bs;
    if q < b {
      MulMono(q + 1, b, bs);
      assert false;
    }
    if q > b {
      MulMono(b + 1, q, bs);
      assert false;
    }
  }

  lemma DivMono(p: nat, q: nat, bs: nat)
    requires bs > 0 && p <= q
    ensures p / bs <= q / bs
  {
    BlockOf(p, bs);
    BlockOf(q, bs);
    if p / bs > q / bs {
      MulMono(q / bs + 1, p / bs, bs);
      assert false;
    }
  }

  lemma MulMono(a: nat, b: nat, c: nat)
    requires a <= b
    ensures a * c <= b * c
  {
    assert b * c == a * c + (b - a) * c;
  }

  /** The bytes of block `b` of `file`: `bs` bytes from `b * bs`, cut at the
      end of the file; nothing for a block past the end. */
  function BlockBytes(file: seq<bv8>, bs: nat, b: nat): seq<bv8> {
    if b * bs < |file| then file[b * bs..Min(b * bs + bs, |file|)] else []
  }

  /** Every block of the file is non-empty; all but the last hold `bs`
      bytes, and the last holds what is left of the file. */
  lemma BlockLength(file: seq<bv8>, bs: nat, b: nat)
    requires |file| > 0 && bs > 0 && b < SlotCount(|file|, bs)
    ensures var n := SlotCount(|file|, bs);
      |BlockBytes(file, bs, b)| == if b < n - 1 then bs else |file| - (n - 1) * bs
    ensures |BlockBytes(file, bs, b)| > 0
  {
    var n := SlotCount(|file|, bs);
    MulMono(b, n - 1, bs);
    if b < n - 1 {
      MulMono(b + 1, n - 1, bs);
      assert (b + 1) * bs == b * bs + bs;
    } else {
      assert n * bs == (n - 1) * bs + bs;
    }
  }

  /** A byte below `n * bs` lies in one of the first `n` blocks. */
  lemma BlockIndexBound(p: nat, bs: nat, n: nat)
    requires bs > 0 && p < n * bs
    ensures p / bs < n
  {
    BlockOf(p, bs);
    if p / bs >= n {
      MulMono(n, p / bs, bs);
      assert false;
    }
  }

  /** Block `k` starts at or before `q` exactly when `k <= q / bs`. */
  lemma BlockBelow(k: nat, q: nat, bs: nat)
    requires bs > 0
    ensures k <= q / bs <==> k * bs <= q
  {
    BlockOf(q, bs);
    if k <= q / bs {
      MulMono(k, q / bs, bs);
    } else {
      MulMono(q / bs + 1, k, bs);
    }
  }

  lemma NextBlock(b: int, bs: nat)
    ensures (b + 1) * bs == b * bs + bs
  {
  }

  /** Part of a block is the same part of the file. */
  lemma BlockSlice(file: seq<bv8>, bs: nat, b: nat, offset: nat, n: nat)
    requires b * bs < |file| && b * bs + offset + n <= Min(b * bs + bs, |file|)
    ensures offset + n <= |BlockBytes(file, bs, b)|
    ensures BlockBytes(file, bs, b)[offset..offset + n] == file[b * bs + offset..b * bs + offset + n]
  {
  }

  /** Every slot from `lo` to `hi` (inclusive) exists and is resident. */
  predicate Full(slots: seq<seq<bv8>>, lo: int, hi: int) {
    forall b :: lo <= b <= hi ==> 0 <= b < |slots| && slots[b] != []
  }

  /** The low end of a range request after skipping resident blocks: the
      first empty slot from `lo` on, or `hi + 1` when `lo..hi` is full. */
  function SkipLow(slots: seq<seq<bv8>>, lo: int, hi: int): (r: int)
    requires 0 <= lo && (lo <= hi ==> hi < |slots|)
    ensures lo <= r && (lo <= hi + 1 ==> r <= hi + 1)
    ensures Full(slots, lo, r - 1)
    ensures r <= hi ==> slots[r] == []
    decreases hi - lo + 1
  {
    if lo <= hi && slots[lo] != [] then SkipLow(slots, lo + 1, hi) else lo
  }

  /** The high end of a range request after skipping resident blocks: the
      last empty slot down to `lo`, or `lo - 1` when `lo..hi` is full. */
  function SkipHigh(slots: seq<seq<bv8>>, lo: int, hi: int): (r: int)
    requires 0 <= lo && (lo <= hi ==> hi < |slots|)
    ensures r <= hi && (lo - 1 <= hi ==> lo - 1 <= r)
    ensures Full(slots, r + 1, hi)
    ensures lo <= r ==> slots[r] == []
    decreases hi - lo + 1
  {
    if lo <= hi && slots[hi] != [] then SkipHigh(slots, lo, hi - 1) else hi
  }

  /** A range request is a no-op exactly when every block it touches is
      resident. */
  lemma NothingToFetch(slots: seq<seq<bv8>>, lo: int, hi: int)
    requires 0 <= lo && (lo <= hi ==> hi < |slots|)
    ensures SkipLow(slots, lo, hi) > hi <==> Full(slots, lo, hi)
  {
    var r := SkipLow(slots, lo, hi);
    if r <= hi {
      assert !(0 <= r < |slots| && slots[r] != []);
    }
  }

  /** The slots after a successful fill of blocks `sb..lb`. */
  ghost predicate Filled(slots: seq<seq<bv8>>, before: seq<seq<bv8>>, file: seq<bv8>, bs: nat, sb: int, lb: int) {
    && |slots| == |before|
    && (forall b :: 0 <= b < |slots| && sb <= b <= lb ==> slots[b] == BlockBytes(file, bs, b))
    && (forall b :: 0 <= b < |slots| && !(sb <= b <= lb) ==> slots[b] == before[b])
  }

  /** The snapshot for the cache-fill display: one full block per resident
      slot, in slot order. */
  function ResidentRanges(slots: seq<seq<bv8>>, bs: nat): seq<RangeInfo> {
    if slots == [] then []
    else ResidentRanges(slots[..|slots| - 1], bs)
         + (if slots[|slots| - 1] != [] then [RangeInfo((|slots| - 1) * bs, bs)] else [])
  }

  /** Each entry of the snapshot is a whole block at the offset of a
      resident slot. */
  lemma {:induction false} ResidentRangesSound(slots: seq<seq<bv8>>, bs: nat)
    requires bs > 0
    ensures var rs := ResidentRanges(slots, bs);
      && |rs| <= |slots|
      && forall i :: 0 <= i < |rs| ==>
           rs[i].size == bs && rs[i].start % bs == 0 && rs[i].start / bs < |slots| && slots[rs[i].start / bs] != []
  {
    if slots != [] {
      var init, n := slots[..|slots| - 1], |slots| - 1;
      ResidentRangesSound(init, bs);
      InBlock(n * bs, n, bs);
      var rs0 := ResidentRanges(init, bs);
      forall i | 0 <= i < |rs0|
        ensures slots[rs0[i].start / bs] != []
      {
        assert init[rs0[i].start / bs] == slots[rs0[i].start / bs];
      }
    }
  }

  /** Every resident slot appears in the snapshot. */
  lemma {:induction false} ResidentRangesComplete(slots: seq<seq<bv8>>, bs: nat)
    ensures forall b :: 0 <= b < |slots| && slots[b] != [] ==> RangeInfo(b * bs, bs) in ResidentRanges(slots, bs)
  {
    if slots != [] {
      var init, n := slots[..|slots| - 1], |slots| - 1;
      ResidentRangesComplete(init, bs);
      forall b | 0 <= b < |slots| && slots[b] != []
        ensures RangeInfo(b * bs, bs) in ResidentRanges(slots, bs)
      {
        if b < n {
          assert init[b] == slots[b];
        }
      }
    }
  }

  /** The snapshot is in increasing order of offset. */
  lemma {:induction false} ResidentRangesOrdered(slots: seq<seq<bv8>>, bs: nat)
    requires bs > 0
    ensures var rs := ResidentRanges(slots, bs);
      forall i, j :: 0 <= i < j < |rs| ==> rs[i].start < rs[j].start
  {
    if slots != [] {
      var init, n := slots[..|slots| - 1], |slots| - 1;
      ResidentRangesOrdered(init, bs);
      ResidentRangesSound(init, bs);
      var rs0 := ResidentRanges(init, bs);
      forall i | 0 <= i < |rs0|
        ensures rs0[i].start < n * bs
      {
        BlockOf(rs0[i].start, bs);
        MulMono(rs0[i].start / bs + 1, n, bs);
      }
    }
  }

  /** Block `b` of a fetch of blocks `sb..lb` (cut at the end of the file)
      is block `b` of the file. */
  lemma FetchedBlock(file: seq<bv8>, bs: nat, sb: nat, lb: nat, b: nat, fetched: seq<bv8>)
    requires bs > 0 && sb <= b <= lb && lb * bs < |file|
    requires fetched == file[sb * bs..Min(lb * bs + bs, |file|)]
    ensures var offset := (b - sb) * bs;
      && 0 <= offset < |fetched|
      && fetched[offset..offset + Min(bs, |fetched| - offset)] == BlockBytes(file, bs, b)
  {
    var offset := (b - sb) * bs;
    assert offset + sb * bs == b * bs;
    MulMono(0, b - sb, bs);
    MulMono(b, lb, bs);
    MulMono(sb, b, bs);
    var k := Min(bs, |fetched| - offset);
    assert sb * bs + offset + k == Min(b * bs + bs, |file|);
    assert fetched[offset..offset + k] == file[b * bs..b * bs + k];
  }


  /** Every slot is empty or holds its block of `file`. */
  ghost predicate SlotsAgree(slots: seq<seq<bv8>>, file: seq<bv8>, bs: nat) {
    forall b :: 0 <= b < |slots| ==> slots[b] == [] || slots[b] == BlockBytes(file, bs, b)
  }

  /** One pass of the fill loop: slot `b` gets its block. */
  lemma FillStep(slots: seq<seq<bv8>>, before: seq<seq<bv8>>, file: seq<bv8>, bs: nat, sb: int, b: int)
    requires 0 <= sb <= b < |slots|
    requires Filled(slots, before, file, bs, sb, b - 1) && SlotsAgree(slots, file, bs)
    ensures Filled(slots[b := BlockBytes(file, bs, b)], before, file, bs, sb, b)
    ensures SlotsAgree(slots[b := BlockBytes(file, bs, b)], file, bs)
  {
  }

  /** After a fill of `sb..lb`, where the slots below and above were already
      resident, every slot from `lo` to `hi` is resident. */
  lemma FullAfterFill(slots: seq<seq<bv8>>, before: seq<seq<bv8>>, file: seq<bv8>, bs: nat,
                      lo: int, sb: int, lb: int, hi: int)
    requires |file| > 0 && bs > 0 && |slots| == SlotCount(|file|, bs)
    requires 0 <= lo <= sb <= lb <= hi < |slots|
    requires Full(before, lo, sb - 1) && Full(before, lb + 1, hi)
    requires Filled(slots, before, file, bs, sb, lb)
    ensures Full(slots, lo, hi)
  {
    forall b | lo <= b <= hi
      ensures 0 <= b < |slots| && slots[b] != []
    {
      if sb <= b <= lb {
        BlockLength(file, bs, b);
      }
    }
  }

  class HttpReaderBlockCache {
    const server: Server
    /** The file size the HEAD request reported. */
    const fileSize: nat
    const blockSize: nat
    var position: nat
    /** One slot per block; `[]` marks a block that is not resident. */
    const blocks: array<seq<bv8>>

    /** The reader's invariant: one slot per block, and every resident slot
        holds exactly its block of the file. */
    ghost predicate Valid()
      reads this, blocks
    {
      && fileSize == |server.content| > 0
      && blockSize > 0
      && position <= fileSize
      && blocks.Length == SlotCount(fileSize, blockSize)
      && SlotsAgree(blocks[..], server.content, blockSize)
    }

    /** A reader after a successful `init`: one empty slot per block, cursor
        at 0. */
    constructor (server: Server, blockSize: nat)
      requires |server.content| > 0 && blockSize > 0
      ensures Valid() && this.server == server && this.blockSize == blockSize && position == 0
      ensures blocks.Length == SlotCount(|server.content|, blockSize)
      ensures forall b :: 0 <= b < blocks.Length ==> blocks[b] == []
      ensures fresh(blocks)
    {
      this.server := server;
      fileSize := |server.content|;
      this.blockSize := blockSize;
      position := 0;
      blocks := new seq<bv8>[SlotCount(|server.content|, blockSize)](_ => []);
    }

    method GetPosition() returns (p: nat)
      ensures p == position
    {
      p := position;
    }

    method Seek(target: int) returns (r: int)
      requires Valid()
      modifies this`position
      ensures Valid()
      ensures target < 0 || target > fileSize ==> r == -1 && position == old(position)
      ensures 0 <= target <= fileSize ==> r == 0 && position == target
    {
      if target < 0 || target > fileSize {
        return -1;
      }
      position := target;
      return 0;
    }

    /** The size is known from the start, so waiting is a comparison. */
    method WaitForFileSize(target: int) returns (status: GrowStatus)
      ensures status == SizeReached <==> target <= fileSize
      ensures status == SizeReached || status == SizeBeyondEof
    {
      if target <= fileSize {
        return SizeReached;
      }
      return SizeBeyondEof;
    }

    /** Releasing is disabled in this reader: nothing changes. */
    method ReleaseFileRange(start: nat, end: nat)
      ensures position == old(position) && blocks[..] == old(blocks[..])
    {
    }

    /** The snapshot for the cache-fill display. */
    method GetCachedRanges() returns (ranges: seq<RangeInfo>)
      ensures ranges == ResidentRanges(blocks[..], blockSize)
    {
      ranges := [];
      var b := 0;
      while b < blocks.Length
        invariant 0 <= b <= blocks.Length
        invariant ranges == ResidentRanges(blocks[..b], blockSize)
      {
        assert blocks[..b + 1][..b] == blocks[..b];
        if blocks[b] != [] {
          ranges := ranges + [RangeInfo(b * blockSize, blockSize)];
        }
        b := b + 1;
      }
      assert blocks[..b] == blocks[..];
    }

    /** A range request for `start..end` (end exclusive). The request is
        widened to whole blocks and then narrowed past the resident blocks at
        both ends; when no block is left nothing happens, otherwise one fetch
        covers the blocks that are left, cut at the end of the file, and its
        reply fills them. A failed fetch is reported as an error with code 1
        and changes no slot. */
    method RequestRange(start: nat, end: nat) returns (result: RangeRequestResult)
      requires Valid()
      requires start / blockSize <= LastByte(end) / blockSize ==> LastByte(end) / blockSize < blocks.Length
      modifies blocks, server
      ensures Valid() && position == old(position) && result.rangeEnd == end
      ensures Full(old(blocks[..]), start / blockSize, LastByte(end) / blockSize) ==>
        && result == RangeRequestResult(SizeReached, end, 0)
        && blocks[..] == old(blocks[..]) && server.log == old(server.log)
      ensures !Full(old(blocks[..]), start / blockSize, LastByte(end) / blockSize) ==>
        var sb := SkipLow(old(blocks[..]), start / blockSize, LastByte(end) / blockSize);
        var lb := SkipHigh(old(blocks[..]), sb, LastByte(end) / blockSize);
        && sb <= lb
        && server.log == old(server.log) + [BlockSpan(sb, lb, blockSize, fileSize)]
        && (result.status == SizeReached ==>
              result.errorCode == 0 && Filled(blocks[..], old(blocks[..]), server.content, blockSize, sb, lb))
        && (result.status != SizeReached ==>
              result.status == Error && result.errorCode == 1 && blocks[..] == old(blocks[..]))
      ensures result.status == SizeReached ==> Full(blocks[..], start / blockSize, LastByte(end) / blockSize)
    {
      result := RangeRequestResult(SizeReached, end, 0);
      var lastByte := if end > 0 then end - 1 else 0;
      ghost var slots := blocks[..];
      var lo, hi := start / blockSize, lastByte / blockSize;
      NothingToFetch(slots, lo, hi);
      var startBlock, lastBlock := ResidentEnds(lo, hi);
      if startBlock > lastBlock {
        return;
      }
      var span := BlockSpan(startBlock, lastBlock, blockSize, fileSize);
      var ok, fetched := server.Fetch(span.first, span.last);
      if !ok {
        result := result.(status := Error, errorCode := 1);
        return;
      }
      FillBlocks(startBlock, lastBlock, fetched);
      FullAfterFill(blocks[..], slots, server.content, blockSize, lo, startBlock, lastBlock, hi);
    }

    /** The two narrowing loops of `RequestRange`: past resident blocks from
        the low end, then from the high end. */
    method ResidentEnds(lo: int, hi: int) returns (startBlock: int, lastBlock: int)
      requires 0 <= lo && (lo <= hi ==> hi < blocks.Length)
      ensures startBlock == SkipLow(blocks[..], lo, hi)
      ensures startBlock <= hi ==> lastBlock == SkipHigh(blocks[..], startBlock, hi) && startBlock <= lastBlock
      ensures startBlock > hi ==> startBlock > lastBlock
    {
      startBlock, lastBlock := lo, hi;
      while startBlock <= lastBlock
        invariant lo <= startBlock && lastBlock == hi
        invariant SkipLow(blocks[..], startBlock, hi) == SkipLow(blocks[..], lo, hi)
        decreases lastBlock - startBlock
      {
        if blocks[startBlock] != [] {
          startBlock := startBlock + 1;
        } else {
          break;
        }
      }
      while startBlock <= lastBlock
        invariant lastBlock <= hi && (startBlock <= hi ==> startBlock <= lastBlock)
        invariant startBlock <= hi ==> SkipHigh(blocks[..], startBlock, lastBlock) == SkipHigh(blocks[..], startBlock, hi)
        decreases lastBlock - startBlock
      {
        if blocks[lastBlock] != [] {
          lastBlock := lastBlock - 1;
        } else {
          break;
        }
      }
    }

    /** The fill loop of `RequestRange`: block `b` of `sb..lb` gets its part
        of the fetched bytes. */
    method FillBlocks(sb: nat, lb: nat, fetched: seq<bv8>)
      requires Valid() && sb <= lb < blocks.Length
      requires var span := BlockSpan(sb, lb, blockSize, fileSize);
        Served(server.content, span.first, span.last) == Some(fetched)
      modifies blocks
      ensures Valid()
      ensures Filled(blocks[..], old(blocks[..]), server.content, blockSize, sb, lb)
    {
      MulMono(lb, blocks.Length - 1, blockSize);
      MulMono(sb, lb, blockSize);
      assert fetched == server.content[sb * blockSize..Min(lb * blockSize + blockSize, fileSize)];
      ghost var before := blocks[..];
      var block := sb;
      while block <= lb
        invariant sb <= block <= lb + 1
        invariant SlotsAgree(blocks[..], server.content, blockSize)
        invariant Filled(blocks[..], before, server.content, blockSize, sb, block - 1)
      {
        FetchedBlock(server.content, blockSize, sb, lb, block, fetched);
        var offset := (block - sb) * blockSize;
        var bytes := Min(blockSize, |fetched| - offset);
        FillStep(blocks[..], before, server.content, blockSize, sb, block);
        ghost var slots := blocks[..];
        blocks[block] := fetched[offset..offset + bytes];
        assert blocks[..] == slots[block := BlockBytes(server.content, blockSize, block)];
        block := block + 1;
      }
    }

    /** Copies `size` bytes at the cursor into `out`. A read past the end of
        the file changes nothing. A read whose blocks are all resident copies
        the file's bytes out of them, advances the cursor and fetches
        nothing. Otherwise one chunk at the cursor is fetched (and not kept)
        and the read fails: with `SizeBeyondEof` when the fetch fails, and
        with `Error` standing for the assertion failure that follows a
        successful one. */
    method Read(size: nat, out: array<bv8>) returns (status: GrowStatus)
      requires Valid() && 0 < size <= out.Length && out as object != blocks
      modifies this`position, server, out
      ensures Valid()
      ensures old(position) + size > fileSize ==>
        && status == SizeBeyondEof && position == old(position)
        && out[..] == old(out[..]) && server.log == old(server.log)
      ensures old(position) + size <= fileSize && Full(blocks[..], old(position) / blockSize, (old(position) + size - 1) / blockSize) ==>
        && status == SizeReached && position == old(position) + size
        && out[..] == server.content[old(position)..old(position) + size] + old(out[size..])
        && server.log == old(server.log)
      ensures old(position) + size <= fileSize && !Full(blocks[..], old(position) / blockSize, (old(position) + size - 1) / blockSize) ==>
        && (status == SizeBeyondEof || status == Error) && position == old(position)
        && out[..] == old(out[..]) && server.log == old(server.log) + [Span(old(position), Min(old(position) + 65535, fileSize - 1))]
    {
      if position + size > fileSize {
        return SizeBeyondEof;
      }
      var pos := position;
      ReadBlocks(pos, size, fileSize, blockSize);
      var firstBlock := pos / blockSize;
      var lastBlock := (pos + size - 1) / blockSize;
      ghost var slots := blocks[..];
      var found := Resident(firstBlock, lastBlock);
      if found {
        forall k | firstBlock <= k <= lastBlock
          ensures 0 <= k < |slots| && slots[k] == BlockBytes(server.content, blockSize, k)
        {
          assert slots[k] != [];
        }
        assert HoldBlocks(slots, server.content, blockSize, firstBlock, lastBlock);
        pos := CopyBlocks(blocks[..], server.content, blockSize, pos, size, firstBlock, lastBlock, out);
      } else {
        var fetchEnd := Min(pos + 65536 - 1, fileSize - 1);
        var ok, _ := server.Fetch(pos, fetchEnd);
        assert blocks[..] == slots;
        if !ok {
          return SizeBeyondEof;
        }
        return Error;
      }
      assert blocks[..] == slots;
      position := pos;
      return SizeReached;
    }

    /** The residency scan of `Read`: are the blocks `first..last` all
        resident? */
    method Resident(first: nat, last: nat) returns (found: bool)
      requires last < blocks.Length
      ensures found <==> Full(blocks[..], first, last)
    {
      found := true;
      var b := first;
      while b <= last
        invariant first <= b && (first <= last + 1 ==> b <= last + 1)
        invariant Full(blocks[..], first, b - 1)
      {
        if blocks[b] == [] {
          found := false;
          break;
        }
        b := b + 1;
      }
      if !found {
        assert !(0 <= b < blocks.Length && blocks[..][b] != []);
      }
    }
  }

  /** The blocks a read of `size` bytes at `pos` spans exist. */
  lemma ReadBlocks(pos: nat, size: nat, fileSize: nat, bs: nat)
    requires bs > 0 && size > 0 && pos + size <= fileSize
    ensures 0 <= pos / bs <= (pos + size - 1) / bs < SlotCount(fileSize, bs)
  {
    BlockIndexBound(pos + size - 1, bs, SlotCount(fileSize, bs));
    DivMono(pos, pos + size - 1, bs);
  }

  /** Slots `first..last` exist and hold their blocks of `file`. */
  ghost predicate HoldBlocks(slots: seq<seq<bv8>>, file: seq<bv8>, bs: nat, first: nat, last: nat) {
    last < |slots| && forall b :: first <= b <= last ==> slots[b] == BlockBytes(file, bs, b)
  }

  lemma HeldBlock(slots: seq<seq<bv8>>, file: seq<bv8>, bs: nat, first: nat, last: nat, b: nat)
    requires HoldBlocks(slots, file, bs, first, last) && first <= b <= last
    ensures 0 <= b < |slots| && slots[b] == BlockBytes(file, bs, b)
  {
  }

  /** The byte range covering the blocks `sb..lb`, cut at the end of a
      file of `fileSize` bytes: the fetch of a range request. */
  function BlockSpan(sb: nat, lb: nat, bs: nat, fileSize: nat): (s: Span)
    requires bs > 0 && fileSize > 0
    ensures s.first == sb * bs && s.last < fileSize
    ensures lb * bs + bs <= fileSize ==> s.last + 1 == lb * bs + bs
    ensures lb * bs + bs > fileSize ==> s.last + 1 == fileSize
    ensures sb <= lb && sb * bs < fileSize ==> s.first <= s.last
  {
    MulMono(0, sb, bs);
    MulMono(0, lb, bs);
    if sb <= lb then
      MulMono(sb, lb, bs);
      Span(sb * bs, Min(lb * bs + bs, fileSize) - 1)
    else
      Span(sb * bs, Min(lb * bs + bs, fileSize) - 1)
  }

  /** The copy loop of a block-cache read: the `size` bytes at `p0` are
      copied to `out` out of `slots`, whose blocks `first..last`, the ones
      those bytes span, are all resident. */
  method CopyBlocks(slots: seq<seq<bv8>>, ghost file: seq<bv8>, bs: nat, p0: nat, size: nat,
                    first: nat, last: nat, out: array<bv8>) returns (pos: nat)
    requires bs > 0 && 0 < size <= out.Length && p0 + size <= |file|
    requires first == p0 / bs && last == (p0 + size - 1) / bs
    requires HoldBlocks(slots, file, bs, first, last)
    modifies out
    ensures pos == p0 + size
    ensures out[..] == file[p0..p0 + size] + old(out[size..])
  {
    ghost var before := out[..];
    BlockOf(p0, bs);
    BlockBelow(first, p0 + size - 1, bs);
    pos := p0;
    var remaining: nat := size;
    var b := first;
    while b <= last
      invariant first <= b <= last + 1
      invariant pos + remaining == p0 + size && p0 <= pos
      invariant b <= last ==> b * bs <= pos < b * bs + bs
      invariant b > last ==> remaining == 0
      invariant Copied(out[..], file, before, p0, pos)
    {
      pos, remaining := CopyBlock(slots, file, bs, p0, size, first, last, b, pos, remaining, out, before);
      b := b + 1;
    }
    CopiedAll(out[..], file, before, p0, pos, size);
    assert before[size..] == old(out[size..]);
  }

  /** One pass of the copy loop of a block-cache read, at block `b` with the
      cursor at `pos`: the bytes from `pos` to the end of the block, or to
      the end of the read, go to `out`. */
  method CopyBlock(slots: seq<seq<bv8>>, ghost file: seq<bv8>, bs: nat, p0: nat, size: nat,
                   first: nat, last: nat, b: nat, pos: nat, remaining: nat, out: array<bv8>, ghost before: seq<bv8>)
    returns (next: nat, left: nat)
    requires bs > 0 && 0 < size <= out.Length == |before| && p0 + size <= |file|
    requires last == (p0 + size - 1) / bs
    requires HoldBlocks(slots, file, bs, first, last)
    requires first <= b <= last && pos + remaining == p0 + size && p0 <= pos
    requires b * bs <= pos < b * bs + bs
    requires Copied(out[..], file, before, p0, pos)
    modifies out
    ensures next + left == p0 + size
    ensures Copied(out[..], file, before, p0, next)
    ensures b + 1 <= last ==> (b + 1) * bs <= next < (b + 1) * bs + bs
    ensures b + 1 > last ==> left == 0
  {
    var blockStart := b * bs;
    var blockEnd := blockStart + bs;
    var maxBlockCopy := blockEnd - pos;
    var toCopy := Min(remaining, maxBlockCopy);
    var offset := pos - blockStart;
    BlockCopy(slots, file, bs, p0, size, first, last, b, pos, remaining);
    CopyFromFile(out, slots[b][offset..offset + toCopy], file, before, p0, pos);
    next, left := pos + toCopy, remaining - toCopy;
  }

  /** What one pass of the copy loop at block `b` copies: the bytes of the
      slot from the cursor's offset in the block are the file's bytes at the
      cursor, and the copy ends at the start of the next block, or, at the
      last block, at the end of the read. */
  lemma BlockCopy(slots: seq<seq<bv8>>, file: seq<bv8>, bs: nat, p0: nat, size: nat,
                  first: nat, last: nat, b: nat, pos: nat, remaining: nat)
    requires bs > 0 && 0 < size && p0 + size <= |file|
    requires last == (p0 + size - 1) / bs
    requires HoldBlocks(slots, file, bs, first, last)
    requires first <= b <= last && pos + remaining == p0 + size && p0 <= pos
    requires b * bs <= pos < b * bs + bs
    ensures var toCopy := Min(remaining, b * bs + bs - pos);
      var offset := pos - b * bs;
      && b < |slots| && offset + toCopy <= |slots[b]|
      && slots[b][offset..offset + toCopy] == file[pos..pos + toCopy]
      && (b + 1 <= last ==> (b + 1) * bs <= pos + toCopy < (b + 1) * bs + bs)
      && (b + 1 > last ==> toCopy == remaining)
  {
    var toCopy := Min(remaining, b * bs + bs - pos);
    var offset := pos - b * bs;
    CopyArith(p0, size, bs, last, b, pos, remaining);
    HeldBlock(slots, file, bs, first, last, b);
    BlockSlice(file, bs, b, offset, toCopy);
  }

  /** The arithmetic of one pass of the copy loop: the copy ends at the end
      of block `b`, which is the start of the next block, unless `b` is the
      last block, where it ends with the read. */
  lemma CopyArith(p0: nat, size: nat, bs: nat, last: nat, b: nat, pos: nat, remaining: nat)
    requires bs > 0 && size > 0 && last == (p0 + size - 1) / bs && b <= last
    requires pos + remaining == p0 + size && b * bs <= pos < b * bs + bs
    ensures var toCopy := Min(remaining, b * bs + bs - pos);
      && pos + toCopy <= b * bs + bs
      && (b + 1 <= last ==> pos + toCopy == (b + 1) * bs)
      && (b + 1 > last ==> toCopy == remaining)
  {
    BlockBelow(b + 1, p0 + size - 1, bs);
    NextBlock(b, bs);
  }
}
