/** The arbitrary-range cache policy of the HTTP reader: a read cursor and an
    unordered list of cached byte ranges, each fetched in one range request.
    A read miss fetches up to 64 KiB from the cursor; a range request fetches
    exactly the requested span unless one cached range already holds all of
    it; a release drops the ranges that lie inside the released span.

    The central invariant (`HttpReader.Valid`) is that every cached range is
    a non-empty slice of the remote file at its own offset. */
module RangeCache {
  import opened Options
  import opened Remote

  /** The number of bytes a read miss asks for. */
  const ChunkSize: nat := 65536

  datatype CachedRange = CachedRange(start: nat, data: seq<bv8>)

  /** Byte `pos` lies inside `r`. */
  predicate Contains(r: CachedRange, pos: nat) {
    r.start <= pos < r.start + |r.data|
  }

  /** `r` holds every byte of `first..last` (`last` inclusive). */
  predicate Spans(r: CachedRange, first: nat, last: nat) {
    first >= r.start && last < r.start + |r.data|
  }

  /** `r` is a non-empty slice of `file` taken at offset `r.start`. */
  ghost predicate AgreesWith(r: CachedRange, file: seq<bv8>) {
    0 < |r.data| && r.start + |r.data| <= |file| && r.data == file[r.start..r.start + |r.data|]
  }

  ghost predicate AllAgree(cache: seq<CachedRange>, file: seq<bv8>) {
    forall i :: 0 <= i < |cache| ==> AgreesWith(cache[i], file)
  }

  /** The first range in list order that contains `pos`, the one the read
      path copies from. */
  function FirstContaining(cache: seq<CachedRange>, pos: nat): (r: Option<nat>)
    ensures r.Some? ==> r.value < |cache| && Contains(cache[r.value], pos)
  {
    if cache == [] then None
    else if Contains(cache[0], pos) then Some(0)
    else match FirstContaining(cache[1..], pos)
      case None => None
      case Some(k) => Some(k + 1)
  }

  /** No range before the one `FirstContaining` picks contains `pos`, and
      when it picks none, no range contains `pos` at all. */
  lemma {:induction false} FirstContainingSpec(cache: seq<CachedRange>, pos: nat)
    ensures var r := FirstContaining(cache, pos);
      && (r.Some? ==> forall j :: 0 <= j < r.value ==> !Contains(cache[j], pos))
      && (r.None? ==> forall j :: 0 <= j < |cache| ==> !Contains(cache[j], pos))
  {
    if cache != [] && !Contains(cache[0], pos) {
      FirstContainingSpec(cache[1..], pos);
    }
  }

  /** A range appended to a cache none of whose ranges contains `pos` is the
      first one containing it. */
  lemma {:induction false} FirstContainingAppended(cache: seq<CachedRange>, f: CachedRange, pos: nat)
    requires FirstContaining(cache, pos).None? && Contains(f, pos)
    ensures FirstContaining(cache + [f], pos) == Some(|cache|)
  {
    if cache != [] {
      assert (cache + [f])[1..] == cache[1..] + [f];
      FirstContainingAppended(cache[1..], f, pos);
    }
  }

  /** The request a read miss at `pos` issues: `pos` up to 64 KiB further,
      clamped to the last byte of a file of `size` bytes. */
  function ChunkSpan(pos: nat, size: nat): (s: Span)
    requires pos < size
    ensures s.first == pos <= s.last < size
    ensures s.last - s.first + 1 == Min(ChunkSize, size - pos)
  {
    Span(pos, Min(pos + ChunkSize - 1, size - 1))
  }

  /** The range a successful fetch of `s` stores. */
  function Fill(file: seq<bv8>, s: Span): (r: CachedRange)
    requires s.first <= s.last < |file|
    ensures r.start == s.first && |r.data| == s.last - s.first + 1
    ensures AgreesWith(r, file)
  {
    CachedRange(s.first, file[s.first..s.last + 1])
  }

  /** The range request whose reply `r` holds. */
  function Request(r: CachedRange): Span {
    Span(r.start, LastByte(r.start + |r.data|))
  }

  /** The range requests whose replies `rs` hold, in order. */
  function Requests(rs: seq<CachedRange>): (r: seq<Span>)
    ensures |r| == |rs|
  {
    if rs == [] then [] else Requests(rs[..|rs| - 1]) + [Request(rs[|rs| - 1])]
  }

  lemma RequestsSnoc(rs: seq<CachedRange>, r: CachedRange)
    ensures Requests(rs + [r]) == Requests(rs) + [Request(r)]
  {
    assert (rs + [r])[..|rs|] == rs;
  }

  /** The number of bytes a read of `rem` more bytes copies at `pos` from
      the first range containing it (0 on a miss). */
  function HitLength(cache: seq<CachedRange>, pos: nat, rem: nat): (n: nat)
    ensures FirstContaining(cache, pos).None? ==> n == 0
    ensures FirstContaining(cache, pos).Some? ==>
      var r := cache[FirstContaining(cache, pos).value];
      && n <= rem && pos + n <= r.start + |r.data|
      && (n == rem || pos + n == r.start + |r.data|)
      && (rem > 0 ==> n > 0)
  {
    match FirstContaining(cache, pos)
      case None => 0
      case Some(i) => Min(rem, cache[i].start + |cache[i].data| - pos)
  }

  /** The ranges a read of `rem` bytes at `pos` stores when every fetch
      succeeds, starting from `cache`, in the order it fetches them. On a hit
      the copy takes what the first range containing `pos` holds; on a miss
      the read asks for the `ChunkSpan` at `pos`, stores the reply, and
      copies from it. */
  ghost function Plan(cache: seq<CachedRange>, file: seq<bv8>, pos: nat, rem: nat): (r: seq<CachedRange>)
    requires pos + rem <= |file|
    ensures |r| <= rem
    decreases rem
  {
    if rem == 0 then []
    else match FirstContaining(cache, pos)
      case Some(_) =>
        var n := HitLength(cache, pos, rem);
        Plan(cache, file, pos + n, rem - n)
      case None =>
        var f := Fill(file, ChunkSpan(pos, |file|));
        var n := Min(rem, |f.data|);
        [f] + Plan(cache + [f], file, pos + n, rem - n)
  }

  /** A hit at `pos` copies `HitLength` bytes, at least one, and leaves the
      rest of the plan unchanged. */
  lemma PlanHit(cache: seq<CachedRange>, file: seq<bv8>, pos: nat, rem: nat)
    requires pos + rem <= |file| && rem > 0
    requires FirstContaining(cache, pos).Some?
    ensures var n := HitLength(cache, pos, rem);
      0 < n <= rem && Plan(cache, file, pos, rem) == Plan(cache, file, pos + n, rem - n)
  {
  }

  /** A miss at `pos` stores the chunk there first; the copy then continues
      as a hit on the stored chunk. */
  lemma PlanMiss(cache: seq<CachedRange>, file: seq<bv8>, pos: nat, rem: nat)
    requires pos + rem <= |file| && rem > 0
    requires FirstContaining(cache, pos).None?
    ensures var f := Fill(file, ChunkSpan(pos, |file|));
      && FirstContaining(cache + [f], pos).Some?
      && Plan(cache, file, pos, rem) == [f] + Plan(cache + [f], file, pos, rem)
  {
    var f := Fill(file, ChunkSpan(pos, |file|));
    FirstContainingAppended(cache, f, pos);
    PlanHit(cache + [f], file, pos, rem);
  }

  /** The state of a read part-way through, with `rem` bytes still to copy
      from `pos`: `done` are the ranges stored so far, `c` the cache they
      extend `cache0` to, and `plan` the ranges of the whole read. */
  ghost predicate Progress(cache0: seq<CachedRange>, c: seq<CachedRange>, file: seq<bv8>, pos: nat, rem: nat,
                           done: seq<CachedRange>, plan: seq<CachedRange>)
  {
    && pos + rem <= |file| && AllAgree(c, file)
    && c == cache0 + done
    && done + Plan(c, file, pos, rem) == plan
  }

  /** The state a read stops in after a failed fetch: the ranges stored,
      `done`, are a proper prefix of the plan, and the requests issued are
      theirs and the next one's, which failed. */
  ghost predicate Stopped(cache0: seq<CachedRange>, c: seq<CachedRange>, file: seq<bv8>,
                          done: seq<CachedRange>, plan: seq<CachedRange>, log0: seq<Span>, log: seq<Span>)
  {
    && AllAgree(c, file) && c == cache0 + done
    && |done| < |plan| && done == plan[..|done|]
    && log == log0 + Requests(plan[..|done| + 1])
  }

  lemma AppendAgrees(c: seq<CachedRange>, f: CachedRange, file: seq<bv8>)
    requires AllAgree(c, file) && AgreesWith(f, file)
    ensures AllAgree(c + [f], file)
  {
    forall i | 0 <= i < |c| + 1 ensures AgreesWith((c + [f])[i], file) {
      if i < |c| { assert (c + [f])[i] == c[i]; }
    }
  }

  lemma ConcatAssoc<T>(a: seq<T>, b: seq<T>, c: seq<T>)
    ensures (a + b) + c == a + (b + c)
  {
  }

  /** The state of the copy loop of a read of `size` bytes from `p0`, at
      `pos` with `rem` bytes to go: the cache is on its plan, the output
      holds the bytes copied so far, and the log holds one request per range
      stored. */
  ghost predicate Reading(cache0: seq<CachedRange>, c: seq<CachedRange>, file: seq<bv8>, before: seq<bv8>,
                          o: seq<bv8>, p0: nat, pos: nat, rem: nat, done: seq<CachedRange>,
                          plan: seq<CachedRange>, log0: seq<Span>, log: seq<Span>)
  {
    && Progress(cache0, c, file, pos, rem, done, plan)
    && Copied(o, file, before, p0, pos)
    && log == log0 + Requests(done)
  }

  /** The copy loop's state once the read is complete. */
  lemma ReadingDone(cache0: seq<CachedRange>, c: seq<CachedRange>, file: seq<bv8>, before: seq<bv8>,
                    o: seq<bv8>, p0: nat, pos: nat, size: nat, done: seq<CachedRange>,
                    plan: seq<CachedRange>, log0: seq<Span>, log: seq<Span>)
    requires Reading(cache0, c, file, before, o, p0, pos, 0, done, plan, log0, log) && pos == p0 + size
    ensures AllAgree(c, file) && done == plan && c == cache0 + plan && log == log0 + Requests(plan)
    ensures o == file[p0..p0 + size] + before[size..]
  {
    ProgressDone(cache0, c, file, pos, done, plan);
    CopiedAll(o, file, before, p0, pos, size);
  }

  /** A read with nothing left to copy has stored its whole plan. */
  lemma ProgressDone(cache0: seq<CachedRange>, c: seq<CachedRange>, file: seq<bv8>, pos: nat,
                     done: seq<CachedRange>, plan: seq<CachedRange>)
    requires Progress(cache0, c, file, pos, 0, done, plan)
    ensures done == plan && c == cache0 + plan
  {
    assert Plan(c, file, pos, 0) == [];
    assert done + [] == done;
  }

  /** A miss at `pos` whose fetch of `pos..last` succeeds: the reply is the
      first range of the rest of the plan, and after it is stored `pos` is a
      hit. */
  lemma MissStep(cache0: seq<CachedRange>, c: seq<CachedRange>, file: seq<bv8>, pos: nat, rem: nat,
                 done: seq<CachedRange>, plan: seq<CachedRange>, last: nat, fetched: seq<bv8>)
    requires Progress(cache0, c, file, pos, rem, done, plan) && rem > 0
    requires FirstContaining(c, pos).None?
    requires last == Min(pos + ChunkSize - 1, |file| - 1) && Served(file, pos, last) == Some(fetched)
    ensures var f := CachedRange(pos, fetched);
      && Progress(cache0, c + [f], file, pos, rem, done + [f], plan)
      && FirstContaining(c + [f], pos).Some?
      && Request(f) == Span(pos, last)
  {
    var f := Fill(file, ChunkSpan(pos, |file|));
    assert fetched == file[pos..last + 1];
    assert CachedRange(pos, fetched) == f;
    AppendAgrees(c, f, file);
    ConcatAssoc(cache0, done, [f]);
    PlanMiss(c, file, pos, rem);
    ConcatAssoc(done, [f], Plan(c + [f], file, pos, rem));
  }

  /** A hit at `pos` copies `HitLength` bytes, at least one, and the rest of
      the plan is unchanged. */
  lemma HitStep(cache0: seq<CachedRange>, c: seq<CachedRange>, file: seq<bv8>, pos: nat, rem: nat,
                done: seq<CachedRange>, plan: seq<CachedRange>)
    requires Progress(cache0, c, file, pos, rem, done, plan) && rem > 0
    requires FirstContaining(c, pos).Some?
    ensures var n := HitLength(c, pos, rem);
      0 < n <= rem && Progress(cache0, c, file, pos + n, rem - n, done, plan)
  {
    PlanHit(c, file, pos, rem);
  }

  /** A failed fetch at a miss ends the read in `Stopped`. */
  lemma FailStep(cache0: seq<CachedRange>, c: seq<CachedRange>, file: seq<bv8>, pos: nat, rem: nat,
                 done: seq<CachedRange>, plan: seq<CachedRange>, last: nat, log0: seq<Span>)
    requires Progress(cache0, c, file, pos, rem, done, plan) && rem > 0
    requires FirstContaining(c, pos).None?
    requires last == Min(pos + ChunkSize - 1, |file| - 1)
    ensures Stopped(cache0, c, file, done, plan, log0, log0 + Requests(done) + [Span(pos, last)])
  {
    var f := Fill(file, ChunkSpan(pos, |file|));
    PlanMiss(c, file, pos, rem);
    ConcatAssoc(done, [f], Plan(c + [f], file, pos, rem));
    assert plan[..|done|] == done;
    assert plan[..|done| + 1] == done + [f];
    RequestsSnoc(done, f);
    ConcatAssoc(log0, Requests(done), [Span(pos, last)]);
  }

  /** A cold read of 100000 bytes at the start of a 200000-byte file
      fetches two chunks: a full 64 KiB one, then the next 64 KiB, of which
      the read copies only the first 34464 bytes. */
  lemma ColdRead(file: seq<bv8>)
    requires |file| == 200000
    ensures Plan([], file, 0, 100000) == [Fill(file, Span(0, 65535)), Fill(file, Span(65536, 131071))]
  {
    var f1 := Fill(file, Span(0, 65535));
    var f2 := Fill(file, Span(65536, 131071));
    assert ChunkSpan(0, |file|) == Span(0, 65535);
    assert ChunkSpan(65536, |file|) == Span(65536, 131071);
    assert FirstContaining([f1], 65536).None?;
    assert Plan([f1, f2], file, 100000, 0) == [];
    assert [f1] + [f2] == [f1, f2];
    assert Plan([f1], file, 65536, 34464) == [f2] + Plan([f1] + [f2], file, 100000, 0);
    assert Plan([], file, 0, 100000) == [f1] + Plan([] + [f1], file, 65536, 34464);
  }

  /** Byte `p` lies in some cached range. */
  ghost predicate Cached(cache: seq<CachedRange>, p: nat) {
    exists i :: 0 <= i < |cache| && Contains(cache[i], p)
  }

  /** A read issues no fetch exactly when every byte it covers is already
      cached. */
  lemma {:induction false} PlanEmpty(cache: seq<CachedRange>, file: seq<bv8>, pos: nat, rem: nat)
    requires pos + rem <= |file|
    ensures Plan(cache, file, pos, rem) == [] <==> forall p :: pos <= p < pos + rem ==> Cached(cache, p)
    decreases rem
  {
    if rem > 0 {
      FirstContainingSpec(cache, pos);
      if FirstContaining(cache, pos).Some? {
        var i := FirstContaining(cache, pos).value;
        var n := HitLength(cache, pos, rem);
        PlanHit(cache, file, pos, rem);
        PlanEmpty(cache, file, pos + n, rem - n);
        assert forall p :: pos <= p < pos + n ==> Contains(cache[i], p);
      } else {
        assert !Cached(cache, pos);
      }
    }
  }

  /** `r` is the reply to the chunk request of a miss at a position in
      `lo..hi - 1`. */
  ghost predicate ChunkAt(r: CachedRange, file: seq<bv8>, lo: nat, hi: nat) {
    lo <= r.start < hi <= |file| && r == Fill(file, ChunkSpan(r.start, |file|))
  }

  /** Every range a read stores is the reply to the 64 KiB chunk request
      (clamped to the file) at a position the read covers, and a read of
      `rem` bytes issues at most `rem` fetches. */
  lemma {:induction false} PlanChunks(cache: seq<CachedRange>, file: seq<bv8>, pos: nat, rem: nat)
    requires pos + rem <= |file|
    ensures var r := Plan(cache, file, pos, rem);
      |r| <= rem && forall k :: 0 <= k < |r| ==> ChunkAt(r[k], file, pos, pos + rem)
    decreases rem, 1
  {
    if rem > 0 {
      if FirstContaining(cache, pos).Some? {
        ChunksAfterHit(cache, file, pos, rem);
      } else {
        ChunksAfterMiss(cache, file, pos, rem);
      }
    }
  }

  /** The hit case of `PlanChunks`. */
  lemma {:induction false} ChunksAfterHit(cache: seq<CachedRange>, file: seq<bv8>, pos: nat, rem: nat)
    requires pos + rem <= |file| && rem > 0 && FirstContaining(cache, pos).Some?
    ensures var r := Plan(cache, file, pos, rem);
      |r| <= rem && forall k :: 0 <= k < |r| ==> ChunkAt(r[k], file, pos, pos + rem)
    decreases rem, 0
  {
    var n := HitLength(cache, pos, rem);
    PlanHit(cache, file, pos, rem);
    PlanChunks(cache, file, pos + n, rem - n);
    ChunksCons([], Plan(cache, file, pos + n, rem - n), file, pos, n, rem);
  }

  /** The miss case of `PlanChunks`. */
  lemma {:induction false} ChunksAfterMiss(cache: seq<CachedRange>, file: seq<bv8>, pos: nat, rem: nat)
    requires pos + rem <= |file| && rem > 0 && FirstContaining(cache, pos).None?
    ensures var r := Plan(cache, file, pos, rem);
      |r| <= rem && forall k :: 0 <= k < |r| ==> ChunkAt(r[k], file, pos, pos + rem)
    decreases rem, 0
  {
    var f := Fill(file, ChunkSpan(pos, |file|));
    var n := Min(rem, |f.data|);
    var rest := Plan(cache + [f], file, pos + n, rem - n);
    MissUnfold(cache, file, pos, rem);
    PlanChunks(cache + [f], file, pos + n, rem - n);
    ChunksCons([f], rest, file, pos, n, rem);
  }

  /** The miss case of `Plan`, one step unfolded. */
  lemma MissUnfold(cache: seq<CachedRange>, file: seq<bv8>, pos: nat, rem: nat)
    requires pos + rem <= |file| && rem > 0 && FirstContaining(cache, pos).None?
    ensures var f := Fill(file, ChunkSpan(pos, |file|));
      var n := Min(rem, |f.data|);
      Plan(cache, file, pos, rem) == [f] + Plan(cache + [f], file, pos + n, rem - n)
  {
  }

  lemma ChunksCons(first: seq<CachedRange>, rest: seq<CachedRange>, file: seq<bv8>, lo: nat, n: nat, rem: nat)
    requires |first| <= 1 && n <= rem
    requires forall k :: 0 <= k < |first| ==> ChunkAt(first[k], file, lo, lo + rem)
    requires forall k :: 0 <= k < |rest| ==> ChunkAt(rest[k], file, lo + n, lo + n + (rem - n))
    ensures forall k :: 0 <= k < |first + rest| ==> ChunkAt((first + rest)[k], file, lo, lo + rem)
  {
    forall k | 0 <= k < |first + rest| ensures ChunkAt((first + rest)[k], file, lo, lo + rem) {
      if k >= |first| { assert (first + rest)[k] == rest[k - |first|]; }
    }
  }

  lemma SliceOfAgreeing(r: CachedRange, file: seq<bv8>, offset: nat, n: nat)
    requires AgreesWith(r, file) && offset + n <= |r.data|
    ensures r.data[offset..offset + n] == file[r.start + offset..r.start + offset + n]
  {
    assert forall k :: offset <= k < offset + n ==> r.data[k] == file[r.start + k];
  }

  /** `r` is dropped by a release of `start..end` (`end` is compared
      inclusively with the range's last byte). */
  predicate Released(r: CachedRange, start: nat, end: nat): (b: bool)
    ensures |r.data| > 0 ==> (b <==> forall p: nat :: Contains(r, p) ==> start <= p <= end)
  {
    assert |r.data| > 0 ==> Contains(r, r.start) && Contains(r, r.start + |r.data| - 1);
    r.start >= start && r.start + |r.data| - 1 <= end
  }

  /** The released span includes byte `end` itself: a range whose last byte
      is `end` is dropped, and one reaching past it is kept. */
  lemma ReleaseIncludesEnd(start: nat, end: nat, data: seq<bv8>)
    requires start <= end && |data| == end - start + 1
    ensures Released(CachedRange(start, data), start, end)
    ensures !Released(CachedRange(start, data + [0]), start, end)
  {
  }

  /** The cache after a release of `start..end`. */
  function Kept(cache: seq<CachedRange>, start: nat, end: nat): (r: seq<CachedRange>)
    ensures |r| <= |cache|
    ensures forall x :: x in r <==> x in cache && !Released(x, start, end)
  {
    if cache == [] then []
    else (if Released(cache[0], start, end) then [] else [cache[0]]) + Kept(cache[1..], start, end)
  }

  /** Releasing keeps the surviving ranges in their relative order: the
      release of a concatenation is the concatenation of the releases. */
  lemma {:induction false} KeptConcat(a: seq<CachedRange>, b: seq<CachedRange>, start: nat, end: nat)
    ensures Kept(a + b, start, end) == Kept(a, start, end) + Kept(b, start, end)
  {
    if a != [] {
      assert (a + b)[0] == a[0] && (a + b)[1..] == a[1..] + b;
      KeptConcat(a[1..], b, start, end);
    } else {
      assert a + b == b;
    }
  }

  /** A release keeps every range that is not inside the span, and drops
      nothing else. */
  lemma {:induction false} KeptUnreleased(cache: seq<CachedRange>, start: nat, end: nat)
    requires forall i :: 0 <= i < |cache| ==> !Released(cache[i], start, end)
    ensures Kept(cache, start, end) == cache
  {
    if cache != [] {
      KeptUnreleased(cache[1..], start, end);
    }
  }

  /** The copy of a hit: `n` bytes of `r` from `offset` on go to `out` at
      `pos - p0`, extending the copied prefix of the file by `n` bytes. */
  method CopyHit(out: array<bv8>, r: CachedRange, offset: nat, n: nat, ghost file: seq<bv8>, ghost before: seq<bv8>, p0: nat, pos: nat)
    requires AgreesWith(r, file) && offset + n <= |r.data| && pos == r.start + offset
    requires p0 <= pos && pos + n <= |file| && pos - p0 + n <= |before| == out.Length
    requires Copied(out[..], file, before, p0, pos)
    modifies out
    ensures Copied(out[..], file, before, p0, pos + n)
  {
    SliceOfAgreeing(r, file, offset, n);
    CopyFromFile(out, r.data[offset..offset + n], file, before, p0, pos);
  }

  /** The cache scan of the read path: the first range in list order that
      contains `pos`. */
  method FindRange(cache: seq<CachedRange>, pos: nat) returns (idx: Option<nat>)
    ensures idx.Some? ==> idx.value < |cache| && Contains(cache[idx.value], pos)
    ensures idx.Some? ==> forall j :: 0 <= j < idx.value ==> !Contains(cache[j], pos)
    ensures idx.None? ==> forall j :: 0 <= j < |cache| ==> !Contains(cache[j], pos)
  {
    var i := 0;
    while i < |cache|
      invariant 0 <= i <= |cache|
      invariant forall j :: 0 <= j < i ==> !Contains(cache[j], pos)
    {
      if pos >= cache[i].start && pos < cache[i].start + |cache[i].data| {
        return Some(i);
      }
      i := i + 1;
    }
    return None;
  }

  class HttpReader {
    const server: Server
    /** The file size the HEAD request reported. */
    const fileSize: nat
    var position: nat
    var cache: seq<CachedRange>

    ghost predicate Valid()
      reads this
    {
      && fileSize == |server.content| > 0
      && position <= fileSize
      && AllAgree(cache, server.content)
    }

    /** A reader after a successful `init`: the size is known, the cursor is
        at 0 and nothing is cached. */
    constructor (server: Server)
      requires |server.content| > 0
      ensures Valid() && this.server == server
      ensures position == 0 && cache == []
    {
      this.server := server;
      fileSize := |server.content|;
      position := 0;
      cache := [];
    }

    method GetPosition() returns (p: nat)
      ensures p == position
    {
      p := position;
    }

    /** Copies `size` bytes at the cursor into `out`. A read past the end of
        the file changes nothing; any other read either copies the file's
        bytes and advances the cursor, or stops at a failed fetch with the
        cursor where it was. The ranges it stores are those of `Plan`, or a
        prefix of them, one fetch each; after a failure the last fetch issued
        is the one for the next range of the plan. */
    method Read(size: nat, out: array<bv8>) returns (status: GrowStatus)
      requires Valid() && size <= out.Length
      modifies this`position, this`cache, server, out
      ensures Valid()
      ensures status == SizeReached || status == SizeBeyondEof
      ensures old(position) + size > fileSize ==>
        && status == SizeBeyondEof && position == old(position) && cache == old(cache)
        && server.log == old(server.log) && out[..] == old(out[..])
      ensures status == SizeReached ==>
        var plan := Plan(old(cache), server.content, old(position), size);
        && position == old(position) + size
        && out[..] == server.content[old(position)..old(position) + size] + old(out[size..])
        && cache == old(cache) + plan
        && server.log == old(server.log) + Requests(plan)
      ensures status != SizeReached ==> position == old(position)
      ensures status != SizeReached && old(position) + size <= fileSize ==>
        var plan := Plan(old(cache), server.content, old(position), size);
        var k := |cache| - |old(cache)|;
        && 0 <= k < |plan| && cache == old(cache) + plan[..k]
        && server.log == old(server.log) + Requests(plan[..k + 1])
    {
      if position + size > fileSize {
        return SizeBeyondEof;
      }
      ghost var plan := Plan(cache, server.content, position, size);
      var ok, c, done := CopyLoop(server, fileSize, cache, position, size, out, plan);
      cache := c;
      if !ok {
        return SizeBeyondEof;
      }
      position := position + size;
      return SizeReached;
    }


    method Seek(target: int) returns (r: int)
      requires Valid()
      modifies this`position
      ensures Valid()
      ensures target < 0 || target > fileSize ==> r == -1 && position == old(position)
      ensures 0 <= target <= fileSize ==> r == 0 && position == target
    {
      if target < 0 || target > fileSize {
        return -1;
      }
      position := target;
      return 0;
    }

    /** The size is known from the start, so waiting is a comparison. */
    method WaitForFileSize(target: int) returns (status: GrowStatus)
      ensures status == SizeReached <==> target <= fileSize
      ensures status == SizeReached || status == SizeBeyondEof
    {
      if target <= fileSize {
        return SizeReached;
      }
      return SizeBeyondEof;
    }

    /** A range request for `start..end` (end exclusive). When one cached
        range holds the whole span nothing happens; otherwise exactly one
        fetch of the span is issued, whose reply is appended, or whose
        failure is reported as an error with code 1. */
    method RequestRange(start: nat, end: nat) returns (result: RangeRequestResult)
      requires Valid()
      modifies this`cache, server
      ensures Valid() && position == old(position) && result.rangeEnd == end
      ensures (exists i :: 0 <= i < |old(cache)| && Spans(old(cache)[i], start, LastByte(end))) ==>
        && result == RangeRequestResult(SizeReached, end, 0)
        && cache == old(cache) && server.log == old(server.log)
      ensures (forall i :: 0 <= i < |old(cache)| ==> !Spans(old(cache)[i], start, LastByte(end))) ==>
        && server.log == old(server.log) + [Span(start, LastByte(end))]
        && (result.status == SizeReached ==>
              && Served(server.content, start, LastByte(end)).Some?
              && cache == old(cache) + [CachedRange(start, Served(server.content, start, LastByte(end)).value)]
              && result.errorCode == 0)
        && (result.status != SizeReached ==>
              result.status == Error && result.errorCode == 1 && cache == old(cache))
      ensures result.status == SizeReached && start < end <= fileSize ==>
        exists i :: 0 <= i < |cache| && Spans(cache[i], start, end - 1)
    {
      result := RangeRequestResult(SizeReached, end, 0);
      var lastByte := if end > 0 then end - 1 else 0;
      var i := 0;
      while i < |cache|
        invariant 0 <= i <= |cache|
        invariant forall j :: 0 <= j < i ==> !Spans(cache[j], start, lastByte)
      {
        if start >= cache[i].start && lastByte < cache[i].start + |cache[i].data| {
          return;
        }
        i := i + 1;
      }
      var ok, fetched := server.Fetch(start, lastByte);
      if !ok {
        result := result.(status := Error, errorCode := 1);
        return;
      }
      cache := cache + [CachedRange(start, fetched)];
      if end <= fileSize {
        assert Spans(cache[|cache| - 1], start, lastByte);
      }
    }

    /** Drops the cached ranges that lie inside `start..end`. */
    method ReleaseFileRange(start: nat, end: nat)
      requires Valid()
      modifies this`cache
      ensures Valid() && cache == Kept(old(cache), start, end)
    {
      cache := Kept(cache, start, end);
      forall i | 0 <= i < |cache|
        ensures AgreesWith(cache[i], server.content)
      {
        assert cache[i] in old(cache);
      }
    }

    /** The snapshot for the cache-fill display: offset and length of each
        cached range, in list order. */
    method GetCachedRanges() returns (ranges: seq<RangeInfo>)
      ensures |ranges| == |cache|
      ensures forall i :: 0 <= i < |cache| ==> ranges[i] == RangeInfo(cache[i].start, |cache[i].data|)
    {
      ranges := [];
      var i := 0;
      while i < |cache|
        invariant 0 <= i <= |cache| && |ranges| == i
        invariant forall j :: 0 <= j < i ==> ranges[j] == RangeInfo(cache[j].start, |cache[j].data|)
      {
        ranges := ranges + [RangeInfo(cache[i].start, |cache[i].data|)];
        i := i + 1;
      }
    }
  }

  /** The copy loop of `HttpReader.Read`, a read of `size` bytes from `p0`
      with the cache at `cache0`. It leaves the cursor and the cache field to
      its caller: it returns the cache as the loop left it, and the ranges it
      stored. */
  method CopyLoop(server: Server, fileSize: nat, cache0: seq<CachedRange>, p0: nat, size: nat,
                  out: array<bv8>, ghost plan: seq<CachedRange>)
    returns (ok: bool, c: seq<CachedRange>, ghost done: seq<CachedRange>)
    requires fileSize == |server.content| && AllAgree(cache0, server.content)
    requires size <= out.Length && p0 + size <= fileSize
    requires plan == Plan(cache0, server.content, p0, size)
    modifies server, out
    ensures ok ==>
      && AllAgree(c, server.content) && c == cache0 + plan
      && server.log == old(server.log) + Requests(plan)
      && out[..] == server.content[p0..p0 + size] + old(out[size..])
    ensures !ok ==> Stopped(cache0, c, server.content, done, plan, old(server.log), server.log)
  {
    ghost var file := server.content;
    ghost var before := out[..];
    done := [];
    c := cache0;
    var remaining: nat := size;
    var pos := p0;
    while remaining > 0
      invariant pos + remaining == p0 + size
      invariant Reading(cache0, c, server.content, before, out[..], p0, pos, remaining, done, plan, old(server.log), server.log)
      decreases remaining, if FirstContaining(c, pos).Some? then 0 else 1
    {
      ok, c, pos, remaining, done := ReadStep(server, fileSize, c, p0, pos, remaining, out, cache0, before, old(server.log), done, plan);
      if !ok {
        return;
      }
    }
    ReadingDone(cache0, c, file, before, out[..], p0, pos, size, done, plan, old(server.log), server.log);
    assert before[size..] == old(out[size..]);
    return true, c, done;
  }

  /** One pass of the copy loop of `Read` at `pos`, `rem` bytes before the
      end of the read: a hit or a miss, depending on whether a cached range
      contains `pos`. Either way the ranges stored so far and the ranges
      still to come add up to the same plan. */
  method ReadStep(server: Server, fileSize: nat, c: seq<CachedRange>, p0: nat, pos: nat, rem: nat, out: array<bv8>,
                  ghost cache0: seq<CachedRange>, ghost before: seq<bv8>, ghost log0: seq<Span>,
                  ghost done: seq<CachedRange>, ghost plan: seq<CachedRange>)
    returns (ok: bool, c2: seq<CachedRange>, pos2: nat, rem2: nat, ghost done2: seq<CachedRange>)
    requires fileSize == |server.content| && rem > 0 && pos - p0 + rem <= |before| == out.Length
    requires Reading(cache0, c, server.content, before, out[..], p0, pos, rem, done, plan, log0, server.log)
    modifies server, out
    ensures ok ==>
      && Reading(cache0, c2, server.content, before, out[..], p0, pos2, rem2, done2, plan, log0, server.log)
      && pos2 + rem2 == pos + rem
      && (rem2 < rem || (rem2 == rem && FirstContaining(c, pos).None? && FirstContaining(c2, pos2).Some?))
    ensures !ok ==> Stopped(cache0, c2, server.content, done2, plan, log0, server.log)
  {
    var idx := FindRange(c, pos);
    FirstContainingSpec(c, pos);
    assert idx == FirstContaining(c, pos);
    if idx.Some? {
      pos2, rem2 := ReadHit(server, c, idx.value, p0, pos, rem, out, cache0, before, done, plan);
      return true, c, pos2, rem2, done;
    }
    ok, c2, done2 := ReadMiss(server, fileSize, c, pos, rem, cache0, log0, done, plan);
    return ok, c2, pos, rem, done2;
  }

  /** A hit of the copy loop of `Read`: the bytes from `pos` to the end of
      range `i` of `c`, or to the end of the read, are copied to `out`. */
  method ReadHit(server: Server, c: seq<CachedRange>, i: nat, p0: nat, pos: nat, rem: nat, out: array<bv8>,
                 ghost cache0: seq<CachedRange>, ghost before: seq<bv8>,
                 ghost done: seq<CachedRange>, ghost plan: seq<CachedRange>)
    returns (pos2: nat, rem2: nat)
    requires rem > 0 && Progress(cache0, c, server.content, pos, rem, done, plan)
    requires FirstContaining(c, pos) == Some(i) && i < |c|
    requires p0 <= pos && pos - p0 + rem <= |before| == out.Length
    requires Copied(out[..], server.content, before, p0, pos)
    modifies out
    ensures Progress(cache0, c, server.content, pos2, rem2, done, plan)
    ensures pos2 + rem2 == pos + rem && pos < pos2
    ensures Copied(out[..], server.content, before, p0, pos2)
  {
    var r := c[i];
    var offset := pos - r.start;
    var toCopy := Min(rem, |r.data| - offset);
    HitStep(cache0, c, server.content, pos, rem, done, plan);
    CopyHit(out, r, offset, toCopy, server.content, before, p0, pos);
    return pos + toCopy, rem - toCopy;
  }

  /** A miss of the copy loop of `Read`: one fetch of the chunk at `pos`,
      appended to the cache when it succeeds. */
  method ReadMiss(server: Server, fileSize: nat, c: seq<CachedRange>, pos: nat, rem: nat, ghost cache0: seq<CachedRange>,
                  ghost log0: seq<Span>, ghost done: seq<CachedRange>, ghost plan: seq<CachedRange>)
    returns (ok: bool, c2: seq<CachedRange>, ghost done2: seq<CachedRange>)
    requires fileSize == |server.content| && rem > 0
    requires Progress(cache0, c, server.content, pos, rem, done, plan)
    requires FirstContaining(c, pos).None?
    requires server.log == log0 + Requests(done)
    modifies server
    ensures ok ==>
      && Progress(cache0, c2, server.content, pos, rem, done2, plan)
      && server.log == log0 + Requests(done2) && FirstContaining(c2, pos).Some?
    ensures !ok ==> Stopped(cache0, c2, server.content, done2, plan, log0, server.log)
  {
    var last := Min(pos + ChunkSize - 1, fileSize - 1);
    var fetched;
    ok, fetched := server.Fetch(pos, last);
    if !ok {
      FailStep(cache0, c, server.content, pos, rem, done, plan, last, log0);
      return false, c, done;
    }
    MissStep(cache0, c, server.content, pos, rem, done, plan, last, fetched);
    RequestsSnoc(done, CachedRange(pos, fetched));
    ConcatAssoc(log0, Requests(done), [Span(pos, last)]);
    c2, done2 := c + [CachedRange(pos, fetched)], done + [CachedRange(pos, fetched)];
  }

  /** Repeating a successful range request that ends inside the file issues
      no further fetch and changes nothing: `log1` and `cache1` are the state
      the first request left. */
  method RequestRangeTwice(reader: HttpReader, start: nat, end: nat)
    returns (first: RangeRequestResult, second: RangeRequestResult, ghost log1: seq<Span>, ghost cache1: seq<CachedRange>)
    requires reader.Valid() && start < end <= reader.fileSize
    modifies reader`cache, reader.server
    ensures reader.Valid()
    ensures (exists i :: 0 <= i < |old(reader.cache)| && Spans(old(reader.cache)[i], start, end - 1)) ==>
      log1 == old(reader.server.log) && cache1 == old(reader.cache)
    ensures (forall i :: 0 <= i < |old(reader.cache)| ==> !Spans(old(reader.cache)[i], start, end - 1)) ==>
      && log1 == old(reader.server.log) + [Span(start, end - 1)]
      && (cache1 == old(reader.cache) || cache1 == old(reader.cache) + [CachedRange(start, reader.server.content[start..end])])
    ensures first.status == SizeReached ==>
      && second == RangeRequestResult(SizeReached, end, 0)
      && reader.server.log == log1 && reader.cache == cache1
  {
    first := reader.RequestRange(start, end);
    log1, cache1 := reader.server.log, reader.cache;
    second := reader.RequestRange(start, end);
  }

  /** A range request that ends past the end of the file is answered only up
      to the end of the file, so no cached range ever spans it, and every
      repeat fetches it again, whether the first request succeeded or not. */
  method RequestRangePastEnd(reader: HttpReader, start: nat, end: nat)
    returns (first: RangeRequestResult, second: RangeRequestResult, ghost log1: seq<Span>)
    requires reader.Valid() && start < reader.fileSize < end
    modifies reader`cache, reader.server
    ensures reader.Valid()
    ensures log1 == old(reader.server.log) + [Span(start, end - 1)]
    ensures reader.server.log == log1 + [Span(start, end - 1)]
  {
    first := reader.RequestRange(start, end);
    log1 := reader.server.log;
    forall i | 0 <= i < |reader.cache|
      ensures !Spans(reader.cache[i], start, end - 1)
    {
      assert AgreesWith(reader.cache[i], reader.server.content);
    }
    second := reader.RequestRange(start, end);
  }
}
