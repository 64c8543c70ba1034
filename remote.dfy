/** The byte-source contract the tile decoder pulls from, and the remote
    resource behind it.

    The remote resource is a `Server` holding the file's bytes. Its one
    operation, `Fetch`, is a blocking HTTP range request for the byte-range-spec
    `first-last` (both ends inclusive, section 14.1.2 of RFC 9110): the transport
    may fail at any time, and when it succeeds the reply is exactly the
    satisfiable part of the requested range. Every request is recorded in the
    ghost `log`, so that callers can state how many fetches, and which, an
    operation issues. */
module Remote {
  import opened Options

  /** An inclusive byte-range-spec `first-last`. */
  datatype Span = Span(first: nat, last: nat)

  /** The status codes of the decoder's byte-source interface that the
      readers return. */
  datatype GrowStatus = SizeReached | SizeBeyondEof | Error

  /** The result of a range request: a status, the end the caller asked for
      and a reader-specific error code (0 when there is none). */
  datatype RangeRequestResult = RangeRequestResult(status: GrowStatus, rangeEnd: nat, errorCode: nat)

  /** One entry of the cache snapshot used for the fill visualisation. */
  datatype RangeInfo = RangeInfo(start: nat, size: nat)

  function Min(a: int, b: int): (r: int) { if a <= b then a else b }

  /** The last byte of the exclusive end `end`, with an end of 0 read as
      byte 0. */
  function LastByte(end: nat): (r: nat)
    ensures end > 0 ==> r + 1 == end
    ensures end == 0 ==> r == 0
  {
    if end > 0 then end - 1 else 0
  }

  /** What a server holding `content` answers to the range `first-last`:
      a range whose first byte lies inside the file is satisfiable and is
      answered with its bytes up to the end of the file; an unsatisfiable
      range (416) and an invalid one (`last < first`) fail. */
  function Served(content: seq<bv8>, first: nat, last: nat): (r: Option<seq<bv8>>)
    ensures r.Some? <==> first <= last && first < |content|
    ensures r.Some? ==> |r.value| == Min(last + 1, |content|) - first > 0
    ensures r.Some? ==> forall i :: 0 <= i < |r.value| ==> r.value[i] == content[first + i]
  {
    if first <= last && first < |content| then Some(content[first..Min(last + 1, |content|)]) else None
  }

  class Server {
    /** The bytes of the remote file. */
    const content: seq<bv8>
    /** Every range requested so far, in order. */
    ghost var log: seq<Span>

    constructor (content: seq<bv8>)
      ensures this.content == content && log == []
    {
      this.content := content;
      log := [];
    }

    /** One range request. The transport can fail whatever was asked;
        a reply that arrives is the one `Served` describes. */
    method Fetch(first: nat, last: nat) returns (ok: bool, data: seq<bv8>)
      modifies this
      ensures log == old(log) + [Span(first, last)]
      ensures ok ==> Served(content, first, last) == Some(data)
      ensures Served(content, first, last).None? ==> !ok
    {
      log := log + [Span(first, last)];
      var reply := Served(content, first, last);
      var up: bool :| true;
      if up && reply.Some? {
        ok, data := true, reply.value;
      } else {
        ok, data := false, [];
      }
    }
  }

  /** `memcpy(dst + at, src, |src|)`. */
  method CopyBytes(dst: array<bv8>, at: nat, src: seq<bv8>)
    requires at + |src| <= dst.Length
    modifies dst
    ensures dst[..] == old(dst[..at]) + src + old(dst[at + |src|..])
  {
    forall i | 0 <= i < |src| {
      dst[at + i] := src[i];
    }
  }

  /** The output buffer after one more copy of `n` file bytes at `pos`. */
  lemma CopyStep(o: seq<bv8>, file: seq<bv8>, before: seq<bv8>, p0: nat, pos: nat, n: nat)
    requires p0 <= pos && pos + n <= |file| && pos - p0 + n <= |before|
    requires o == file[p0..pos] + before[pos - p0..]
    ensures o[..pos - p0] + file[pos..pos + n] + o[pos - p0 + n..] == file[p0..pos + n] + before[pos - p0 + n..]
  {
    assert o[..pos - p0] == file[p0..pos];
    assert o[pos - p0 + n..] == before[pos - p0 + n..];
    assert file[p0..pos] + file[pos..pos + n] == file[p0..pos + n];
  }

  /** The output buffer `o` of a read that started at `p0` and has reached
      `pos`: the file's bytes from `p0` to `pos`, then the buffer's original
      bytes `before`. */
  ghost predicate Copied(o: seq<bv8>, file: seq<bv8>, before: seq<bv8>, p0: nat, pos: nat) {
    p0 <= pos <= |file| && pos - p0 <= |before| && o == file[p0..pos] + before[pos - p0..]
  }

  /** A read of `size` bytes from `p0` that has reached `p0 + size` has
      copied all of them. */
  lemma CopiedAll(o: seq<bv8>, file: seq<bv8>, before: seq<bv8>, p0: nat, pos: nat, size: nat)
    requires Copied(o, file, before, p0, pos) && pos == p0 + size
    ensures o == file[p0..p0 + size] + before[size..]
  {
  }

  /** The copy step of a read: `src`, the file's bytes at `pos`, goes to
      `out` at `pos - p0`, which extends the copied part of the file (the
      bytes from `p0`) at the front of `out` by `|src|` bytes. */
  method CopyFromFile(out: array<bv8>, src: seq<bv8>, ghost file: seq<bv8>, ghost before: seq<bv8>, p0: nat, pos: nat)
    requires p0 <= pos && pos + |src| <= |file| && pos - p0 + |src| <= |before| == out.Length
    requires src == file[pos..pos + |src|]
    requires Copied(out[..], file, before, p0, pos)
    modifies out
    ensures Copied(out[..], file, before, p0, pos + |src|)
  {
    ghost var o := out[..];
    CopyBytes(out, pos - p0, src);
    CopyStep(o, file, before, p0, pos, |src|);
  }
}
