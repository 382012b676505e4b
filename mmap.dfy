/** `MemoryMap::append` of `src/core/mmap.rs`: an append-only log inside a
    fixed-capacity memory-mapped region. Bytes [0, 8) hold the log's logical
    length as a big-endian `usize`; the records follow from offset 8. */
module MemoryMapping {
  import opened Endian

  /** Where the records start; the header occupies the bytes before it. */
  const HEADER_OFFSET: nat := 8

  /** `usize::MAX + 1` on a 64-bit target: lengths and offsets stay below it. */
  const USIZE_LIMIT: nat := 0x1_0000_0000_0000_0000

  /** The logical length stored in the header. */
  function Header(region: seq<byte>): (n: nat)
    requires |region| >= HEADER_OFFSET
    ensures n < USIZE_LIMIT
  {
    HalfI64();
    FromBE(region[..HEADER_OFFSET])
  }

  /** The header bytes are the 8-byte big-endian word of the length they
      hold: writing that length back leaves them as they are. */
  lemma HeaderWord(region: seq<byte>)
    requires |region| >= HEADER_OFFSET
    ensures ToBE(Header(region), HEADER_OFFSET) == region[..HEADER_OFFSET]
  {
    ToBEFromBE(region[..HEADER_OFFSET]);
  }

  /** The header's records lie inside the region. */
  predicate WellFormed(region: seq<byte>)
  {
    |region| >= HEADER_OFFSET && HEADER_OFFSET + Header(region) <= |region|
  }

  /** The region after `append(value)`: the header rewritten to the old
      length plus `|value|`, and `value` copied to `start = 8 + old length`
      (see `AppendToLayout`). `None` where the source's slice indexing is out
      of bounds (the header slice, or the target range past the capacity);
      then nothing is written, because the bounds are checked before the
      header is. */
  function AppendTo(region: seq<byte>, value: seq<byte>): (r: Option<seq<byte>>)
    requires |region| < USIZE_LIMIT
    ensures r.Some? <==> |region| >= HEADER_OFFSET && HEADER_OFFSET + Header(region) + |value| <= |region|
    ensures r.Some? ==> |r.value| == |region|
  {
    if |region| < HEADER_OFFSET then None
    else
      var start := Header(region) + HEADER_OFFSET;
      var end := start + |value|;
      if end > |region| then None
      else
        HalfI64();
        Some(ToBE(start - HEADER_OFFSET + |value|, HEADER_OFFSET) + region[HEADER_OFFSET..start] + value + region[end..])
  }

  /** After an append the header holds the old length plus `|value|`, the
      log is well formed, the bytes before `start` are the old records, the
      bytes [start, end) are `value`, and the slack from `end` on is as it was:
      nothing outside the header and [start, end) changes. */
  lemma AppendToLayout(region: seq<byte>, value: seq<byte>)
    requires |region| < USIZE_LIMIT && AppendTo(region, value).Some?
    ensures
      var r := AppendTo(region, value).value;
      var start := HEADER_OFFSET + Header(region);
      var end := start + |value|;
      && Header(r) == Header(region) + |value|
      && WellFormed(r)
      && r[HEADER_OFFSET..start] == region[HEADER_OFFSET..start]
      && r[start..end] == value
      && r[end..] == region[end..]
  {
    HalfI64();
    var start := HEADER_OFFSET + Header(region);
    var header := ToBE(Header(region) + |value|, HEADER_OFFSET);
    var r := AppendTo(region, value).value;
    assert r == header + region[HEADER_OFFSET..start] + value + region[start + |value|..];
    assert r[..HEADER_OFFSET] == header;
  }

  /** The sum of the lengths of `values`. */
  function TotalLength(values: seq<seq<byte>>): (n: nat)
  {
    if values == [] then 0 else |values[0]| + TotalLength(values[1..])
  }

  /** The concatenation of `values`, in order. */
  function Concat(values: seq<seq<byte>>): (s: seq<byte>)
    ensures |s| == TotalLength(values)
  {
    if values == [] then [] else values[0] + Concat(values[1..])
  }

  /** The region after appending each of `values` in turn, or `None` if one
      of the appends is out of bounds. */
  function AppendAll(region: seq<byte>, values: seq<seq<byte>>): (r: Option<seq<byte>>)
    requires |region| < USIZE_LIMIT
    ensures r.Some? ==> |r.value| == |region|
    decreases |values|
  {
    if values == [] then Some(region)
    else
      match AppendTo(region, values[0])
      case None => None
      case Some(next) => AppendAll(next, values[1..])
  }

  /** One more append extends a successful run of appends. */
  lemma {:induction false} AppendAllSnoc(region: seq<byte>, values: seq<seq<byte>>, v: seq<byte>)
    requires |region| < USIZE_LIMIT
    requires AppendAll(region, values).Some?
    ensures AppendAll(region, values + [v]) == AppendTo(AppendAll(region, values).value, v)
    decreases |values|
  {
    if values != [] {
      assert (values + [v])[0] == values[0];
      assert (values + [v])[1..] == values[1..] + [v];
      AppendAllSnoc(AppendTo(region, values[0]).value, values[1..], v);
    }
  }

  /** The record area after one append is the old record area followed by
      the value. */
  lemma AppendToRecords(region: seq<byte>, v: seq<byte>)
    requires |region| < USIZE_LIMIT && AppendTo(region, v).Some?
    ensures var h := Header(region);
      AppendTo(region, v).value[HEADER_OFFSET..HEADER_OFFSET + h + |v|]
        == region[HEADER_OFFSET..HEADER_OFFSET + h] + v
  {
    var next := AppendTo(region, v).value;
    var start := HEADER_OFFSET + Header(region);
    AppendToLayout(region, v);
    assert next[HEADER_OFFSET..start + |v|] == next[HEADER_OFFSET..start] + next[start..start + |v|];
  }

  /** Two sequences that agree from `i` on agree from any later `j` on. */
  lemma SuffixAgree<T>(a: seq<T>, b: seq<T>, i: nat, j: nat)
    requires i <= j <= |a| == |b| && a[i..] == b[i..]
    ensures a[j..] == b[j..]
  {
    assert a[j..] == a[i..][j - i..];
    assert b[j..] == b[i..][j - i..];
  }

  /** A run of appends on a well-formed log succeeds exactly when all the
      values fit in the region; then the header is the old length plus the
      total appended, the record area is the old records followed by the
      values in order, and the slack after them is untouched. */
  lemma {:induction false} AppendAllLog(region: seq<byte>, values: seq<seq<byte>>)
    requires |region| < USIZE_LIMIT && WellFormed(region)
    ensures AppendAll(region, values).Some?
        <==> HEADER_OFFSET + Header(region) + TotalLength(values) <= |region|
    ensures AppendAll(region, values).Some? ==>
      var r := AppendAll(region, values).value;
      var h := Header(region);
      var n := h + TotalLength(values);
      && Header(r) == n
      && r[HEADER_OFFSET..HEADER_OFFSET + n] == region[HEADER_OFFSET..HEADER_OFFSET + h] + Concat(values)
      && r[HEADER_OFFSET + n..] == region[HEADER_OFFSET + n..]
    decreases |values|
  {
    if values != [] {
      var v, rest := values[0], values[1..];
      var h := Header(region);
      assert TotalLength(values) == |v| + TotalLength(rest);
      assert Concat(values) == v + Concat(rest);
      if AppendTo(region, v).Some? {
        var next := AppendTo(region, v).value;
        AppendToLayout(region, v);
        AppendToRecords(region, v);
        AppendAllLog(next, rest);
        assert AppendAll(region, values) == AppendAll(next, rest);
        if AppendAll(next, rest).Some? {
          var r := AppendAll(next, rest).value;
          assert Header(r) == h + TotalLength(values);
          ComposeRuns(region, next, r, h, v, Concat(rest));
        }
      }
    }
  }

  /** Record areas compose: if `next` is `region` with `v` appended after `h`
      bytes of records, and `r` is `next` with `c` appended, then `r` is
      `region` with `v + c` appended. */
  lemma ComposeRuns(region: seq<byte>, next: seq<byte>, r: seq<byte>, h: nat, v: seq<byte>, c: seq<byte>)
    requires |region| == |next| == |r|
    requires HEADER_OFFSET + h + |v| + |c| <= |region|
    requires next[HEADER_OFFSET..HEADER_OFFSET + h + |v|] == region[HEADER_OFFSET..HEADER_OFFSET + h] + v
    requires next[HEADER_OFFSET + h + |v|..] == region[HEADER_OFFSET + h + |v|..]
    requires r[HEADER_OFFSET..HEADER_OFFSET + h + |v| + |c|] == next[HEADER_OFFSET..HEADER_OFFSET + h + |v|] + c
    requires r[HEADER_OFFSET + h + |v| + |c|..] == next[HEADER_OFFSET + h + |v| + |c|..]
    ensures r[HEADER_OFFSET..HEADER_OFFSET + h + |v| + |c|] == region[HEADER_OFFSET..HEADER_OFFSET + h] + (v + c)
    ensures r[HEADER_OFFSET + h + |v| + |c|..] == region[HEADER_OFFSET + h + |v| + |c|..]
  {
    SuffixAgree(next, region, HEADER_OFFSET + h + |v|, HEADER_OFFSET + h + |v| + |c|);
  }

  /** From an empty log (header 0), any run of successful appends leaves the
      header equal to the total appended and the record area equal to the
      values concatenated in order. */
  lemma FromEmptyLog(region: seq<byte>, values: seq<seq<byte>>)
    requires |region| < USIZE_LIMIT && |region| >= HEADER_OFFSET && Header(region) == 0
    requires AppendAll(region, values).Some?
    ensures HEADER_OFFSET + TotalLength(values) <= |region|
    ensures Header(AppendAll(region, values).value) == TotalLength(values)
    ensures AppendAll(region, values).value[HEADER_OFFSET..HEADER_OFFSET + TotalLength(values)] == Concat(values)
  {
    AppendAllLog(region, values);
    assert region[HEADER_OFFSET..HEADER_OFFSET] == [];
  }

  // ---------------------------------------------------------------------
  // The source as written rewrites the header before it indexes the target
  // range, so an append that does not fit leaves the new header behind.

  /** What `append` as written leaves in the region, and whether it panics. */
  datatype Outcome = Outcome(region: seq<byte>, panicked: bool)

  /** `append` statement by statement: reading the header slice panics on a
      region shorter than 8 bytes; the `usize` additions panic on overflow
      (a debug build); the header is then rewritten; and only then does the
      slice `[start..end]` panic when `end` is past the capacity. */
  function AppendAsWritten(region: seq<byte>, value: seq<byte>): (o: Outcome)
    requires |region| < USIZE_LIMIT
    ensures |o.region| == |region|
    ensures o.panicked <==> AppendTo(region, value).None?
  {
    if |region| < HEADER_OFFSET then Outcome(region, true)
    else
      var start := Header(region) + HEADER_OFFSET;
      if start + |value| >= USIZE_LIMIT then Outcome(region, true)
      else
        var end := start + |value|;
        HalfI64();
        var withHeader := ToBE(start - HEADER_OFFSET + |value|, HEADER_OFFSET) + region[HEADER_OFFSET..];
        if end > |region| then Outcome(withHeader, true)
        else Outcome(withHeader[..start] + value + withHeader[end..], false)
  }

  /** Wherever the corrected append succeeds, the source does the same
      thing and does not panic. */
  lemma AsWrittenAgrees(region: seq<byte>, value: seq<byte>)
    requires |region| < USIZE_LIMIT
    requires AppendTo(region, value).Some?
    ensures AppendAsWritten(region, value) == Outcome(AppendTo(region, value).value, false)
  {
    var start := Header(region) + HEADER_OFFSET;
    var end := start + |value|;
    HalfI64();
    var header := ToBE(start - HEADER_OFFSET + |value|, HEADER_OFFSET);
    var withHeader := header + region[HEADER_OFFSET..];
    assert withHeader[..start] == header + region[HEADER_OFFSET..start];
    assert withHeader[end..] == region[end..];
  }

  /** An append that does not fit, on a well-formed log, panics after it has
      rewritten the header to claim bytes past the end of the region: the log
      is no longer well formed. */
  lemma AsWrittenCorruptsHeader(region: seq<byte>, value: seq<byte>)
    requires |region| < USIZE_LIMIT && WellFormed(region)
    requires |region| < HEADER_OFFSET + Header(region) + |value| < USIZE_LIMIT
    ensures AppendTo(region, value).None?
    ensures AppendAsWritten(region, value).panicked
    ensures |AppendAsWritten(region, value).region| == |region|
    ensures Header(AppendAsWritten(region, value).region) == Header(region) + |value|
    ensures !WellFormed(AppendAsWritten(region, value).region)
  {
    HalfI64();
    var start := Header(region) + HEADER_OFFSET;
    var header := ToBE(start - HEADER_OFFSET + |value|, HEADER_OFFSET);
    assert (header + region[HEADER_OFFSET..])[..HEADER_OFFSET] == header;
  }

  /** Once the header claims more than the region holds, every later append
      panics, even of no bytes. */
  lemma AsWrittenStuck(region: seq<byte>, value: seq<byte>)
    requires |region| < USIZE_LIMIT && |region| >= HEADER_OFFSET && !WellFormed(region)
    ensures AppendAsWritten(region, value).panicked
  {
  }

  /** A 16-byte region holding an empty log, and a 9-byte value: the source
      panics with the header already saying 9, one byte more than the region
      can hold; the corrected append reports the overflow and writes nothing. */
  lemma AsWrittenCounterexample()
    ensures var region, value := Zeros(16), Zeros(9);
      && WellFormed(region) && Header(region) == 0
      && AppendTo(region, value).None?
      && AppendAsWritten(region, value).panicked
      && Header(AppendAsWritten(region, value).region) == 9
      && !WellFormed(AppendAsWritten(region, value).region)
      && AppendAsWritten(AppendAsWritten(region, value).region, []).panicked
  {
    var region, value := Zeros(16), Zeros(9);
    assert WellFormed(region) && Header(region) == 0 by {
      AllZeros(region[..HEADER_OFFSET]);
    }
    AsWrittenCorruptsHeader(region, value);
    AsWrittenStuck(AppendAsWritten(region, value).region, []);
  }

  /** `n` zero bytes, as in a freshly extended file. */
  function Zeros(n: nat): (s: seq<byte>)
    ensures |s| == n && forall k :: 0 <= k < n ==> s[k] == 0
  {
    seq(n, _ => 0)
  }

  // ---------------------------------------------------------------------
  // The region itself.

  /** What `append` returns: the flush's result, or the out-of-bounds case
      in which the source panics. */
  datatype AppendResult = Flushed | FlushFailed | OutOfBounds

  /** `copy_from_slice` into `dst[at .. at + |src|]`. */
  method CopyInto(dst: array<byte>, at: nat, src: seq<byte>)
    requires at + |src| <= dst.Length
    modifies dst
    ensures dst[..] == old(dst[..])[..at] + src + old(dst[..])[at + |src|..]
  {
    for i := 0 to |src|
      invariant forall k :: 0 <= k < dst.Length ==>
        dst[k] == (if at <= k < at + i then src[k - at] else old(dst[k]))
    {
      dst[at + i] := src[i];
    }
    assert dst[..] == old(dst[..])[..at] + src + old(dst[..])[at + |src|..];
  }

  /** Rewriting the header and then copying the value in, the two writes of
      `append`, produce the region `AppendTo` describes. */
  lemma HeaderThenValue(before: seq<byte>, value: seq<byte>, withHeader: seq<byte>, after: seq<byte>)
    requires |before| < USIZE_LIMIT && AppendTo(before, value).Some?
    requires
      var start := HEADER_OFFSET + Header(before);
      && withHeader == ToBE(Header(before) + |value|, HEADER_OFFSET) + before[HEADER_OFFSET..]
      && after == withHeader[..start] + value + withHeader[start + |value|..]
    ensures after == AppendTo(before, value).value
  {
    HalfI64();
    var header := ToBE(Header(before) + |value|, HEADER_OFFSET);
    Splice(before, header, value, HEADER_OFFSET + Header(before), withHeader, after);
  }

  /** The two writes of `append` extend the history of appends by the value:
      the region after them is the history's region with the value appended. */
  lemma AppendStep(initial: seq<byte>, appended: seq<seq<byte>>, before: seq<byte>, value: seq<byte>,
                   withHeader: seq<byte>, after: seq<byte>)
    requires |initial| < USIZE_LIMIT && AppendAll(initial, appended) == Some(before)
    requires AppendTo(before, value).Some?
    requires
      var start := HEADER_OFFSET + Header(before);
      && withHeader == ToBE(Header(before) + |value|, HEADER_OFFSET) + before[HEADER_OFFSET..]
      && after == withHeader[..start] + value + withHeader[start + |value|..]
    ensures AppendAll(initial, appended + [value]) == Some(after)
    ensures after == AppendTo(before, value).value
    ensures Header(after) == Header(before) + |value|
    ensures after[HEADER_OFFSET + Header(before)..HEADER_OFFSET + Header(before) + |value|] == value
  {
    HeaderThenValue(before, value, withHeader, after);
    AppendToLayout(before, value);
    AppendAllSnoc(initial, appended, value);
  }

  /** Overwriting the first |hdr| bytes and then [start, start + |value|)
      leaves the bytes in between and after as they were. */
  lemma Splice<T>(before: seq<T>, hdr: seq<T>, value: seq<T>, start: nat, withHeader: seq<T>, after: seq<T>)
    requires |hdr| <= start && start + |value| <= |before|
    requires withHeader == hdr + before[|hdr|..]
    requires after == withHeader[..start] + value + withHeader[start + |value|..]
    ensures after == hdr + before[|hdr|..start] + value + before[start + |value|..]
  {
    assert withHeader[..start] == hdr + before[|hdr|..start];
    assert withHeader[start + |value|..] == before[start + |value|..];
  }

  /** `MemoryMap`: a mapped region of fixed capacity holding the log. */
  class MemoryMap {
    /** The mapping's length, fixed when it is established. */
    const capacity: nat
    /** The mapped bytes (`MMap` dereferenced as `[u8]`). */
    const bytes: array<byte>
    /** The file's contents as of the flushes that succeeded so far. */
    var disk: seq<byte>
    /** The region's contents when it was mapped, and the values appended since. */
    ghost const initial: seq<byte>
    ghost var appended: seq<seq<byte>>

    ghost predicate Valid()
      reads this, bytes
    {
      && bytes.Length == capacity && capacity < USIZE_LIMIT
      && |disk| == capacity && |initial| == capacity
      && AppendAll(initial, appended) == Some(bytes[..])
    }

    /** A region mapped over a file whose contents are `contents`. */
    constructor (contents: seq<byte>)
      requires |contents| < USIZE_LIMIT
      ensures Valid() && fresh(bytes)
      ensures capacity == |contents| && bytes[..] == contents && disk == contents
      ensures initial == contents && appended == []
    {
      var a := new byte[|contents|](i requires 0 <= i < |contents| => contents[i]);
      assert a[..] == contents;
      capacity := |contents|;
      bytes := a;
      disk := contents;
      initial := contents;
      appended := [];
    }

    /** `MMap::flush`: a synchronous write-back of the prefix [0, upTo);
        `synced` is the operating system's answer. */
    method Flush(upTo: nat, synced: bool) returns (ok: bool)
      requires Valid() && upTo <= capacity
      modifies this`disk
      ensures Valid()
      ensures ok == synced
      ensures disk == if ok then bytes[..upTo] + old(disk)[upTo..] else old(disk)
    {
      ok := synced;
      if ok {
        disk := bytes[..upTo] + disk[upTo..];
      }
    }

    /** `MemoryMap::append`: reads the header, writes the new length into it,
        copies `value` to `[start, end)` and flushes `[0, end)`; the result is
        the flush's. Out of bounds (where the source panics) nothing changes. */
    method Append(value: seq<byte>, synced: bool) returns (r: AppendResult)
      requires Valid()
      modifies bytes, this`disk, this`appended
      ensures Valid()
      ensures r == OutOfBounds <==> AppendTo(old(bytes[..]), value).None?
      ensures r == OutOfBounds ==>
        bytes[..] == old(bytes[..]) && disk == old(disk) && appended == old(appended)
      ensures r != OutOfBounds ==>
        var start := HEADER_OFFSET + Header(old(bytes[..]));
        var end := start + |value|;
        && bytes[..] == AppendTo(old(bytes[..]), value).value
        && Header(bytes[..]) == Header(old(bytes[..])) + |value|
        && bytes[start..end] == value
        && appended == old(appended) + [value]
        && (r == Flushed <==> synced)
        && disk == if synced then bytes[..end] + old(disk)[end..] else old(disk)
    {
      if capacity < HEADER_OFFSET {
        return OutOfBounds;
      }
      var start := Header(bytes[..]) + HEADER_OFFSET;
      var end := start + |value|;
      if end > capacity {
        return OutOfBounds;
      }
      var total := start - HEADER_OFFSET + |value|;
      HalfI64();
      ghost var before := bytes[..];
      var header := ToBE(total, HEADER_OFFSET);
      CopyInto(bytes, 0, header);
      ghost var withHeader := bytes[..];
      CopyInto(bytes, start, value);
      AppendStep(initial, appended, before, value, withHeader, bytes[..]);
      appended := appended + [value];
      var ok := Flush(end, synced);
      r := if ok then Flushed else FlushFailed;
    }

    /** The log invariant: a region mapped over a well-formed log holds, after
        any run of appends, the old records followed by the appended values
        in order, with the header counting them all. */
    lemma LogInvariant()
      requires Valid() && WellFormed(initial)
      ensures WellFormed(bytes[..])
      ensures Header(bytes[..]) == Header(initial) + TotalLength(appended)
      ensures bytes[HEADER_OFFSET..HEADER_OFFSET + Header(bytes[..])]
        == initial[HEADER_OFFSET..HEADER_OFFSET + Header(initial)] + Concat(appended)
    {
      AppendAllLog(initial, appended);
      assert bytes[..][HEADER_OFFSET..HEADER_OFFSET + Header(bytes[..])]
        == bytes[HEADER_OFFSET..HEADER_OFFSET + Header(bytes[..])];
    }
  }
}
