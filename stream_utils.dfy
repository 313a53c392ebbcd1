/** `StreamUtils` (src/StreamUtils.php): building a stream from a value,
    and a chunked copy between two streams. */
module Utils {
  import opened Results
  import opened Handles
  import opened Streams
  import Modes

  /** What `create` may be given: another stream (a plain `Stream` here),
      a string, an open resource, or a value of some other type, named by
      its debug type. */
  datatype Input =
    | PsrStream(stream: Stream)
    | Text(bytes: Bytes)
    | Resource(handle: Handle)
    | Other(typeName: string)

  /** The state `create($string)` builds (src/StreamUtils.php:21-26): a
      fresh `rb+` temporary stream, written and then rewound. */
  function FromString(s: Bytes): (st: StreamState)
  {
    StreamState.Temp("rb+").Write(s).0.Rewind().0
  }

  /** That stream holds exactly the string, with the cursor at 0, and it
      is readable, writable and seekable. */
  lemma FromStringHolds(s: Bytes)
    ensures FromString(s) == StreamState.Open(Handle(s, 0, false, "rb+", true, true), None)
    ensures FromString(s).readable && FromString(s).writable && FromString(s).seekable
  {
    Modes.ReadWriteBinary();
    OverwriteAtEnd([], s);
    assert [] + s == s;
  }

  /** Reading all of it back yields the string. */
  lemma FromStringRoundTrip(s: Bytes)
    ensures FromString(s).GetContents().1 == Ok(s)
    ensures FromString(s).Read(|s|).1 == Ok(s)
  {
    FromStringHolds(s);
    ReadsBackFromStart(FromString(s), s);
  }

  lemma ReadsBackFromStart(st: StreamState, s: Bytes)
    requires st.Valid() && st.Attached() && st.readable && st.seekable
    requires st.handle.value.pos == 0 && st.handle.value.data == s
    ensures st.GetContents().1 == Ok(s) && st.Read(|s|).1 == Ok(s)
  {
    ReadsAllFromStart(st, s);
  }

  lemma ReadsAllFromStart(st: StreamState, s: Bytes)
    requires st.Valid() && st.Attached() && st.readable
    requires st.handle.value.pos == 0 && st.handle.value.data == s
    ensures st.Read(|s|).1 == Ok(s)
  {
    if |s| > 0 {
      assert st.handle.value.Read(|s|).1 == s[0..|s|] == s;
    }
  }

  /** `StreamUtils::create($from)` (src/StreamUtils.php:15-34). */
  method Create(from: Input) returns (r: Result<Stream>)
    requires from.PsrStream? ==> from.stream.Valid()
    requires from.Resource? ==> from.handle.Valid()
    modifies if from.PsrStream? then {from.stream} else {}
    ensures from.Text? ==> r.Ok? && fresh(r.value) && r.value.State() == FromString(from.bytes)
    ensures from.PsrStream? ==>
              var (s1, text) := old(from.stream.State()).GetContents();
              from.stream.State() == s1 &&
              (text.Err? ==> r == Err(text.error)) &&
              (text.Ok? ==> r.Ok? && fresh(r.value) && r.value.State() == FromString(text.value))
    ensures from.Resource? ==> r.Ok? && fresh(r.value) && r.value.State() == StreamState.Open(from.handle, None)
    ensures from.Other? ==> r == Err(InvalidArgument(CANNOT_CREATE + from.typeName))
  {
    var text: Bytes;
    match from {
      case PsrStream(psr) =>
        var contents := psr.ToString();
        if contents.Err? {
          return Err(contents.error);
        }
        text := contents.value;
      case Text(bytes) =>
        text := bytes;
      case Resource(h) =>
        var stream := new Stream(h, None);
        return Ok(stream);
      case Other(typeName) =>
        return Err(InvalidArgument(CANNOT_CREATE + typeName));
    }
    var stream := new Stream.Temp("rb+");
    Modes.ReadWriteBinary();
    var _ := stream.Write(text);
    var _ := stream.Rewind();
    r := Ok(stream);
  }

  /** The loop of `StreamUtils::copy` (src/StreamUtils.php:53-61): until
      the source reports eof, read a chunk and write it to the target,
      stopping after a write of 0 bytes; `bytes` is the count of the last
      write, None before the first. */
  function CopyLoop(source: StreamState, target: StreamState, bytes: Option<int>): (r: (StreamState, StreamState, Option<int>))
    requires source.Valid() && source.readable && target.Valid() && target.writable
    ensures r.0.Valid() && r.0.readable && r.1.Valid() && r.1.writable
    ensures r.0.seekable == source.seekable && r.0.handle.value.data == source.handle.value.data
    decreases |source.handle.value.data| - source.handle.value.pos
  {
    if source.Eof().value then (source, target, bytes)
    else
      var (s1, chunk) := source.Read(CHUNK);
      var (t1, n) := target.Write(chunk.value);
      if n.value == 0 then (s1, t1, Some(0))
      else CopyLoop(s1, t1, Some(n.value))
  }

  /** `StreamUtils::copy($source, $target)` (src/StreamUtils.php:36-72):
      the readability and writability checks, then a seekable source is
      rewound, copied in chunks and put back where it was; a copy in which
      no write happened fails. */
  function Copy(source: StreamState, target: StreamState): (r: (StreamState, StreamState, Result<int>))
    requires source.Valid() && target.Valid()
    ensures r.0.Valid() && r.1.Valid()
    ensures !source.readable ==> r == (source, target, Err(StreamError(SOURCE_NOT_READABLE)))
    ensures source.readable && !target.writable ==> r == (source, target, Err(StreamError(TARGET_NOT_WRITABLE)))
  {
    if !source.readable then (source, target, Err(StreamError(SOURCE_NOT_READABLE)))
    else if !target.writable then (source, target, Err(StreamError(TARGET_NOT_WRITABLE)))
    else
      var seekable := source.seekable;
      var sourcePos := source.handle.value.pos;
      var s1 := if seekable then source.Rewind().0 else source;
      var (s2, t2, bytes) := CopyLoop(s1, target, None);
      var s3 := if seekable then s2.Seek(sourcePos, SEEK_SET).0 else s2;
      if bytes.None? then (s3, t2, Err(StreamError(COPY_FAILED)))
      else (s3, t2, Ok(bytes.value))
  }

  /** `StreamUtils::copy` on two `Stream` objects, statement by statement. */
  method CopyStreams(source: Stream, target: Stream) returns (r: Result<int>)
    requires source.Valid() && target.Valid() && source != target
    modifies source, target
    ensures source.Valid() && target.Valid()
    ensures (source.State(), target.State(), r) == Copy(old(source.State()), old(target.State()))
  {
    var sourceReadable := source.IsReadable();
    if !sourceReadable {
      return Err(StreamError(SOURCE_NOT_READABLE));
    }
    var targetWritable := target.IsWritable();
    if !targetWritable {
      return Err(StreamError(TARGET_NOT_WRITABLE));
    }
    ghost var s0, t0 := source.State(), target.State();
    var seekable := source.IsSeekable();
    var sourcePos: Result<int> := Ok(0);
    if seekable {
      sourcePos := source.Tell();
      assert sourcePos == Ok(s0.handle.value.pos);
      var _ := source.Rewind();
    }
    ghost var start := (source.State(), target.State());
    assert start == (if seekable then s0.Rewind().0 else s0, t0);
    var bytes := CopyChunks(source, target);
    ghost var s2 := source.State();
    if seekable {
      var _ := source.Seek(sourcePos.value, SEEK_SET);
    }
    assert source.State() == if seekable then s2.Seek(s0.handle.value.pos, SEEK_SET).0 else s2;
    if bytes.None? {
      return Err(StreamError(COPY_FAILED));
    }
    r := Ok(bytes.value);
  }

  /** The `while (!$source->eof())` loop of `StreamUtils::copy`: chunks
      move from the source to the target until the source reports its end
      or a write takes nothing; `bytes` is the count of the last write. */
  method CopyChunks(source: Stream, target: Stream) returns (bytes: Option<int>)
    requires source.Valid() && source.readable && target.Valid() && target.writable && source != target
    modifies source, target
    ensures source.Valid() && target.Valid()
    ensures (source.State(), target.State(), bytes) == CopyLoop(old(source.State()), old(target.State()), None)
  {
    ghost var start := (source.State(), target.State());
    bytes := None;
    var done := false;
    while !done
      invariant source.Valid() && source.readable
      invariant target.Valid() && target.writable
      invariant done ==> CopyLoop(start.0, start.1, None) == (source.State(), target.State(), bytes)
      invariant !done ==> CopyLoop(start.0, start.1, None) == CopyLoop(source.State(), target.State(), bytes)
      decreases !done, |source.handle.value.data| - source.handle.value.pos
    {
      var eof := source.Eof();
      if eof.value {
        done := true;
      } else {
        ghost var st, tt := source.State(), target.State();
        var chunk := source.Read(CHUNK);
        var n := target.Write(chunk.value);
        CopyLoopUnfolds(st, tt, bytes, source.State(), chunk, target.State(), n);
        bytes := Some(n.value);
        if n.value == 0 {
          done := true;
        }
      }
    }
  }

  /** One round of the copy loop as the loop body sees it: the loop goes
      on from the states the read and the write leave, and the source's
      cursor has moved unless the write took nothing. */
  lemma CopyLoopUnfolds(source: StreamState, target: StreamState, bytes: Option<int>,
                        s1: StreamState, chunk: Result<Bytes>, t1: StreamState, n: Result<int>)
    requires source.Valid() && source.readable && target.Valid() && target.writable
    requires !source.Eof().value
    requires (s1, chunk) == source.Read(CHUNK) && (t1, n) == target.Write(chunk.value)
    ensures s1.Valid() && s1.readable && t1.Valid() && t1.writable && n.Ok?
    ensures n.value == 0 ==> CopyLoop(source, target, bytes) == (s1, t1, Some(0))
    ensures n.value != 0 ==> CopyLoop(source, target, bytes) == CopyLoop(s1, t1, Some(n.value)) &&
                             |s1.handle.value.data| - s1.handle.value.pos <
                             |source.handle.value.data| - source.handle.value.pos
  {
    CopyStep(source, target);
  }

  /** The copy loop run from a source that is not at eof writes the rest
      of the source at the target's cursor and leaves the source at its
      end; the count it keeps is that of the last chunk, which is the
      number of bytes remaining modulo the chunk size (0 when that number
      is a multiple of it, as the final write is then an empty one). */
  predicate CopiesRest(source: StreamState, target: StreamState, bytes: Option<int>)
    requires source.Valid() && source.readable && target.Valid() && target.writable
  {
    var (s1, t1, b) := CopyLoop(source, target, bytes);
    var src := source.handle.value;
    var dst := target.handle.value;
    var rest := src.data[src.pos..];
    s1 == source.(handle := Some(src.(pos := |src.data|, atEof := true))) &&
    t1 == target.(size := if src.atEof then target.size else None,
                  handle := Some(dst.(data := Overwrite(dst.data, dst.pos, rest), pos := dst.pos + |rest|))) &&
    b == if src.atEof then bytes else Some(|rest| % CHUNK)
  }

  lemma {:induction false} CopyLoopCopiesRest(source: StreamState, target: StreamState, bytes: Option<int>)
    requires source.Valid() && source.readable && target.Valid() && target.writable
    ensures CopiesRest(source, target, bytes)
    decreases |source.handle.value.data| - source.handle.value.pos, 1
  {
    var src := source.handle.value;
    if src.atEof || src.pos == |src.data| {
      CopyAtEnd(source, target, bytes);
    } else if src.pos + CHUNK > |src.data| {
      CopyLastChunk(source, target, bytes);
    } else {
      CopyFullChunk(source, target, bytes);
    }
  }

  /** With no bytes left the loop writes nothing; unless the source had
      already signalled its end, it makes one empty round. */
  lemma CopyAtEnd(source: StreamState, target: StreamState, bytes: Option<int>)
    requires source.Valid() && source.readable && target.Valid() && target.writable
    requires source.handle.value.pos == |source.handle.value.data|
    ensures CopiesRest(source, target, bytes)
  {
    var src := source.handle.value;
    var dst := target.handle.value;
    assert src.data[src.pos..] == [];
    OverwriteAtEnd(dst.data[..dst.pos], []);
    assert Overwrite(dst.data, dst.pos, []) == dst.data;
    if !src.atEof {
      var s1, t1, k := CopyLoopRound(source, target, bytes);
      assert src.data[src.pos..src.pos + k] == [];
    }
  }

  /** The chunk that reaches past the end is the last one. */
  lemma CopyLastChunk(source: StreamState, target: StreamState, bytes: Option<int>)
    requires source.Valid() && source.readable && target.Valid() && target.writable
    requires !source.handle.value.atEof
    requires source.handle.value.pos < |source.handle.value.data| < source.handle.value.pos + CHUNK
    ensures CopiesRest(source, target, bytes)
  {
    var src := source.handle.value;
    CopyStep(source, target);
    var (s1, chunk) := source.Read(CHUNK);
    var (t1, n) := target.Write(chunk.value);
    assert chunk.value == src.data[src.pos..];
    assert CopyLoop(source, target, bytes) == (s1, t1, Some(|chunk.value|));
  }

  /** A full chunk is followed by the rest of the loop. */
  lemma {:induction false} CopyFullChunk(source: StreamState, target: StreamState, bytes: Option<int>)
    requires source.Valid() && source.readable && target.Valid() && target.writable
    requires !source.handle.value.atEof && source.handle.value.pos + CHUNK <= |source.handle.value.data|
    ensures CopiesRest(source, target, bytes)
    decreases |source.handle.value.data| - source.handle.value.pos, 0
  {
    var src := source.handle.value;
    var dst := target.handle.value;
    var s1, t1, k := CopyLoopRound(source, target, bytes);
    CopyLoopCopiesRest(s1, t1, Some(CHUNK));
    var chunk := src.data[src.pos..src.pos + CHUNK];
    var rest1 := src.data[src.pos + CHUNK..];
    SliceJoinTail(src.data, src.pos, src.pos + CHUNK);
    OverwriteTwice(dst.data, dst.pos, chunk, rest1);
    ModStep(|rest1|);
    var (s2, t2, b) := CopyLoop(s1, t1, Some(CHUNK));
    assert s2 == source.(handle := Some(src.(pos := |src.data|, atEof := true)));
    assert t2.handle.value == dst.(data := Overwrite(dst.data, dst.pos, src.data[src.pos..]),
                                   pos := dst.pos + |src.data[src.pos..]|);
    assert t2 == target.(size := None, handle := Some(t2.handle.value));
    assert b == Some(|src.data[src.pos..]| % CHUNK);
  }

  /** One round of the copy loop, with the states it leaves spelled out:
      `k` bytes move from the source's cursor to the target's, and the
      loop goes on from there unless nothing was copied. */
  lemma CopyLoopRound(source: StreamState, target: StreamState, bytes: Option<int>)
      returns (s1: StreamState, t1: StreamState, k: int)
    requires source.Valid() && source.readable && target.Valid() && target.writable
    requires !source.handle.value.atEof
    ensures var src := source.handle.value;
            var dst := target.handle.value;
            k == Min(CHUNK, |src.data| - src.pos) &&
            s1.Valid() && s1.readable && t1.Valid() && t1.writable &&
            s1 == source.(handle := Some(src.(pos := src.pos + k, atEof := k < CHUNK))) &&
            t1 == target.(size := None,
                          handle := Some(dst.(data := Overwrite(dst.data, dst.pos, src.data[src.pos..src.pos + k]),
                                              pos := dst.pos + k)))
    ensures CopyLoop(source, target, bytes) == if k == 0 then (s1, t1, Some(0)) else CopyLoop(s1, t1, Some(k))
  {
    CopyStep(source, target);
    var src := source.handle.value;
    s1 := source.Read(CHUNK).0;
    t1 := target.Write(source.Read(CHUNK).1.value).0;
    k := Min(CHUNK, |src.data| - src.pos);
  }

  /** One round of the copy loop from a source not at eof: a chunk of up
      to `CHUNK` bytes from the cursor, written at the target's cursor; the
      source reports eof afterwards exactly when the chunk came up short. */
  lemma CopyStep(source: StreamState, target: StreamState)
    requires source.Valid() && source.readable && target.Valid() && target.writable
    requires !source.handle.value.atEof
    ensures var src := source.handle.value;
            var dst := target.handle.value;
            var (s1, chunk) := source.Read(CHUNK);
            var (t1, n) := target.Write(chunk.value);
            var k := Min(CHUNK, |src.data| - src.pos);
            chunk == Ok(src.data[src.pos..src.pos + k]) &&
            s1.handle.value.pos == src.pos + k && s1.handle.value.data == src.data &&
            (s1.handle.value.atEof <==> k < CHUNK) &&
            n == Ok(k) && t1.size.None? &&
            t1.handle.value.data == Overwrite(dst.data, dst.pos, chunk.value) &&
            t1.handle.value.pos == dst.pos + k
  {
    ChunkIsXorNotPower();
  }

  lemma ModStep(a: nat)
    ensures (a + CHUNK) % CHUNK == a % CHUNK
  {
    ChunkIsXorNotPower();
  }

  /** For a seekable source, `copy` writes all of its bytes at the
      target's cursor, forgets the target's cached size, puts the source
      back where it stood and returns the size of the last chunk. */
  lemma CopySeekable(source: StreamState, target: StreamState)
    requires source.Valid() && source.readable && source.seekable && target.Valid() && target.writable
    ensures var (s1, t1, r) := Copy(source, target);
            var src := source.handle.value;
            var dst := target.handle.value;
            s1 == source.(handle := Some(src.(atEof := false))) &&
            t1 == target.(size := None,
                          handle := Some(dst.(data := Overwrite(dst.data, dst.pos, src.data), pos := dst.pos + |src.data|))) &&
            r == Ok(|src.data| % CHUNK)
  {
    var s1 := source.Rewind().0;
    assert s1.handle.value.data[0..] == source.handle.value.data;
    CopyLoopCopiesRest(s1, target, None);
  }

  /** A source that cannot seek is copied from its cursor on; one already
      at eof makes the copy fail without touching the target. */
  lemma CopyUnseekable(source: StreamState, target: StreamState)
    requires source.Valid() && source.readable && !source.seekable && target.Valid() && target.writable
    ensures var (s1, t1, r) := Copy(source, target);
            var src := source.handle.value;
            var dst := target.handle.value;
            var rest := src.data[src.pos..];
            (src.atEof ==> r == Err(StreamError(COPY_FAILED)) && t1 == target) &&
            (!src.atEof ==>
               s1 == source.(handle := Some(src.(pos := |src.data|, atEof := true))) &&
               t1 == target.(size := None,
                             handle := Some(dst.(data := Overwrite(dst.data, dst.pos, rest), pos := dst.pos + |rest|))) &&
               r == Ok(|rest| % CHUNK))
  {
    CopyLoopCopiesRest(source, target, None);
  }

  /** The copy loop as evidently intended: the count adds up every write. */
  function CopyLoopTotal(source: StreamState, target: StreamState, bytes: Option<int>): (r: (StreamState, StreamState, Option<int>))
    requires source.Valid() && source.readable && target.Valid() && target.writable
    ensures r.0.Valid() && r.0.readable && r.1.Valid() && r.1.writable
    ensures r.0.seekable == source.seekable && r.0.handle.value.data == source.handle.value.data
    decreases |source.handle.value.data| - source.handle.value.pos
  {
    if source.Eof().value then (source, target, bytes)
    else
      var (s1, chunk) := source.Read(CHUNK);
      var (t1, n) := target.Write(chunk.value);
      var total := Some(bytes.GetOr(0) + n.value);
      if n.value == 0 then (s1, t1, total)
      else CopyLoopTotal(s1, t1, total)
  }

  /** `copy` with the count of every write added up. */
  function CopyCorrected(source: StreamState, target: StreamState): (r: (StreamState, StreamState, Result<int>))
    requires source.Valid() && target.Valid()
    ensures r.0.Valid() && r.1.Valid()
    ensures !source.readable ==> r == (source, target, Err(StreamError(SOURCE_NOT_READABLE)))
    ensures source.readable && !target.writable ==> r == (source, target, Err(StreamError(TARGET_NOT_WRITABLE)))
  {
    if !source.readable then (source, target, Err(StreamError(SOURCE_NOT_READABLE)))
    else if !target.writable then (source, target, Err(StreamError(TARGET_NOT_WRITABLE)))
    else
      var seekable := source.seekable;
      var sourcePos := source.handle.value.pos;
      var s1 := if seekable then source.Rewind().0 else source;
      var (s2, t2, bytes) := CopyLoopTotal(s1, target, None);
      var s3 := if seekable then s2.Seek(sourcePos, SEEK_SET).0 else s2;
      if bytes.None? then (s3, t2, Err(StreamError(COPY_FAILED)))
      else (s3, t2, Ok(bytes.value))
  }

  /** The totalling loop counts every byte it copies and otherwise does
      what the loop as written does. */
  lemma CopyLoopTotalCounts(source: StreamState, target: StreamState, bytes: Option<int>)
    requires source.Valid() && source.readable && target.Valid() && target.writable
    ensures var (s1, t1, b) := CopyLoopTotal(source, target, bytes);
            var src := source.handle.value;
            var (s2, t2, _) := CopyLoop(source, target, bytes);
            s1 == s2 && t1 == t2 &&
            b == if src.atEof then bytes else Some(bytes.GetOr(0) + |src.data| - src.pos)
  {
    CopyLoopTotalStates(source, target, bytes);
    CopyLoopTotalCount(source, target, bytes);
  }

  /** The totalling loop ends in the states the loop as written ends in. */
  lemma {:induction false} CopyLoopTotalStates(source: StreamState, target: StreamState, bytes: Option<int>)
    requires source.Valid() && source.readable && target.Valid() && target.writable
    ensures CopyLoopTotal(source, target, bytes).0 == CopyLoop(source, target, bytes).0
    ensures CopyLoopTotal(source, target, bytes).1 == CopyLoop(source, target, bytes).1
    decreases |source.handle.value.data| - source.handle.value.pos
  {
    if !source.Eof().value {
      var (s1, chunk) := source.Read(CHUNK);
      var (t1, n) := target.Write(chunk.value);
      if n.value != 0 {
        var total := Some(bytes.GetOr(0) + n.value);
        CopyLoopTotalStates(s1, t1, total);
        CopyLoopSameStates(s1, t1, Some(n.value), total);
      }
    }
  }

  /** One round of the totalling loop from a source not at eof: it
      copies `k` bytes, moves the source's cursor by `k` and goes on from
      there unless nothing was copied. */
  lemma CopyLoopTotalRound(source: StreamState, target: StreamState, bytes: Option<int>)
      returns (s1: StreamState, t1: StreamState, k: int)
    requires source.Valid() && source.readable && target.Valid() && target.writable
    requires !source.handle.value.atEof
    ensures var src := source.handle.value;
            k == Min(CHUNK, |src.data| - src.pos) &&
            s1.Valid() && s1.readable && t1.Valid() && t1.writable &&
            s1.handle.value.data == src.data && s1.handle.value.pos == src.pos + k &&
            (s1.handle.value.atEof <==> k < CHUNK)
    ensures var total := Some(bytes.GetOr(0) + k);
            CopyLoopTotal(source, target, bytes) ==
              if k == 0 then (s1, t1, total) else CopyLoopTotal(s1, t1, total)
  {
    CopyStep(source, target);
    var src := source.handle.value;
    s1 := source.Read(CHUNK).0;
    t1 := target.Write(source.Read(CHUNK).1.value).0;
    k := Min(CHUNK, |src.data| - src.pos);
  }

  /** The count the totalling loop ends with: every byte after the cursor of
      a source not yet at eof. */
  lemma {:induction false} CopyLoopTotalCount(source: StreamState, target: StreamState, bytes: Option<int>)
    requires source.Valid() && source.readable && target.Valid() && target.writable
    ensures var src := source.handle.value;
            CopyLoopTotal(source, target, bytes).2 ==
              if src.atEof then bytes else Some(bytes.GetOr(0) + |src.data| - src.pos)
    decreases |source.handle.value.data| - source.handle.value.pos
  {
    if !source.handle.value.atEof {
      var s1, t1, k := CopyLoopTotalRound(source, target, bytes);
      if k != 0 {
        CopyLoopTotalCount(s1, t1, Some(bytes.GetOr(0) + k));
      }
    }
  }

  lemma {:induction false} CopyLoopSameStates(source: StreamState, target: StreamState, a: Option<int>, b: Option<int>)
    requires source.Valid() && source.readable && target.Valid() && target.writable
    ensures CopyLoop(source, target, a).0 == CopyLoop(source, target, b).0
    ensures CopyLoop(source, target, a).1 == CopyLoop(source, target, b).1
    decreases |source.handle.value.data| - source.handle.value.pos
  {
    if !source.Eof().value {
      var (s1, chunk) := source.Read(CHUNK);
      var (t1, n) := target.Write(chunk.value);
      if n.value != 0 {
        CopyLoopSameStates(s1, t1, Some(n.value), Some(n.value));
      }
    }
  }

  /** The corrected `copy` of a seekable source returns the number of
      bytes it copied, which is the whole source. */
  lemma CopyCorrectedCountsAll(source: StreamState, target: StreamState)
    requires source.Valid() && source.readable && source.seekable && target.Valid() && target.writable
    ensures var (s1, t1, r) := CopyCorrected(source, target);
            var (s2, t2, _) := Copy(source, target);
            s1 == s2 && t1 == t2 && r == Ok(|source.handle.value.data|)
  {
    var s1 := source.Rewind().0;
    CopyLoopTotalCounts(s1, target, None);
  }

  /** As written, copying 1026 bytes reports 0 and copying 1027 reports 1. */
  lemma CopyReportsLastChunk(data: Bytes, target: StreamState)
    requires target.Valid() && target.writable
    requires |data| == CHUNK || |data| == CHUNK + 1
    ensures var source := FromString(data);
            Copy(source, target).2 == Ok(if |data| == CHUNK then 0 else 1)
  {
    FromStringHolds(data);
    CopySeekable(FromString(data), target);
  }

  /** Copying a written (not rewound) stream into a fresh temporary one
      puts all of it there and makes the target's size move from 0 to
      the length copied (tests/StreamUtilsTest.php:31-53). */
  lemma CopyIntoFreshTarget(s: Bytes)
    ensures var source := StreamState.Temp("rb+").Write(s).0;
            var target := StreamState.Temp("rb+");
            var (s1, t1, r) := Copy(source, target);
            target.GetSize().1 == Some(0) && t1.GetSize().1 == Some(|s|) &&
            t1.Rewind().0.GetContents().1 == Ok(s) && s1.Tell() == Ok(|s|)
  {
    Modes.ReadWriteBinary();
    var target := StreamState.Temp("rb+");
    var source := target.Write(s).0;
    OverwriteAtEnd([], s);
    assert [] + s == s;
    FreshCopy(source, target, s);
  }

  lemma FreshCopy(source: StreamState, target: StreamState, s: Bytes)
    requires source.Valid() && source.Attached() && source.readable && source.seekable
    requires source.handle.value.data == s && source.handle.value.pos == |s|
    requires target.Valid() && target.Attached() && target.writable && target.seekable && target.readable
    requires target.handle.value.data == [] && target.handle.value.pos == 0 && target.handle.value.sized
    requires target.size.None?
    ensures var (s1, t1, r) := Copy(source, target);
            target.GetSize().1 == Some(0) && t1.GetSize().1 == Some(|s|) &&
            t1.Rewind().0.GetContents().1 == Ok(s) && s1.Tell() == Ok(|s|)
  {
    CopySeekable(source, target);
    OverwriteAtEnd([], s);
    assert [] + s == s;
    FilledTargetReadsBack(Copy(source, target).1, s);
  }

  lemma FilledTargetReadsBack(t: StreamState, s: Bytes)
    requires t.Valid() && t.Attached() && t.seekable && t.size.None?
    requires t.handle.value.data == s && t.handle.value.sized
    ensures t.GetSize().1 == Some(|s|) && t.Rewind().0.GetContents().1 == Ok(s)
  {
    assert t.Rewind().0.Valid() && t.Rewind().0.Attached() && t.Rewind().0.seekable;
    assert t.Rewind().0.handle.value.data == s;
  }

  /** A target opened "rb" is refused before anything is read
      (tests/StreamUtilsTest.php:21-29). */
  lemma CopyToReadOnlyTarget(source: StreamState)
    requires source.Valid() && source.readable
    ensures var target := StreamState.Temp("rb");
            Copy(source, target) == (source, target, Err(StreamError(TARGET_NOT_WRITABLE)))
  {
    Modes.NotWritableWithout("rb");
  }
}
