/** `BufferedStream` (src/BufferedStream.php): a read-only, seekable view of
    a source that is read once, front to back. Every byte taken from the
    source is also written to a `w+b` temporary buffer; `written` counts
    them, and the buffer's cursor is the stream's position. */
module Buffered {
  import opened Results
  import opened Handles
  import opened Streams
  import Modes
  import Utils

  /** The fields of a `BufferedStream`: the source, the buffer and the
      number of bytes taken from the source so far. */
  datatype BufferedState = BufferedState(source: StreamState, buffer: StreamState, written: int)
  {
    /** What every operation keeps: while the buffer is open it holds
        exactly the `written` bytes and can be read, written and sought. */
    predicate Valid() {
      source.Valid() && buffer.Valid() && written >= 0 &&
      (buffer.Attached() ==>
         buffer.readable && buffer.writable && buffer.seekable && |buffer.handle.value.data| == written)
    }

    /** Termination measures of the `getContents` loop. */
    function SourceLeft(): nat {
      if source.handle.Some? && source.handle.value.pos <= |source.handle.value.data|
      then |source.handle.value.data| - source.handle.value.pos else 0
    }

    function SourceLive(): nat {
      if source.handle.Some? && !source.handle.value.atEof then 1 else 0
    }

    function BufferLeft(): nat {
      if buffer.handle.Some? && buffer.handle.value.pos <= written then written - buffer.handle.value.pos else 0
    }

    /** `tell()` (src/BufferedStream.php:138-141): the buffer's cursor. */
    function Tell(): Result<int> {
      buffer.Tell()
    }

    function IsSeekable(): bool { buffer.seekable }
    function IsReadable(): bool { buffer.readable }
    function IsWritable(): bool { false }

    /** `read($length)` (src/BufferedStream.php:57-74): bytes behind the
        frontier come from the buffer; the shortfall is read from the
        source and appended to the buffer. */
    function Read(length: int): (r: (BufferedState, Result<Bytes>))
      requires Valid()
      ensures r.0.Valid() && r.0.written >= written
    {
      match buffer.Tell()
      case Err(e) => (this, Err(e))
      case Ok(tell) =>
        var (b1, fromBuffer) := if tell != written then buffer.Read(length) else (buffer, Ok([]));
        if fromBuffer.Err? then (this.(buffer := b1), Err(fromBuffer.error))
        else if |fromBuffer.value| < length then
          var (s1, fromSource) := source.Read(length - |fromBuffer.value|);
          if fromSource.Err? then (BufferedState(s1, b1, written), Err(fromSource.error))
          else
            var (b2, n) := b1.Write(fromSource.value);
            (BufferedState(s1, b2, written + n.value), Ok(fromBuffer.value + fromSource.value))
        else (this.(buffer := b1), Ok(fromBuffer.value))
    }

    /** `eof()` (src/BufferedStream.php:87-90): the source is exhausted
        and the cursor stands at the frontier. */
    function Eof(): Result<bool> {
      match source.Eof()
      case Err(e) => Err(e)
      case Ok(false) => Ok(false)
      case Ok(true) =>
        match buffer.Tell()
        case Err(e) => Err(e)
        case Ok(t) => Ok(t == written)
    }

    /** `getSize()` (src/BufferedStream.php:28-35): the source's size, or
        the frontier once a source of unknown size is exhausted. The
        source's `getSize` runs twice on the way to its size, as written. */
    function GetSize(): (r: (BufferedState, Result<Option<int>>))
      requires Valid()
      ensures r.0.Valid() && r.0 == this.(source := r.0.source)
    {
      var (s1, size1) := source.GetSize();
      if size1.None? then
        match s1.Eof()
        case Err(e) => (this.(source := s1), Err(e))
        case Ok(true) => (this.(source := s1), Ok(Some(written)))
        case Ok(false) => var (s2, size2) := s1.GetSize(); (this.(source := s2), Ok(size2))
      else
        var (s2, size2) := s1.GetSize();
        (this.(source := s2), Ok(size2))
    }

    /** The absolute offset `seek` aims at (src/BufferedStream.php:40-45). */
    function SeekTargetOf(offset: int, whence: int): (r: (BufferedState, Result<int>))
      requires Valid()
      ensures r.0.Valid() && r.0.written == written && r.0.buffer == buffer
    {
      if whence == SEEK_SET then (this, Ok(offset))
      else if whence == SEEK_CUR then
        match Tell()
        case Err(e) => (this, Err(e))
        case Ok(t) => (this, Ok(offset + t))
      else if whence == SEEK_END then
        var (st, size) := GetSize();
        if size.Err? then (st, Err(size.error)) else (st, Ok(offset + size.value.GetOr(0)))
      else (this, Err(InvalidArgument(INVALID_WHENCE)))
    }

    /** `seek($offset, $whence)` (src/BufferedStream.php:38-54), as
        written: a target past the frontier is reached by reading the
        difference between target and frontier from the current cursor. */
    function Seek(offset: int, whence: int): (r: (BufferedState, Result<()>))
      requires Valid()
      ensures r.0.Valid() && r.0.written >= written
    {
      var (st, target) := SeekTargetOf(offset, whence);
      if target.Err? then (st, Err(target.error))
      else if target.value - st.written > 0 then
        var (st1, rd) := st.Read(target.value - st.written);
        (st1, if rd.Err? then Err(rd.error) else Ok(()))
      else
        var (b1, sk) := st.buffer.Seek(target.value, SEEK_SET);
        (st.(buffer := b1), sk)
    }

    /** `seek` as it is evidently meant: a target past the frontier is
        reached by moving the cursor to the frontier first and reading
        from there. */
    function SeekCorrected(offset: int, whence: int): (r: (BufferedState, Result<()>))
      requires Valid()
      ensures r.0.Valid() && r.0.written >= written
    {
      var (st, target) := SeekTargetOf(offset, whence);
      if target.Err? then (st, Err(target.error))
      else if target.value - st.written > 0 then
        var (b1, sk) := st.buffer.Seek(st.written, SEEK_SET);
        if sk.Err? then (st.(buffer := b1), sk)
        else
          var (st1, rd) := st.(buffer := b1).Read(target.value - st.written);
          (st1, if rd.Err? then Err(rd.error) else Ok(()))
      else
        var (b1, sk) := st.buffer.Seek(target.value, SEEK_SET);
        (st.(buffer := b1), sk)
    }

    /** `rewind()` (src/BufferedStream.php:143-146). */
    function Rewind(): (r: (BufferedState, Result<()>))
      requires Valid()
      ensures r.0.Valid() && r.0 == this.(buffer := r.0.buffer)
    {
      var (b1, rw) := buffer.Rewind();
      (this.(buffer := b1), rw)
    }

    /** `write` and `copy` (src/BufferedStream.php:77-80, 148-151) always
        refuse. */
    function Write(s: Bytes): (r: (BufferedState, Result<int>))
      ensures r == (this, Err(StreamError(READ_ONLY)))
    {
      (this, Err(StreamError(READ_ONLY)))
    }

    /** `getContents()` (src/BufferedStream.php:92-101): reads chunks of
        `1024 ^ 2` bytes until `eof()`. */
    function GetContents(): (r: (BufferedState, Result<Bytes>))
      requires Valid()
      ensures r.0.Valid() && r.0.written >= written
      decreases SourceLeft(), SourceLive(), BufferLeft()
    {
      match Eof()
      case Err(e) => (this, Err(e))
      case Ok(true) => (this, Ok([]))
      case Ok(false) =>
        var (st1, chunk) := Read(CHUNK);
        if chunk.Err? then (st1, Err(chunk.error))
        else
          ReadMakesProgress(this);
          var (st2, rest) := st1.GetContents();
          (st2, Prepend(chunk.value, rest))
    }

    /** `close()` (src/BufferedStream.php:103-107): closes source and buffer. */
    function Close(): (r: BufferedState)
      requires Valid()
      ensures r.Valid() && !r.source.Attached() && !r.buffer.Attached() && r.written == written
    {
      BufferedState(source.Close(), buffer.Close(), written)
    }

    /** `detach()` (src/BufferedStream.php:112-120): reads the rest of the
        source into the buffer, closes the source and hands over the
        buffer's handle. */
    function Detach(): (r: (BufferedState, Result<Option<Handle>>))
      requires Valid()
      ensures r.0.Valid() && r.0.written >= written
    {
      var (st, contents) := GetContents();
      if contents.Err? then (st, Err(contents.error))
      else
        var (b, h) := st.buffer.Detach();
        (BufferedState(st.source.Close(), b, st.written), Ok(h))
    }

    /** `__toString()` (src/BufferedStream.php:153-162): rewind and read
        everything; any exception yields the empty string. */
    function ToString(): (r: (BufferedState, Bytes))
      requires Valid()
      ensures r.0.Valid() && r.0.written >= written
    {
      var (st, rw) := Rewind();
      if rw.Err? then (st, [])
      else
        var (st1, contents) := st.GetContents();
        (st1, if contents.Ok? then contents.value else [])
    }
  }

  /** A successful read while not at eof consumes source bytes, raises the
      source's end-of-file flag, or moves the cursor towards the frontier. */
  lemma ReadMakesProgress(st: BufferedState)
    requires st.Valid() && st.Eof() == Ok(false) && st.Read(CHUNK).1.Ok?
    ensures var st1 := st.Read(CHUNK).0;
            st1.SourceLeft() < st.SourceLeft() ||
            (st1.SourceLeft() == st.SourceLeft() &&
             (st1.SourceLive() < st.SourceLive() ||
              (st1.SourceLive() == st.SourceLive() && st1.BufferLeft() < st.BufferLeft())))
  {
  }

  /** `new BufferedStream($source)` (src/BufferedStream.php:22-26). */
  function Wrap(source: StreamState): (st: BufferedState)
    requires source.Valid()
    ensures st.Valid() && st.source == source && st.written == 0
    ensures st.buffer == StreamState.Temp("w+b")
  {
    Modes.UpdateModes("w+b");
    BufferedState(source, StreamState.Temp("w+b"), 0)
  }

  /** The buffer holds the `written` bytes of `origin` that follow offset
      `start`, where the source stood when it was wrapped, and the source
      is open, readable and exactly `written` bytes further on. */
  predicate Mirrors(st: BufferedState, origin: Bytes, start: nat) {
    st.Valid() && st.source.Attached() && st.source.readable && st.buffer.Attached() &&
    st.source.handle.value.data == origin && start + st.written <= |origin| &&
    st.source.handle.value.pos == start + st.written &&
    st.buffer.handle.value.data == origin[start..start + st.written]
  }

  /** The stream's position. */
  function Cursor(st: BufferedState): int
    requires st.buffer.Attached()
  {
    st.buffer.handle.value.pos
  }

  lemma WrapMirrors(source: StreamState)
    requires source.Valid() && source.Attached() && source.readable
    ensures Mirrors(Wrap(source), source.handle.value.data, source.handle.value.pos)
    ensures Cursor(Wrap(source)) == 0
  {
  }

  /** `read` returns the next bytes of the wrapped content after the
      cursor, moves the cursor past them and pushes the frontier to the
      furthest point read; the buffer keeps mirroring the source. */
  lemma ReadServesContent(st: BufferedState, origin: Bytes, start: nat, length: int)
    requires Mirrors(st, origin, start) && length >= 0
    ensures var c := Cursor(st);
            var end := Min(c + length, |origin| - start);
            var (st1, r) := st.Read(length);
            r == Ok(origin[start + c..start + end]) && Mirrors(st1, origin, start) &&
            Cursor(st1) == end && st1.written == Max(st.written, end)
  {
    var c := Cursor(st);
    assert st.buffer.Tell() == Ok(c);
    if length == 0 {
      if c != st.written {
        assert st.buffer.Read(0) == (st.buffer, Ok([]));
        assert st.Read(0) == (st.(buffer := st.buffer), Ok([]));
      } else {
        assert st.Read(0) == (st, Ok([]));
      }
      assert origin[start + c..start + c] == [];
    } else if c == st.written {
      ReadAtFrontier(st, origin, start, length);
    } else if c + length <= st.written {
      ReadBehindFrontier(st, origin, start, length);
    } else {
      ReadAcrossFrontier(st, origin, start, length);
    }
  }

  /** At the frontier every byte comes from the source. */
  lemma ReadAtFrontier(st: BufferedState, origin: Bytes, start: nat, length: int)
    requires Mirrors(st, origin, start) && length > 0 && Cursor(st) == st.written
    ensures var end := Min(st.written + length, |origin| - start);
            var (st1, r) := st.Read(length);
            r == Ok(origin[start + st.written..start + end]) && Mirrors(st1, origin, start) &&
            Cursor(st1) == end && st1.written == end
  {
    var w := st.written;
    var end := Min(w + length, |origin| - start);
    assert st.buffer.Tell() == Ok(w);
    var (s1, fromSource) := st.source.Read(length);
    var more := origin[start + w..start + end];
    assert fromSource == Ok(more);
    var (b2, n) := st.buffer.Write(more);
    OverwriteAtEnd(st.buffer.handle.value.data, more);
    assert b2.handle.value.data == origin[start..start + end];
    assert n == Ok(|more|);
    assert [] + more == more;
    assert st.Read(length) == (BufferedState(s1, b2, w + |more|), Ok([] + more));
  }

  /** Behind the frontier a read that fits comes from the buffer alone. */
  lemma ReadBehindFrontier(st: BufferedState, origin: Bytes, start: nat, length: int)
    requires Mirrors(st, origin, start) && length > 0
    requires Cursor(st) < st.written && Cursor(st) + length <= st.written
    ensures var c := Cursor(st);
            var (st1, r) := st.Read(length);
            r == Ok(origin[start + c..start + c + length]) && Mirrors(st1, origin, start) &&
            Cursor(st1) == c + length && st1.written == st.written
  {
    var c := Cursor(st);
    assert st.buffer.Tell() == Ok(c);
    var (b1, fromBuffer) := st.buffer.Read(length);
    assert fromBuffer == Ok(st.buffer.handle.value.data[c..c + length]);
    SliceOfSlice(origin, start, start + st.written, c, c + length);
    assert st.Read(length) == (st.(buffer := b1), fromBuffer);
  }

  /** A read that runs over the frontier takes the buffered part from the
      buffer and the rest from the source. */
  lemma ReadAcrossFrontier(st: BufferedState, origin: Bytes, start: nat, length: int)
    requires Mirrors(st, origin, start) && length > 0
    requires Cursor(st) < st.written < Cursor(st) + length
    ensures var c := Cursor(st);
            var end := Min(c + length, |origin| - start);
            var (st1, r) := st.Read(length);
            r == Ok(origin[start + c..start + end]) && Mirrors(st1, origin, start) &&
            Cursor(st1) == end && st1.written == end
  {
    var c := Cursor(st);
    var w := st.written;
    var end := Min(c + length, |origin| - start);
    var st1 := ReadAcrossPieces(st, origin, start, length);
    OverwriteSliceJoin(origin, start, start + w, start + end);
    SliceJoin(origin, start + c, start + w, start + end);
    assert Mirrors(st1, origin, start);
  }

  /** The state a read over the frontier leaves, field by field. */
  lemma ReadAcrossPieces(st: BufferedState, origin: Bytes, start: nat, length: int) returns (st1: BufferedState)
    requires Mirrors(st, origin, start) && length > 0
    requires Cursor(st) < st.written < Cursor(st) + length
    ensures var c := Cursor(st);
            var w := st.written;
            var end := Min(c + length, |origin| - start);
            st.Read(length) == (st1, Ok(origin[start + c..start + w] + origin[start + w..start + end])) &&
            st1.Valid() && st1.written == end &&
            st1.source.Attached() && st1.source.readable &&
            st1.source.handle.value.data == origin && st1.source.handle.value.pos == start + end &&
            st1.buffer.Attached() &&
            st1.buffer.handle.value.data == Overwrite(origin[start..start + w], w, origin[start + w..start + end]) &&
            st1.buffer.handle.value.pos == end
  {
    var c := Cursor(st);
    var w := st.written;
    var end := Min(c + length, |origin| - start);
    assert st.buffer.Tell() == Ok(c);
    var (b1, fromBuffer) := st.buffer.Read(length);
    var old_ := origin[start + c..start + w];
    SliceOfSlice(origin, start, start + w, c, w);
    assert fromBuffer == Ok(old_);
    assert b1.handle.value.pos == w;
    var (s1, fromSource) := st.source.Read(length - |old_|);
    var more := origin[start + w..start + end];
    assert fromSource == Ok(more);
    var (b2, n) := b1.Write(more);
    st1 := BufferedState(s1, b2, w + |more|);
    ReadPastFrontierUnfolds(st, length);
  }

  /** How `read` unfolds when it starts behind the frontier and the
      buffer falls short. */
  lemma ReadPastFrontierUnfolds(st: BufferedState, length: int)
    requires st.Valid() && st.buffer.Attached() && st.buffer.handle.value.pos != st.written
    requires st.buffer.Read(length).1.Ok? && |st.buffer.Read(length).1.value| < length
    requires st.source.Read(length - |st.buffer.Read(length).1.value|).1.Ok?
    ensures var (b1, fromBuffer) := st.buffer.Read(length);
            var (s1, fromSource) := st.source.Read(length - |fromBuffer.value|);
            st.Read(length) == (BufferedState(s1, b1.Write(fromSource.value).0, st.written + |fromSource.value|),
                                Ok(fromBuffer.value + fromSource.value))
  {
  }

  /** `eof()` holds exactly when the source has signalled its end and the
      cursor is at the frontier, and then the whole content is behind the
      cursor. */
  lemma EofMeansEnd(st: BufferedState, origin: Bytes, start: nat)
    requires Mirrors(st, origin, start)
    ensures st.Eof().Ok?
    ensures st.Eof().value <==> st.source.handle.value.atEof && Cursor(st) == st.written
    ensures st.Eof().value ==> Cursor(st) == st.written == |origin| - start
  {
  }

  /** The chunk one turn of the `getContents` loop reads: the content
      from the cursor on, with the loop's measure going down. */
  lemma ReadChunk(st: BufferedState, origin: Bytes, start: nat) returns (st1: BufferedState, chunk: Bytes)
    requires Mirrors(st, origin, start) && st.Eof() == Ok(false)
    ensures st.Read(CHUNK) == (st1, Ok(chunk))
    ensures Mirrors(st1, origin, start) && Cursor(st) <= Cursor(st1) &&
            chunk == origin[start + Cursor(st)..start + Cursor(st1)]
    ensures st1.SourceLeft() < st.SourceLeft() ||
            (st1.SourceLeft() == st.SourceLeft() &&
             (st1.SourceLive() < st.SourceLive() ||
              (st1.SourceLive() == st.SourceLive() && st1.BufferLeft() < st.BufferLeft())))
  {
    ReadServesContent(st, origin, start, CHUNK);
    ReadMakesProgress(st);
    st1 := st.Read(CHUNK).0;
    chunk := st.Read(CHUNK).1.value;
  }

  /** One turn of the `getContents` loop. */
  lemma GetContentsStep(st: BufferedState, next: BufferedState, chunk: Bytes)
    requires st.Valid() && st.Eof() == Ok(false) && st.Read(CHUNK) == (next, Ok(chunk))
    ensures next.Valid() && st.GetContents() == (next.GetContents().0, Prepend(chunk, next.GetContents().1))
  {
  }

  /** `getContents()` returns everything from the cursor to the end of the
      source, after which all of it is buffered and the source is at eof. */
  lemma {:induction false} GetContentsDrains(st: BufferedState, origin: Bytes, start: nat)
    requires Mirrors(st, origin, start)
    ensures var (st1, r) := st.GetContents();
            r == Ok(origin[start + Cursor(st)..]) && Mirrors(st1, origin, start) &&
            st1.written == |origin| - start && Cursor(st1) == st1.written &&
            st1.source.handle.value.atEof
    decreases st.SourceLeft(), st.SourceLive(), st.BufferLeft()
  {
    EofMeansEnd(st, origin, start);
    if !st.Eof().value {
      var st1, chunk := ReadChunk(st, origin, start);
      GetContentsDrains(st1, origin, start);
      SliceJoinTail(origin, start + Cursor(st), start + Cursor(st1));
      GetContentsStep(st, st1, chunk);
      var (st2, rest) := st1.GetContents();
      assert rest == Ok(origin[start + Cursor(st1)..]);
      assert Mirrors(st2, origin, start) && st2.written == |origin| - start;
      assert Cursor(st2) == st2.written && st2.source.handle.value.atEof;
      assert chunk + origin[start + Cursor(st1)..] == origin[start + Cursor(st)..];
      assert st.GetContents() == (st2, Ok(origin[start + Cursor(st)..]));
    } else {
      assert st.GetContents() == (st, Ok([]));
      assert origin[start + Cursor(st)..] == [];
    }
  }

  /** `getSize()` reports the source's size when the source knows it, and
      the number of buffered bytes once a source of unknown size has been
      read to its end. */
  lemma GetSizeReports(st: BufferedState, origin: Bytes, start: nat)
    requires Mirrors(st, origin, start)
    ensures var (st1, r) := st.GetSize();
            Mirrors(st1, origin, start) && st1.buffer == st.buffer && r.Ok? &&
            (st.source.size.Some? ==> r.value == st.source.size) &&
            (st.source.size.None? && st.source.handle.value.sized ==> r.value == Some(|origin|)) &&
            (st.source.size.None? && !st.source.handle.value.sized ==>
               r.value == if st.source.handle.value.atEof then Some(|origin| - start) else None)
  {
  }

  /** The target of `seek` for each `whence`; an unknown one is refused. */
  lemma SeekTargetResolves(st: BufferedState, origin: Bytes, start: nat, offset: int, whence: int)
    requires Mirrors(st, origin, start)
    ensures var (st1, t) := st.SeekTargetOf(offset, whence);
            Mirrors(st1, origin, start) && Cursor(st1) == Cursor(st) &&
            (whence == SEEK_SET ==> t == Ok(offset)) &&
            (whence == SEEK_CUR ==> t == Ok(offset + Cursor(st))) &&
            (whence == SEEK_END && st.source.size.Some? ==> t == Ok(offset + st.source.size.value)) &&
            (whence == SEEK_END && st.source.size.None? && st.source.handle.value.sized ==>
               t == Ok(offset + |origin|)) &&
            (whence == SEEK_END && st.source.size.None? && !st.source.handle.value.sized ==>
               t == Ok(offset + if st.source.handle.value.atEof then |origin| - start else 0)) &&
            (whence !in {SEEK_SET, SEEK_CUR, SEEK_END} ==> t == Err(InvalidArgument(INVALID_WHENCE)))
  {
    if whence == SEEK_END {
      GetSizeReports(st, origin, start);
    }
  }

  /** Seeking to an offset no further than the frontier only moves the
      cursor; a negative offset fails and changes nothing. */
  lemma SeekBehindFrontier(st: BufferedState, origin: Bytes, start: nat, target: int)
    requires Mirrors(st, origin, start) && target <= st.written
    ensures var (st1, r) := st.Seek(target, SEEK_SET);
            (r.Ok? <==> 0 <= target) &&
            (r.Ok? ==> Mirrors(st1, origin, start) && Cursor(st1) == target && st1.written == st.written) &&
            (r.Err? ==> st1 == st && r.error == SeekFailed(target, SEEK_SET))
  {
  }

  /** Seeking past the frontier from the frontier reads up to the target,
      stopping early only at the end of the content. */
  lemma SeekFromFrontier(st: BufferedState, origin: Bytes, start: nat, target: int)
    requires Mirrors(st, origin, start) && Cursor(st) == st.written < target
    ensures var (st1, r) := st.Seek(target, SEEK_SET);
            r == Ok(()) && Mirrors(st1, origin, start) && Cursor(st1) == Min(target, |origin| - start)
  {
    ReadServesContent(st, origin, start, target - st.written);
  }

  /** As written, seeking past the frontier from a cursor behind it reads
      `target - written` bytes from the cursor and so stops short of the
      target by the distance from the cursor to the frontier. */
  lemma SeekPastFrontierFallsShort(st: BufferedState, origin: Bytes, start: nat, target: int)
    requires Mirrors(st, origin, start)
    requires Cursor(st) < st.written < target <= |origin| - start
    ensures var (st1, r) := st.Seek(target, SEEK_SET);
            r == Ok(()) && Mirrors(st1, origin, start) &&
            Cursor(st1) == target - (st.written - Cursor(st)) < target
  {
    ReadServesContent(st, origin, start, target - st.written);
  }

  /** The corrected `seek` lands on the target, or at the end of the
      content when the target lies beyond it; a negative target fails. */
  lemma SeekCorrectedLands(st: BufferedState, origin: Bytes, start: nat, target: int)
    requires Mirrors(st, origin, start)
    ensures var (st1, r) := st.SeekCorrected(target, SEEK_SET);
            (r.Ok? <==> 0 <= target) &&
            (r.Ok? ==> Mirrors(st1, origin, start) && Cursor(st1) == Min(target, |origin| - start)) &&
            (r.Err? ==> st1 == st && r.error == SeekFailed(target, SEEK_SET))
  {
    if target > st.written {
      var (b1, sk) := st.buffer.Seek(st.written, SEEK_SET);
      var st0 := st.(buffer := b1);
      assert Mirrors(st0, origin, start) && Cursor(st0) == st.written;
      ReadServesContent(st0, origin, start, target - st.written);
    }
  }

  /** `__toString()` yields the whole wrapped content, wherever the cursor
      stood. */
  lemma ToStringIsContent(st: BufferedState, origin: Bytes, start: nat)
    requires Mirrors(st, origin, start)
    ensures st.ToString().1 == origin[start..]
  {
    var (st1, rw) := st.Rewind();
    assert Mirrors(st1, origin, start) && Cursor(st1) == 0;
    GetContentsDrains(st1, origin, start);
  }

  /** Once the buffer is detached, by `close()` or `detach()`, `rewind()`
      fails and `__toString()` takes its error branch and yields the empty
      string. */
  lemma ToStringOnceDetached(st: BufferedState)
    requires st.Valid()
    ensures st.Close().Rewind().1 == Err(StreamError(DETACHED))
    ensures st.Close().ToString() == (st.Close(), [])
    ensures var (st1, h) := st.Detach();
            h.Ok? ==> st1.Rewind().1 == Err(StreamError(DETACHED)) && st1.ToString() == (st1, [])
  {
  }

  /** `detach()` hands over a handle holding the whole wrapped content and
      leaves the source closed. */
  lemma DetachHandsOverContent(st: BufferedState, origin: Bytes, start: nat)
    requires Mirrors(st, origin, start)
    ensures var (st1, r) := st.Detach();
            r.Ok? && r.value.Some? && r.value.value.data == origin[start..] &&
            !st1.source.Attached() && !st1.source.readable && !st1.source.writable &&
            !st1.buffer.Attached()
  {
    GetContentsDrains(st, origin, start);
  }

  /** `seek` is a seek with SEEK_SET to the target its `whence` resolves to. */
  lemma SeekViaTarget(st: BufferedState, offset: int, whence: int)
    requires st.Valid()
    ensures var (st1, t) := st.SeekTargetOf(offset, whence);
            t.Ok? ==> st.Seek(offset, whence) == st1.Seek(t.value, SEEK_SET)
  {
  }

  /** "abcdefghijklmnopqrstuvwxyz" */
  function Alphabet(): (a: Bytes)
    ensures |a| == 26 && forall i | 0 <= i < 26 :: a[i] == (97 + i) as Byte
  {
    seq(26, i requires 0 <= i < 26 => (97 + i) as Byte)
  }

  /** A buffered stream over `Stream::from($s)` mirrors `s` from 0. */
  lemma OverString(s: Bytes)
    ensures var st := Wrap(Utils.FromString(s));
            Mirrors(st, s, 0) && Cursor(st) == 0 && st.source.size.None? && st.source.handle.value.sized
  {
    Utils.FromStringHolds(s);
    WrapMirrors(Utils.FromString(s));
  }

  /** Bytes seen once are served again from the buffer after seeking back
      (tests/BufferedStreamTest.php:30-39, over "testing"). */
  lemma ReadCachedByte(s: Bytes)
    requires |s| == 7
    ensures var st0 := Wrap(Utils.FromString(s));
            var st1 := st0.Seek(5, SEEK_SET).0;
            var (st2, r1) := st1.Read(1);
            var st3 := st2.Seek(0, SEEK_SET).0;
            var (st4, r2) := st3.Read(1);
            r1 == Ok([s[5]]) && r2 == Ok([s[0]])
  {
    var st0 := Wrap(Utils.FromString(s));
    OverString(s);
    SeekFromFrontier(st0, s, 0, 5);
    var st1 := st0.Seek(5, SEEK_SET).0;
    ReadServesContent(st1, s, 0, 1);
    var st2 := st1.Read(1).0;
    SeekBehindFrontier(st2, s, 0, 0);
    var st3 := st2.Seek(0, SEEK_SET).0;
    ReadServesContent(st3, s, 0, 1);
    assert s[5..6] == [s[5]] && s[0..1] == [s[0]];
  }

  /** Over "testing": after `seek(5)` and `seek(0)`, `seek(6)` leaves the
      stream at 1, not 6. */
  lemma SeekSixLandsAtOne(s: Bytes)
    requires |s| == 7
    ensures var st0 := Wrap(Utils.FromString(s));
            var st1 := st0.Seek(5, SEEK_SET).0;
            var st2 := st1.Seek(0, SEEK_SET).0;
            var (st3, r) := st2.Seek(6, SEEK_SET);
            r == Ok(()) && st3.Tell() == Ok(1)
  {
    var st0 := Wrap(Utils.FromString(s));
    OverString(s);
    SeekFromFrontier(st0, s, 0, 5);
    var st1 := st0.Seek(5, SEEK_SET).0;
    SeekBehindFrontier(st1, s, 0, 0);
    var st2 := st1.Seek(0, SEEK_SET).0;
    assert Cursor(st2) == 0 && st2.written == 5;
    SeekPastFrontierFallsShort(st2, s, 0, 6);
  }

  /** `seek(-1, SEEK_END)` over the alphabet lands on 25, the next byte is
      'z' and the size is 26 (tests/BufferedStreamTest.php:41-49). */
  lemma SeekNearEnd()
    ensures var st0 := Wrap(Utils.FromString(Alphabet()));
            var (st1, r) := st0.Seek(-1, SEEK_END);
            var (st2, z) := st1.Read(1);
            r == Ok(()) && st1.Tell() == Ok(25) && z == Ok(['z' as int as Byte]) &&
            st2.GetSize().1 == Ok(Some(26))
  {
    var a := Alphabet();
    var st0 := Wrap(Utils.FromString(a));
    OverString(a);
    SeekTargetResolves(st0, a, 0, -1, SEEK_END);
    SeekViaTarget(st0, -1, SEEK_END);
    var st0' := st0.SeekTargetOf(-1, SEEK_END).0;
    SeekFromFrontier(st0', a, 0, 25);
    var st1 := st0.Seek(-1, SEEK_END).0;
    ReadServesContent(st1, a, 0, 1);
    assert a[25..26] == [a[25]] && a[25] == 122 as Byte;
    var st2 := st1.Read(1).0;
    GetSizeReports(st2, a, 0);
  }

  /** `seek(0, SEEK_END)` over the alphabet reads the whole source; a read
      there yields nothing and the size is 26
      (tests/BufferedStreamTest.php:51-59). */
  lemma SeekToEnd()
    ensures var st0 := Wrap(Utils.FromString(Alphabet()));
            var (st1, r) := st0.Seek(0, SEEK_END);
            var (st2, empty) := st1.Read(1);
            r == Ok(()) && st1.source.Tell() == Ok(26) && empty == Ok([]) &&
            st2.GetSize().1 == Ok(Some(26))
  {
    var a := Alphabet();
    var st0 := Wrap(Utils.FromString(a));
    OverString(a);
    SeekTargetResolves(st0, a, 0, 0, SEEK_END);
    SeekViaTarget(st0, 0, SEEK_END);
    var st0' := st0.SeekTargetOf(0, SEEK_END).0;
    SeekFromFrontier(st0', a, 0, 26);
    var st1 := st0.Seek(0, SEEK_END).0;
    ReadServesContent(st1, a, 0, 1);
    var st2 := st1.Read(1).0;
    GetSizeReports(st2, a, 0);
  }

  /** `detach()` over the alphabet closes the source and returns a handle
      holding the alphabet (tests/BufferedStreamTest.php:109-127). */
  lemma DetachAlphabet()
    ensures var (st1, r) := Wrap(Utils.FromString(Alphabet())).Detach();
            !st1.source.readable && !st1.source.writable &&
            r.Ok? && r.value.Some? && r.value.value.data == Alphabet()
  {
    var a := Alphabet();
    OverString(a);
    DetachHandsOverContent(Wrap(Utils.FromString(a)), a, 0);
  }

  /** A `BufferedStream` object. */
  class BufferedStream {
    const source: Stream
    const buffer: Stream
    var written: int

    function State(): BufferedState
      reads this, source, buffer
    {
      BufferedState(source.State(), buffer.State(), written)
    }

    ghost predicate Valid()
      reads this, source, buffer
    {
      source != buffer && State().Valid()
    }

    constructor (source: Stream)
      requires source.Valid()
      ensures Valid() && fresh(buffer) && this.source == source
      ensures State() == Wrap(source.State())
    {
      this.source := source;
      buffer := new Stream.Temp("w+b");
      written := 0;
      Modes.UpdateModes("w+b");
    }

    method IsSeekable() returns (r: bool)
      ensures r == State().IsSeekable()
    {
      r := buffer.IsSeekable();
    }

    method IsReadable() returns (r: bool)
      ensures r == State().IsReadable()
    {
      r := buffer.IsReadable();
    }

    method IsWritable() returns (r: bool)
      ensures !r
    {
      r := false;
    }

    method Tell() returns (r: Result<int>)
      ensures r == State().Tell()
    {
      r := buffer.Tell();
    }

    method Eof() returns (r: Result<bool>)
      ensures r == State().Eof()
    {
      var sourceEof := source.Eof();
      if sourceEof.Err? {
        return Err(sourceEof.error);
      }
      if !sourceEof.value {
        return Ok(false);
      }
      var tell := buffer.Tell();
      if tell.Err? {
        return Err(tell.error);
      }
      r := Ok(tell.value == written);
    }

    method Read(length: int) returns (r: Result<Bytes>)
      requires Valid()
      modifies this, source, buffer
      ensures Valid() && (State(), r) == old(State()).Read(length)
    {
      var tell := buffer.Tell();
      if tell.Err? {
        return Err(tell.error);
      }
      var data: Bytes := [];
      if tell.value != written {
        var fromBuffer := buffer.Read(length);
        if fromBuffer.Err? {
          return Err(fromBuffer.error);
        }
        data := fromBuffer.value;
      }
      if |data| < length {
        var fromSource := source.Read(length - |data|);
        if fromSource.Err? {
          return Err(fromSource.error);
        }
        var n := buffer.Write(fromSource.value);
        written := written + n.value;
        data := data + fromSource.value;
      }
      r := Ok(data);
    }

    method GetSize() returns (r: Result<Option<int>>)
      requires Valid()
      modifies source
      ensures Valid() && (State(), r) == old(State()).GetSize()
    {
      var size := source.GetSize();
      if size.None? {
        var sourceEof := source.Eof();
        if sourceEof.Err? {
          return Err(sourceEof.error);
        }
        if sourceEof.value {
          return Ok(Some(written));
        }
      }
      size := source.GetSize();
      r := Ok(size);
    }

    /** The target computation at the head of `seek`. */
    method SeekTargetOf(offset: int, whence: int) returns (r: Result<int>)
      requires Valid()
      modifies source
      ensures Valid() && (State(), r) == old(State()).SeekTargetOf(offset, whence)
    {
      if whence == SEEK_SET {
        r := Ok(offset);
      } else if whence == SEEK_CUR {
        var tell := Tell();
        if tell.Err? {
          return Err(tell.error);
        }
        r := Ok(offset + tell.value);
      } else if whence == SEEK_END {
        var size := GetSize();
        if size.Err? {
          return Err(size.error);
        }
        r := Ok(offset + size.value.GetOr(0));
      } else {
        r := Err(InvalidArgument(INVALID_WHENCE));
      }
    }

    method Seek(offset: int, whence: int) returns (r: Result<()>)
      requires Valid()
      modifies this, source, buffer
      ensures Valid() && (State(), r) == old(State()).Seek(offset, whence)
    {
      var target := SeekTargetOf(offset, whence);
      if target.Err? {
        return Err(target.error);
      }
      ghost var st := State();
      var diff := target.value - written;
      if diff > 0 {
        var rd := Read(diff);
        assert (State(), rd) == st.Read(diff);
        if rd.Err? {
          return Err(rd.error);
        }
        r := Ok(());
      } else {
        r := buffer.Seek(target.value, SEEK_SET);
        assert State() == st.(buffer := st.buffer.Seek(target.value, SEEK_SET).0);
      }
    }

    method Rewind() returns (r: Result<()>)
      requires Valid()
      modifies buffer
      ensures Valid() && (State(), r) == old(State()).Rewind()
    {
      r := buffer.Rewind();
    }

    method Write(s: Bytes) returns (r: Result<int>)
      ensures r == Err(StreamError(READ_ONLY))
    {
      r := Err(StreamError(READ_ONLY));
    }

    method Copy(from: Stream) returns (r: Result<int>)
      ensures r == Err(StreamError(READ_ONLY))
    {
      r := Err(StreamError(READ_ONLY));
    }

    method GetContents() returns (r: Result<Bytes>)
      requires Valid()
      modifies this, source, buffer
      ensures Valid() && (State(), r) == old(State()).GetContents()
    {
      var data: Bytes := [];
      while true
        invariant Valid()
        invariant old(State()).GetContents() == (State().GetContents().0, Prepend(data, State().GetContents().1))
        decreases State().SourceLeft(), State().SourceLive(), State().BufferLeft()
      {
        var eof := Eof();
        if eof.Err? {
          return Err(eof.error);
        }
        if eof.value {
          assert State().GetContents() == (State(), Ok([]));
          assert data + [] == data;
          return Ok(data);
        }
        ghost var before := State();
        var chunk := Read(CHUNK);
        if chunk.Err? {
          return Err(chunk.error);
        }
        ReadMakesProgress(before);
        assert before.GetContents() == (State().GetContents().0, Prepend(chunk.value, State().GetContents().1));
        PrependTwice(data, chunk.value, State().GetContents().1);
        data := data + chunk.value;
      }
    }

    method Close()
      requires Valid()
      modifies source, buffer
      ensures Valid() && State() == old(State()).Close()
    {
      source.Close();
      buffer.Close();
    }

    method Detach() returns (r: Result<Option<Handle>>)
      requires Valid()
      modifies this, source, buffer
      ensures Valid() && (State(), r) == old(State()).Detach()
    {
      var contents := GetContents();
      if contents.Err? {
        return Err(contents.error);
      }
      source.Close();
      var h := buffer.Detach();
      r := Ok(h);
    }

    method ToString() returns (r: Bytes)
      requires Valid()
      modifies this, source, buffer
      ensures Valid() && (State(), r) == old(State()).ToString()
    {
      var rewound := Rewind();
      if rewound.Err? {
        return [];
      }
      var contents := GetContents();
      r := if contents.Ok? then contents.value else [];
    }
  }
}
