/** `CachingStream` (src/CachingStream.php): a decorator that copies every
    byte it reads from the original stream into an `rb+` temporary buffer,
    so that the bytes can be read again after seeking back. Writes go to
    the buffer only; when a write carries the buffer past the bytes taken
    from the original, `skipBytes` counts the original's bytes that the
    write has shadowed and that a later read must drop. The members that
    come from src/StreamDecoratorTrait.php forward to the buffer. */
module Caching {
  import opened Results
  import opened Handles
  import opened Streams
  import Modes
  import Utils
  import Buffered

  /** PHP's `substr($s, $k)` for k >= 0: empty once k reaches the length. */
  function Substr(s: Bytes, k: nat): (r: Bytes)
    ensures r == if k < |s| then s[k..] else []
  {
    if k < |s| then s[k..] else []
  }

  /** PHP's `max($a, $b)` of a nullable size and an int. Comparing null
      with an int compares their truth values, and a tie returns the first
      argument, so `max(null, 0)` is null. */
  function PhpMax(a: Option<int>, b: int): (r: Option<int>)
    ensures a.Some? ==> r == Some(Max(a.value, b))
    ensures a.None? ==> (r.Some? <==> b != 0) && (r.Some? ==> r.value == b)
  {
    match a
    case None => if b != 0 then Some(b) else None
    case Some(x) => Some(Max(x, b))
  }

  /** Bytes after the cursor of a stream, and whether it has yet to see
      its end: the termination measures of the loops below. */
  function Left(s: StreamState): nat {
    if s.handle.Some? && s.handle.value.pos <= |s.handle.value.data|
    then |s.handle.value.data| - s.handle.value.pos else 0
  }

  function Live(s: StreamState): nat {
    if s.handle.Some? && !s.handle.value.atEof then 1 else 0
  }

  /** The fields of a `CachingStream`: the original, the buffer (the
      field `stream` of the source) and `skipBytes`. */
  datatype CachingState = CachingState(original: StreamState, stream: StreamState, skipBytes: int)
  {
    /** What every operation keeps: both streams are consistent, the skip
        count is never negative, and an open buffer can be read, written
        and sought. */
    predicate Valid() {
      original.Valid() && stream.Valid() && skipBytes >= 0 &&
      (stream.Attached() ==> stream.readable && stream.writable && stream.seekable)
    }

    /** `read($length)` (src/CachingStream.php:57-75), as written: the
        buffer serves what it can; the shortfall plus `skipBytes` is read
        from the original, the first `skipBytes` of that are dropped, and
        the skip count goes down by the number of bytes KEPT. */
    function Read(length: int): (r: (CachingState, Result<Bytes>))
      requires Valid()
      ensures r.0.Valid() && r.0.skipBytes <= skipBytes
      ensures r.1.Err? ==> r.0.skipBytes == skipBytes
    {
      var (b1, fromBuffer) := stream.Read(length);
      if fromBuffer.Err? then (this.(stream := b1), Err(fromBuffer.error))
      else
        var remaining := length - |fromBuffer.value|;
        if remaining > 0 then
          var (o1, fromOriginal) := original.Read(remaining + skipBytes);
          if fromOriginal.Err? then (CachingState(o1, b1, skipBytes), Err(fromOriginal.error))
          else
            var kept := if skipBytes > 0 then Substr(fromOriginal.value, skipBytes) else fromOriginal.value;
            var skip := if skipBytes > 0 then Max(0, skipBytes - |kept|) else skipBytes;
            (CachingState(o1, b1.Write(kept).0, skip), Ok(fromBuffer.value + kept))
        else (this.(stream := b1), Ok(fromBuffer.value))
    }

    /** `read` as it is evidently meant: the skip count goes down by the
        number of bytes taken from the original, dropped or not. */
    function ReadCorrected(length: int): (r: (CachingState, Result<Bytes>))
      requires Valid()
      ensures r.0.Valid() && r.0.skipBytes <= skipBytes
    {
      var (b1, fromBuffer) := stream.Read(length);
      if fromBuffer.Err? then (this.(stream := b1), Err(fromBuffer.error))
      else
        var remaining := length - |fromBuffer.value|;
        if remaining > 0 then
          var (o1, fromOriginal) := original.Read(remaining + skipBytes);
          if fromOriginal.Err? then (CachingState(o1, b1, skipBytes), Err(fromOriginal.error))
          else
            var kept := if skipBytes > 0 then Substr(fromOriginal.value, skipBytes) else fromOriginal.value;
            var skip := if skipBytes > 0 then Max(0, skipBytes - |fromOriginal.value|) else skipBytes;
            (CachingState(o1, b1.Write(kept).0, skip), Ok(fromBuffer.value + kept))
        else (this.(stream := b1), Ok(fromBuffer.value))
    }

    /** `write($string)` (src/CachingStream.php:78-87), as written: the
        overflow is the write's end in the buffer less the original's
        position, and it is added to the skip count; the bytes go to the
        buffer only. The skip count is raised before the buffer's own
        write can fail. */
    function Write(s: Bytes): (r: (CachingState, Result<int>))
      requires Valid()
      ensures r.0.Valid() && r.0.original == original && r.0.skipBytes >= skipBytes
    {
      match stream.Tell()
      case Err(e) => (this, Err(e))
      case Ok(t) =>
        match original.Tell()
        case Err(e) => (this, Err(e))
        case Ok(ot) =>
          var overflow := |s| + t - ot;
          var skip := if overflow > 0 then skipBytes + overflow else skipBytes;
          var (b1, n) := stream.Write(s);
          (CachingState(original, b1, skip), n)
    }

    /** `write` as it is evidently meant: the bytes already shadowed are
        counted once, so the overflow is measured from the original's
        position plus the skip count. */
    function WriteCorrected(s: Bytes): (r: (CachingState, Result<int>))
      requires Valid()
      ensures r.0.Valid() && r.0.original == original && r.0.skipBytes >= skipBytes
    {
      match stream.Tell()
      case Err(e) => (this, Err(e))
      case Ok(t) =>
        match original.Tell()
        case Err(e) => (this, Err(e))
        case Ok(ot) =>
          var overflow := |s| + t - (ot + skipBytes);
          var skip := if overflow > 0 then skipBytes + overflow else skipBytes;
          var (b1, n) := stream.Write(s);
          (CachingState(original, b1, skip), n)
    }

    /** `getSize()` (src/CachingStream.php:23-32): unknown when the
        original's size is, else the larger of the buffer's and the
        original's. */
    function GetSize(): (r: (CachingState, Option<int>))
      requires Valid()
      ensures r.0.Valid() && r.0.skipBytes == skipBytes
      ensures r.0.original == original.(size := r.0.original.size)
      ensures r.0.stream == stream.(size := r.0.stream.size)
    {
      var (o1, originalSize) := original.GetSize();
      if originalSize.None? then (this.(original := o1), None)
      else
        var (b1, size) := stream.GetSize();
        (CachingState(o1, b1, skipBytes), PhpMax(size, originalSize.value))
    }

    /** The absolute offset `seek` aims at (src/CachingStream.php:37-42).
        With SEEK_END and an original of unknown size, the whole original
        is copied into the buffer and the count copied stands in for the
        size. */
    function SeekTargetOf(offset: int, whence: int): (r: (CachingState, Result<int>))
      requires Valid()
      ensures r.0.Valid() && r.0.skipBytes == skipBytes
      ensures whence != SEEK_END ==> r.0 == this
    {
      if whence == SEEK_SET then (this, Ok(offset))
      else if whence == SEEK_CUR then
        match stream.Tell()
        case Err(e) => (this, Err(e))
        case Ok(t) => (this, Ok(offset + t))
      else if whence == SEEK_END then
        var (o1, size) := original.GetSize();
        if size.Some? then (this.(original := o1), Ok(offset + size.value))
        else
          var (b1, o2, copied) := stream.Copy(o1);
          var st := CachingState(o2, b1, skipBytes);
          if copied.Err? then (st, Err(copied.error)) else (st, Ok(offset + copied.value))
      else (this, Err(InvalidArgument(INVALID_WHENCE)))
    }

    /** The loop of `seek` (src/CachingStream.php:46-50): while the buffer
        is short of the target and the original has not signalled its end,
        read the difference. */
    function SeekLoop(target: int, diff: int): (r: (CachingState, Result<()>))
      requires Valid()
      ensures r.0.Valid()
      decreases Left(original), Live(original), Left(stream), Live(stream)
    {
      if diff <= 0 then (this, Ok(()))
      else match original.Eof()
        case Err(e) => (this, Err(e))
        case Ok(true) => (this, Ok(()))
        case Ok(false) =>
          var (st1, rd) := Read(diff);
          if rd.Err? then (st1, Err(rd.error))
          else
            ReadMakesProgress(this, diff);
            var (b2, size) := st1.stream.GetSize();
            st1.(stream := b2).SeekLoop(target, target - size.GetOr(0))
    }

    /** `seek($offset, $whence)` (src/CachingStream.php:35-54): a target
        beyond the buffer is reached by reading; any other is a seek of
        the buffer. */
    function Seek(offset: int, whence: int): (r: (CachingState, Result<()>))
      requires Valid()
      ensures r.0.Valid()
    {
      var (st, target) := SeekTargetOf(offset, whence);
      if target.Err? then (st, Err(target.error))
      else
        var (b1, size) := st.stream.GetSize();
        var st1 := st.(stream := b1);
        var diff := target.value - size.GetOr(0);
        if diff > 0 then st1.SeekLoop(target.value, diff)
        else
          var (b2, sk) := st1.stream.Seek(target.value, SEEK_SET);
          (st1.(stream := b2), sk)
    }

    /** `eof()` (src/CachingStream.php:89-92): the buffer's flag and then
        the original's. */
    function Eof(): Result<bool> {
      match stream.Eof()
      case Err(e) => Err(e)
      case Ok(false) => Ok(false)
      case Ok(true) => original.Eof()
    }

    /** `getContents()` (src/CachingStream.php:94-103): reads chunks of
        `1024 ^ 2` bytes until `eof()`. */
    function GetContents(): (r: (CachingState, Result<Bytes>))
      requires Valid()
      ensures r.0.Valid()
      decreases Left(original), Live(original), Left(stream), Live(stream)
    {
      match Eof()
      case Err(e) => (this, Err(e))
      case Ok(true) => (this, Ok([]))
      case Ok(false) =>
        var (st1, chunk) := Read(CHUNK);
        if chunk.Err? then (st1, Err(chunk.error))
        else
          ReadMakesProgress(this, CHUNK);
          var (st2, rest) := st1.GetContents();
          (st2, Prepend(chunk.value, rest))
    }

    /** `close()` (src/CachingStream.php:105-109): closes both streams. */
    function Close(): (r: CachingState)
      requires Valid()
      ensures r.Valid() && r.skipBytes == skipBytes
      ensures !r.original.Attached() && !r.stream.Attached()
    {
      CachingState(original.Close(), stream.Close(), skipBytes)
    }

    /** The members of src/StreamDecoratorTrait.php that CachingStream does
        not override all act on the buffer: `tell`, `rewind`, the three
        capability flags, `detach`, `copy` and `__toString`. */
    function Tell(): Result<int> {
      stream.Tell()
    }

    function IsReadable(): bool { stream.readable }
    function IsWritable(): bool { stream.writable }
    function IsSeekable(): bool { stream.seekable }

    function Rewind(): (r: (CachingState, Result<()>))
      requires Valid()
      ensures r.0.Valid() && r.0.original == original && r.0.skipBytes == skipBytes
    {
      var (b1, rw) := stream.Rewind();
      (this.(stream := b1), rw)
    }

    /** `detach()` hands over the buffer's handle; the original stays open. */
    function Detach(): (r: (CachingState, Option<Handle>))
      requires Valid()
      ensures r.0.Valid() && r.0.original == original && r.0.skipBytes == skipBytes
      ensures !r.0.stream.Attached() && r.1 == stream.handle
    {
      var (b1, h) := stream.Detach();
      (this.(stream := b1), h)
    }

    /** `copy($source)` copies into the buffer at its cursor; the skip
        count is left alone. */
    function Copy(source: StreamState): (r: (CachingState, StreamState, Result<int>))
      requires Valid() && source.Valid()
      ensures r.0.Valid() && r.1.Valid() && r.0.original == original && r.0.skipBytes == skipBytes
    {
      var (b1, s1, n) := stream.Copy(source);
      (this.(stream := b1), s1, n)
    }

    /** `__toString()` is the buffer's `__toString`: the buffer's bytes,
        whatever of the original has not been read yet. */
    function ToString(): (r: (CachingState, Result<Bytes>))
      requires Valid()
      ensures r.0.Valid() && r.0.original == original && r.0.skipBytes == skipBytes
    {
      var (b1, contents) := stream.GetContents();
      (this.(stream := b1), contents)
    }

    /** `__toString` as a PSR-7 stream promises it: rewind, then read
        everything that follows. */
    function ToStringCorrected(): (r: (CachingState, Result<Bytes>))
      requires Valid()
      ensures r.0.Valid()
    {
      var (st, rw) := Rewind();
      if rw.Err? then (st, Err(rw.error)) else st.GetContents()
    }
  }

  /** Whether `a` is below `b` in the order the loops descend by. */
  predicate Below(a: CachingState, b: CachingState) {
    Left(a.original) < Left(b.original) ||
    (Left(a.original) == Left(b.original) &&
     (Live(a.original) < Live(b.original) ||
      (Live(a.original) == Live(b.original) &&
       (Left(a.stream) < Left(b.stream) ||
        (Left(a.stream) == Left(b.stream) && Live(a.stream) < Live(b.stream))))))
  }

  /** A successful read of at least one byte while either stream has yet to
      signal its end moves one of them on. */
  lemma ReadMakesProgress(st: CachingState, n: int)
    requires st.Valid() && n > 0 && st.Read(n).1.Ok?
    requires st.original.Eof() == Ok(false) || st.stream.Eof() == Ok(false)
    ensures Below(st.Read(n).0, st)
  {
  }

  /** One turn of the `seek` loop: read the difference, then measure the
      buffer again. */
  lemma SeekLoopStep(st: CachingState, target: int, diff: int, next: CachingState, diff': int)
    requires st.Valid() && diff > 0 && st.original.Eof() == Ok(false) && st.Read(diff).1.Ok?
    requires next == st.Read(diff).0.(stream := st.Read(diff).0.stream.GetSize().0)
    requires diff' == target - st.Read(diff).0.stream.GetSize().1.GetOr(0)
    ensures next.Valid() && st.SeekLoop(target, diff) == next.SeekLoop(target, diff')
  {
  }

  /** `new CachingStream($stream)` (src/CachingStream.php:17-21). */
  function Wrap(original: StreamState): (st: CachingState)
    requires original.Valid()
    ensures st.Valid() && st.original == original && st.skipBytes == 0
    ensures st.stream == StreamState.Temp("rb+")
  {
    Modes.ReadWriteBinary();
    CachingState(original, StreamState.Temp("rb+"), 0)
  }

  /** The stream's position: the buffer's cursor. */
  function Cursor(st: CachingState): int
    requires st.stream.Attached()
  {
    st.stream.handle.value.pos
  }

  /** The bytes held in the buffer. */
  function Cached(st: CachingState): Bytes
    requires st.stream.Attached()
  {
    st.stream.handle.value.data
  }

  /** What a reader of the caching stream sees: the buffer laid over the
      original's bytes. */
  function Content(st: CachingState): Bytes
    requires st.original.Attached() && st.stream.Attached()
  {
    Overwrite(st.original.handle.value.data, 0, Cached(st))
  }

  /** The bookkeeping `skipBytes` is there to keep, for an original wrapped
      at offset 0: the original's next unread byte lies `skipBytes` short
      of the buffer's end, so that the bytes in between are the ones the
      buffer already shadows. Any size either stream has cached is its
      true size, and the buffer's size is known to `fstat`. */
  predicate Coherent(st: CachingState) {
    st.Valid() && st.original.Attached() && st.original.readable && st.stream.Attached() &&
    st.stream.handle.value.sized &&
    |Cached(st)| == st.original.handle.value.pos + st.skipBytes &&
    (st.stream.size.Some? ==> st.stream.size.value == |Cached(st)|) &&
    (st.original.size.Some? ==> st.original.size.value == |st.original.handle.value.data|)
  }

  /** A fresh caching stream over a readable original at offset 0 is
      coherent, at position 0, and shows exactly the original's bytes. */
  lemma WrapCoheres(original: StreamState)
    requires original.Valid() && original.Attached() && original.readable
    requires original.handle.value.pos == 0
    requires original.size.Some? ==> original.size.value == |original.handle.value.data|
    ensures var st := Wrap(original);
            Coherent(st) && Cursor(st) == 0 && Cached(st) == [] &&
            Content(st) == original.handle.value.data
    ensures Wrap(original).IsReadable() && Wrap(original).IsWritable() && Wrap(original).IsSeekable()
  {
    var d := original.handle.value.data;
    var o := Overwrite(d, 0, []);
    assert |o| == |d|;
    forall i | 0 <= i < |o| ensures o[i] == d[i] {}
  }

  /** Without bytes to skip, `read` as written and the corrected `read`
      agree. */
  lemma ReadAgreesWithoutSkip(st: CachingState, length: int)
    requires st.Valid() && st.skipBytes == 0
    ensures st.Read(length) == st.ReadCorrected(length)
  {
  }

  /** Without bytes to skip, `write` as written and the corrected `write`
      agree. */
  lemma WriteAgreesWithoutSkip(st: CachingState, s: Bytes)
    requires st.Valid() && st.skipBytes == 0
    ensures st.Write(s) == st.WriteCorrected(s)
  {
  }

  /** The corrected `read` returns the next bytes of the content after the
      cursor and moves the cursor past them; the content and the
      bookkeeping are kept, the buffer grows to the furthest point read,
      and the original has only signalled its end once all of the
      content is buffered. */
  lemma ReadCorrectedServes(st: CachingState, length: int)
    requires Coherent(st) && length >= 0
    ensures var c := Cursor(st);
            var end := Min(c + length, |Content(st)|);
            var (st1, r) := st.ReadCorrected(length);
            r == Ok(Content(st)[c..end]) && Coherent(st1) && Content(st1) == Content(st) &&
            Cursor(st1) == end && |Cached(st1)| == Max(|Cached(st)|, end) &&
            st1.original.size == st.original.size &&
            (st1.original.handle.value.atEof && !st.original.handle.value.atEof ==>
               end == |Content(st)| == |Cached(st1)|)
  {
    var c := Cursor(st);
    assert st.stream.Tell() == Ok(c);
    if length == 0 {
      assert st.stream.Read(0) == (st.stream, Ok([]));
      assert st.ReadCorrected(0) == (st.(stream := st.stream), Ok([]));
      assert Content(st)[c..c] == [];
    } else if c + length <= |Cached(st)| {
      ReadCorrectedBehind(st, length);
    } else {
      ReadCorrectedAcross(st, length);
    }
  }

  /** A read that ends inside the buffer is served by the buffer alone. */
  lemma ReadCorrectedBehind(st: CachingState, length: int)
    requires Coherent(st) && length > 0 && Cursor(st) + length <= |Cached(st)|
    ensures var c := Cursor(st);
            var (st1, r) := st.ReadCorrected(length);
            r == Ok(Content(st)[c..c + length]) && st1 == st.(stream := st1.stream) &&
            Coherent(st1) && Cached(st1) == Cached(st) && Cursor(st1) == c + length
  {
    var c := Cursor(st);
    var (b1, fromBuffer) := st.stream.Read(length);
    assert fromBuffer == Ok(Cached(st)[c..c + length]);
    OverlayPrefix(st.original.handle.value.data, Cached(st), c, c + length);
    assert st.ReadCorrected(length) == (st.(stream := b1), fromBuffer);
  }

  /** A read that runs past the buffer takes the rest of the buffer, then
      reads the shortfall and the bytes to skip from the original and
      keeps what follows the skipped ones. */
  lemma ReadCorrectedAcross(st: CachingState, length: int)
    requires Coherent(st) && length > 0 && Cursor(st) + length > |Cached(st)|
    ensures var c := Cursor(st);
            var end := Min(c + length, |Content(st)|);
            var (st1, r) := st.ReadCorrected(length);
            r == Ok(Content(st)[c..end]) && Coherent(st1) && Content(st1) == Content(st) &&
            Cursor(st1) == end && |Cached(st1)| == end &&
            st1.original.size == st.original.size &&
            (st1.original.handle.value.atEof && !st.original.handle.value.atEof ==> end == |Content(st)|)
  {
    var st1, raw := ReadPastCacheState(st, length);
    ReadPastCacheCoheres(st, length, st1, raw);
  }

  /** What that state means: the content is kept, the buffer now reaches
      the cursor, and the bytes returned are the content's. */
  lemma ReadPastCacheCoheres(st: CachingState, length: int, st1: CachingState, raw: Bytes)
    requires Coherent(st) && length > 0 && Cursor(st) + length > |Cached(st)| && st1.Valid()
    requires var h := st.original.handle.value;
             var B := Cached(st);
             var k := st.skipBytes;
             var kept := if k > 0 then Substr(raw, k) else raw;
             var want := Cursor(st) + length - |B| + k;
             raw == h.data[h.pos..Min(h.pos + want, |h.data|)] &&
             st1.skipBytes == (if k > 0 then Max(0, k - |raw|) else k) && st1.original.Attached() &&
             st1.original.handle == Some(h.(pos := h.pos + |raw|, atEof := st1.original.handle.value.atEof)) &&
             st1.original == st.original.(handle := st1.original.handle) &&
             st1.stream.handle == Some(st.stream.handle.value.(data := Overwrite(B, |B|, kept),
                                                              pos := |B| + |kept|, atEof := true)) &&
             st1.stream == st.stream.(size := None, handle := st1.stream.handle) &&
             (st1.original.handle.value.atEof && !h.atEof ==> h.pos + want > |h.data|)
    ensures var c := Cursor(st);
            var end := Min(c + length, |Content(st)|);
            var kept := if st.skipBytes > 0 then Substr(raw, st.skipBytes) else raw;
            Cached(st)[c..] + kept == Content(st)[c..end] &&
            Coherent(st1) && Content(st1) == Content(st) &&
            Cursor(st1) == end && |Cached(st1)| == end &&
            st1.original.size == st.original.size &&
            (st1.original.handle.value.atEof && !st.original.handle.value.atEof ==> end == |Content(st)|)
  {
    var O := st.original.handle.value.data;
    var p := st.original.handle.value.pos;
    var B := Cached(st);
    var c := Cursor(st);
    var k := st.skipBytes;
    var kept := if k > 0 then Substr(raw, k) else raw;
    ReadPastCacheContent(O, B, p, k, c, c + length - |B|);
    OverwriteAtEnd(B, kept);
    assert Cached(st1) == B + kept;
  }

  /** The state a corrected read past the buffer leaves, field by field:
      `raw` is what it takes from the original. */
  lemma ReadPastCacheState(st: CachingState, length: int) returns (st1: CachingState, raw: Bytes)
    requires Coherent(st) && length > 0 && Cursor(st) + length > |Cached(st)|
    ensures var h := st.original.handle.value;
            var B := Cached(st);
            var c := Cursor(st);
            var k := st.skipBytes;
            var kept := if k > 0 then Substr(raw, k) else raw;
            var want := c + length - |B| + k;
            raw == h.data[h.pos..Min(h.pos + want, |h.data|)] &&
            st.ReadCorrected(length) == (st1, Ok(B[c..] + kept)) &&
            st1.skipBytes == (if k > 0 then Max(0, k - |raw|) else k) &&
            st1.original.handle == Some(h.(pos := h.pos + |raw|, atEof := st1.original.handle.value.atEof)) &&
            st1.original == st.original.(handle := st1.original.handle) &&
            st1.stream.handle == Some(st.stream.handle.value.(data := Overwrite(B, |B|, kept),
                                                             pos := |B| + |kept|, atEof := true)) &&
            st1.stream == st.stream.(size := None, handle := st1.stream.handle) &&
            (st1.original.handle.value.atEof && !h.atEof ==> h.pos + want > |h.data|)
  {
    ReadPastCacheUnfolds(st, length);
    var o := st.original.Read(Cursor(st) + length - |Cached(st)| + st.skipBytes);
    raw := o.1.value;
    st1 := st.ReadCorrected(length).0;
  }

  /** How the corrected `read` unfolds when it runs past the buffer. */
  lemma ReadPastCacheUnfolds(st: CachingState, length: int)
    requires Coherent(st) && length > 0 && Cursor(st) + length > |Cached(st)|
    ensures st.original.Read(Cursor(st) + length - |Cached(st)| + st.skipBytes).1.Ok?
    ensures st.stream.Read(length).0 == st.stream.(handle := Some(st.stream.handle.value.(pos := |Cached(st)|, atEof := true)))
    ensures var B := Cached(st);
            var c := Cursor(st);
            var k := st.skipBytes;
            var b1 := st.stream.Read(length).0;
            var o := st.original.Read(c + length - |B| + k);
            var kept := if k > 0 then Substr(o.1.value, k) else o.1.value;
            st.ReadCorrected(length) ==
              (CachingState(o.0, b1.Write(kept).0, if k > 0 then Max(0, k - |o.1.value|) else k), Ok(B[c..] + kept))
  {
    var B := Cached(st);
    var c := Cursor(st);
    var k := st.skipBytes;
    var rb := st.stream.Read(length);
    var b1, fromBuffer := rb.0, rb.1;
    assert st.stream.readable && Min(c + length, |B|) == |B|;
    assert fromBuffer.Ok? && fromBuffer.value == B[c..|B|] == B[c..];
    assert b1 == st.stream.(handle := Some(st.stream.handle.value.(pos := |B|, atEof := true)));
    var remaining := length - |fromBuffer.value|;
    assert remaining + k == c + length - |B| + k;
    var ro := st.original.Read(remaining + k);
    var o1, fromOriginal := ro.0, ro.1;
    assert fromOriginal.Ok?;
    var kept := if k > 0 then Substr(fromOriginal.value, k) else fromOriginal.value;
    var skip := if k > 0 then Max(0, k - |fromOriginal.value|) else k;
    assert st.ReadCorrected(length) == (CachingState(o1, b1.Write(kept).0, skip), Ok(fromBuffer.value + kept));
  }

  /** The bytes a read past the buffer keeps are the content's next ones,
      and the skip count left over keeps the bookkeeping. */
  lemma KeptFollowsCache(O: Bytes, B: Bytes, p: nat, k: nat, r: nat)
    requires p <= |O| && |B| == p + k && r > 0
    ensures var raw := O[p..Min(p + r + k, |O|)];
            var kept := if k > 0 then Substr(raw, k) else raw;
            var L := Overwrite(O, 0, B);
            kept == L[|B|..Min(|B| + r, |L|)] && Overwrite(O, 0, B + kept) == L &&
            |B| + |kept| == p + |raw| + (if k > 0 then Max(0, k - |raw|) else k) &&
            (p + r + k > |O| ==> |B| + |kept| == |L|)
  {
    var raw := O[p..Min(p + r + k, |O|)];
    var kept := if k > 0 then Substr(raw, k) else raw;
    var end := Min(|B| + r, |O|);
    if |B| < |O| {
      SliceOfSlice(O, p, Min(p + r + k, |O|), k, |raw|);
      assert kept == O[|B|..end];
      OverlayBeyond(O, B, |B|, end);
      OverlayOwn(O, B, kept);
    } else {
      assert kept == [];
      assert B + kept == B;
    }
  }

  /** The bytes a read past the buffer returns: the rest of the buffer,
      then what it keeps of the original's bytes. */
  lemma ReadPastCacheContent(O: Bytes, B: Bytes, p: nat, k: nat, c: nat, r: nat)
    requires p <= |O| && |B| == p + k && r > 0 && c <= |B|
    ensures var raw := O[p..Min(p + r + k, |O|)];
            var kept := if k > 0 then Substr(raw, k) else raw;
            var L := Overwrite(O, 0, B);
            var end := Min(|B| + r, |L|);
            B[c..] + kept == L[c..end] && |B| + |kept| == end && Overwrite(O, 0, B + kept) == L &&
            |B| + |kept| == p + |raw| + (if k > 0 then Max(0, k - |raw|) else k) &&
            (p + r + k > |O| ==> end == |L|)
  {
    var L := Overwrite(O, 0, B);
    var end := Min(|B| + r, |L|);
    KeptFollowsCache(O, B, p, k, r);
    OverlayPrefix(O, B, c, |B|);
    assert B[c..] == B[c..|B|];
    SliceJoin(L, c, |B|, end);
  }

  /** The corrected `write` lays the bytes over the content at the cursor
      and moves the cursor past them; the bookkeeping is kept. */
  lemma WriteCorrectedOverlays(st: CachingState, s: Bytes)
    requires Coherent(st)
    ensures var c := Cursor(st);
            var (st1, r) := st.WriteCorrected(s);
            r == Ok(|s|) && Coherent(st1) && Cursor(st1) == c + |s| &&
            Content(st1) == Overwrite(Content(st), c, s)
  {
    var O := st.original.handle.value.data;
    var B := Cached(st);
    var c := Cursor(st);
    OverlayLayers(O, B, c, s);
  }

  /** Read-only traffic: with nothing to skip, `read` as written serves the
      content and leaves nothing to skip. */
  lemma ReadServes(st: CachingState, length: int)
    requires Coherent(st) && st.skipBytes == 0 && length >= 0
    ensures var c := Cursor(st);
            var end := Min(c + length, |Content(st)|);
            var (st1, r) := st.Read(length);
            r == Ok(Content(st)[c..end]) && Coherent(st1) && st1.skipBytes == 0 &&
            Content(st1) == Content(st) && Cursor(st1) == end
  {
    ReadAgreesWithoutSkip(st, length);
    ReadCorrectedServes(st, length);
  }

  /** `eof()` holds exactly when both streams have signalled their end,
      and then the cursor is at the end of the content. */
  lemma EofMeansEnd(st: CachingState)
    requires Coherent(st)
    ensures st.Eof() == Ok(st.stream.handle.value.atEof && st.original.handle.value.atEof)
    ensures st.Eof() == Ok(true) ==> Cursor(st) == |Content(st)|
  {
  }

  /** Measuring the buffer, as `seek` does, yields its length and caches
      it; nothing a reader sees changes. */
  lemma MeasureBuffer(st: CachingState)
    requires Coherent(st)
    ensures var (b1, size) := st.stream.GetSize();
            var st1 := st.(stream := b1);
            size == Some(|Cached(st)|) && Coherent(st1) && Cached(st1) == Cached(st) &&
            Cursor(st1) == Cursor(st) && Content(st1) == Content(st)
  {
  }

  /** `getSize()` is the length of the content when the original knows its
      size, and unknown otherwise. */
  lemma GetSizeIsLength(st: CachingState)
    requires Coherent(st)
    ensures var (st1, r) := st.GetSize();
            Coherent(st1) && st1.skipBytes == st.skipBytes && Cached(st1) == Cached(st) &&
            Cursor(st1) == Cursor(st) && Content(st1) == Content(st) &&
            (r.Some? <==> st.original.size.Some? || st.original.handle.value.sized) &&
            (r.Some? ==> r.value == |Content(st)|)
  {
  }

  /** One turn of the `getContents` loop. */
  lemma GetContentsStep(st: CachingState, next: CachingState, chunk: Bytes)
    requires st.Valid() && st.Eof() == Ok(false) && st.Read(CHUNK) == (next, Ok(chunk))
    ensures next.Valid() && st.GetContents() == (next.GetContents().0, Prepend(chunk, next.GetContents().1))
  {
  }

  /** At the end, `getContents()` returns nothing and changes nothing. */
  lemma GetContentsAtEnd(st: CachingState)
    requires Coherent(st) && st.Eof() == Ok(true)
    ensures st.GetContents() == (st, Ok(Content(st)[Cursor(st)..]))
  {
    EofMeansEnd(st);
    assert Content(st)[Cursor(st)..] == [];
  }

  /** With nothing to skip, `getContents()` returns the content from the
      cursor on, and leaves both streams at their end. */
  lemma {:induction false} GetContentsDrains(st: CachingState)
    requires Coherent(st) && st.skipBytes == 0
    ensures var (st1, r) := st.GetContents();
            r == Ok(Content(st)[Cursor(st)..]) && Coherent(st1) && st1.skipBytes == 0 &&
            Content(st1) == Content(st) && Cursor(st1) == |Content(st)| && st1.Eof() == Ok(true)
    decreases Left(st.original), Live(st.original), Left(st.stream), Live(st.stream), 1
  {
    EofMeansEnd(st);
    if st.Eof() == Ok(true) {
      GetContentsAtEnd(st);
    } else {
      GetContentsChunk(st);
    }
  }

  /** Before the end, `getContents()` is one chunk and then the rest. */
  lemma {:induction false} GetContentsChunk(st: CachingState)
    requires Coherent(st) && st.skipBytes == 0 && st.Eof() == Ok(false)
    ensures var (st1, r) := st.GetContents();
            r == Ok(Content(st)[Cursor(st)..]) && Coherent(st1) && st1.skipBytes == 0 &&
            Content(st1) == Content(st) && Cursor(st1) == |Content(st)| && st1.Eof() == Ok(true)
    decreases Left(st.original), Live(st.original), Left(st.stream), Live(st.stream), 0
  {
    var L := Content(st);
    var c := Cursor(st);
    var st1, chunk := ReadChunk(st);
    GetContentsStep(st, st1, chunk);
    GetContentsDrains(st1);
    var (st2, rest) := st1.GetContents();
    assert rest == Ok(L[Cursor(st1)..]);
    assert Coherent(st2) && st2.skipBytes == 0 && Content(st2) == L;
    assert Cursor(st2) == |L| && st2.Eof() == Ok(true);
    SliceJoinTail(L, c, Cursor(st1));
    assert st.GetContents() == (st2, Ok(L[c..]));
  }

  /** The chunk one turn of the `getContents` loop reads: the content from
      the cursor on, with the loop's measure going down. */
  lemma ReadChunk(st: CachingState) returns (st1: CachingState, chunk: Bytes)
    requires Coherent(st) && st.skipBytes == 0 && st.Eof() == Ok(false)
    ensures st.Read(CHUNK) == (st1, Ok(chunk))
    ensures Coherent(st1) && st1.skipBytes == 0 && Content(st1) == Content(st) &&
            Cursor(st) <= Cursor(st1) <= |Content(st)| && chunk == Content(st)[Cursor(st)..Cursor(st1)]
    ensures Below(st1, st)
  {
    ReadServes(st, CHUNK);
    ReadMakesProgress(st, CHUNK);
    st1 := st.Read(CHUNK).0;
    chunk := st.Read(CHUNK).1.value;
  }

  /** `seek` resolves `whence` to an absolute target and then seeks there
      with SEEK_SET. */
  lemma SeekViaTarget(st: CachingState, offset: int, whence: int)
    requires st.Valid()
    ensures var (st1, t) := st.SeekTargetOf(offset, whence);
            t.Ok? ==> st.Seek(offset, whence) == st1.Seek(t.value, SEEK_SET)
  {
  }

  /** The target of `seek` for each `whence`, for an original that knows
      its size; an unknown `whence` is refused. */
  lemma SeekTargetResolves(st: CachingState, offset: int, whence: int)
    requires Coherent(st) && (st.original.size.Some? || st.original.handle.value.sized)
    ensures var (st1, t) := st.SeekTargetOf(offset, whence);
            Coherent(st1) && st1.skipBytes == st.skipBytes && Cached(st1) == Cached(st) &&
            Cursor(st1) == Cursor(st) && Content(st1) == Content(st) &&
            st1.original.handle.value.sized == st.original.handle.value.sized &&
            (whence == SEEK_SET ==> t == Ok(offset)) &&
            (whence == SEEK_CUR ==> t == Ok(offset + Cursor(st))) &&
            (whence == SEEK_END ==> t == Ok(offset + |st.original.handle.value.data|)) &&
            (whence !in {SEEK_SET, SEEK_CUR, SEEK_END} ==> t == Err(InvalidArgument(INVALID_WHENCE)))
  {
  }

  /** Seeking no further than the end of the buffer is a seek of the
      buffer: it succeeds exactly for a target that is not negative. */
  lemma SeekWithinCache(st: CachingState, target: int)
    requires Coherent(st) && target <= |Cached(st)|
    ensures var (st1, r) := st.Seek(target, SEEK_SET);
            Coherent(st1) && st1.skipBytes == st.skipBytes && Cached(st1) == Cached(st) &&
            Content(st1) == Content(st) &&
            (r.Ok? <==> 0 <= target) &&
            (r.Ok? ==> Cursor(st1) == target) &&
            (r.Err? ==> Cursor(st1) == Cursor(st) && r.error == SeekFailed(target, SEEK_SET))
  {
    MeasureBuffer(st);
  }

  /** The loop of `seek`, with nothing to skip and `diff` the distance from
      the end of the buffer to the target: unless the original had already
      signalled its end, the buffer is filled up to the target, or to the
      end of the content if that comes first, and the cursor is left
      there. */
  lemma {:induction false} SeekLoopLands(st: CachingState, target: int, diff: int)
    requires Coherent(st) && st.skipBytes == 0 && diff == target - |Cached(st)|
    ensures var (st1, r) := st.SeekLoop(target, diff);
            r == Ok(()) && Coherent(st1) && st1.skipBytes == 0 && Content(st1) == Content(st) &&
            (diff <= 0 || st.original.handle.value.atEof ==> st1 == st) &&
            (diff > 0 && !st.original.handle.value.atEof ==>
               Cursor(st1) == |Cached(st1)| == Min(target, |Content(st)|))
    decreases Left(st.original), Live(st.original), Left(st.stream), Live(st.stream)
  {
    if diff > 0 && !st.original.handle.value.atEof {
      var L := Content(st);
      ReadServes(st, diff);
      ReadAgreesWithoutSkip(st, diff);
      ReadCorrectedServes(st, diff);
      ReadMakesProgress(st, diff);
      var st1 := st.Read(diff).0;
      MeasureBuffer(st1);
      var st2 := st1.(stream := st1.stream.GetSize().0);
      var diff2 := target - |Cached(st2)|;
      SeekLoopStep(st, target, diff, st2, diff2);
      SeekLoopLands(st2, target, diff2);
    } else {
      assert st.SeekLoop(target, diff) == (st, Ok(()));
    }
  }

  /** The `seek` loop only reads the original, so the original still
      reports its size afterwards exactly when it did before. */
  lemma {:induction false} SeekLoopKeepsSized(st: CachingState, target: int, diff: int)
    requires st.Valid() && st.original.Attached()
    ensures st.SeekLoop(target, diff).0.original.Attached()
    ensures st.SeekLoop(target, diff).0.original.handle.value.sized == st.original.handle.value.sized
    decreases Left(st.original), Live(st.original), Left(st.stream), Live(st.stream)
  {
    if diff > 0 && st.original.Eof() == Ok(false) && st.Read(diff).1.Ok? {
      ReadMakesProgress(st, diff);
      var st1 := st.Read(diff).0;
      var st2 := st1.(stream := st1.stream.GetSize().0);
      var diff2 := target - st1.stream.GetSize().1.GetOr(0);
      SeekLoopStep(st, target, diff, st2, diff2);
      SeekLoopKeepsSized(st2, target, diff2);
    }
  }

  /** Seeking past the end of the buffer, with nothing to skip, reads up to
      the target and stops there, or at the end of the content; if the
      original had already signalled its end, the cursor stays where it
      was. */
  lemma SeekBeyondCache(st: CachingState, target: int)
    requires Coherent(st) && st.skipBytes == 0 && target > |Cached(st)|
    ensures var (st1, r) := st.Seek(target, SEEK_SET);
            r == Ok(()) && Coherent(st1) && st1.skipBytes == 0 && Content(st1) == Content(st) &&
            st1.original.handle.value.sized == st.original.handle.value.sized &&
            Cursor(st1) == if st.original.handle.value.atEof then Cursor(st) else Min(target, |Content(st)|)
    ensures !st.original.handle.value.atEof ==> |Cached(st.Seek(target, SEEK_SET).0)| == Min(target, |Content(st)|)
  {
    MeasureBuffer(st);
    var st1 := st.(stream := st.stream.GetSize().0);
    var diff := target - |Cached(st1)|;
    SeekSetBeyond(st, target, st1, diff);
    SeekLoopLands(st1, target, diff);
    SeekLoopKeepsSized(st1, target, diff);
  }

  /** `seek($target)` past the buffer's size is the loop, started on the
      measured buffer. */
  lemma SeekSetBeyond(st: CachingState, target: int, st1: CachingState, diff: int)
    requires st.Valid() && st1 == st.(stream := st.stream.GetSize().0)
    requires diff == target - st.stream.GetSize().1.GetOr(0) && diff > 0
    ensures st1.Valid() && st.Seek(target, SEEK_SET) == st1.SeekLoop(target, diff)
  {
  }

  /** Rewinding moves the cursor to 0 and changes nothing else a reader
      sees. */
  lemma RewindCoheres(st: CachingState)
    requires Coherent(st)
    ensures var (st1, r) := st.Rewind();
            r == Ok(()) && Coherent(st1) && st1.skipBytes == st.skipBytes && Cursor(st1) == 0 &&
            Content(st1) == Content(st)
  {
  }

  /** `__toString()` as written yields the buffer's bytes only, which are
      the whole content only once all of it has been read. */
  lemma ToStringShowsOnlyCache(st: CachingState)
    requires Coherent(st)
    ensures st.ToString().1 == Ok(Cached(st))
  {
  }

  /** The corrected `__toString()` yields the whole content. */
  lemma ToStringCorrectedIsContent(st: CachingState)
    requires Coherent(st) && st.skipBytes == 0
    ensures st.ToStringCorrected().1 == Ok(Content(st))
  {
    RewindCoheres(st);
    var st1 := st.Rewind().0;
    GetContentsDrains(st1);
  }

  /** What `write` puts down at the cursor, a `seek` back there and a
      `read` of the same length return, whatever there is to skip. */
  lemma WriteThenReadBack(st: CachingState, s: Bytes)
    requires Coherent(st)
    ensures var c := Cursor(st);
            var (st1, n) := st.Write(s);
            var (st2, sk) := st1.Seek(c, SEEK_SET);
            n == Ok(|s|) && sk == Ok(()) && st2.Read(|s|).1 == Ok(s)
  {
    var c := Cursor(st);
    var st1 := st.Write(s).0;
    var B1 := Cached(st1);
    assert B1 == Overwrite(Cached(st), c, s);
    assert st1.stream.GetSize().1 == Some(|B1|);
    var st2 := st1.Seek(c, SEEK_SET).0;
    assert Cursor(st2) == c && Cached(st2) == B1;
    OverwriteReadsBack(Cached(st), c, s);
    if |s| > 0 {
      assert st2.stream.Read(|s|).1 == Ok(s);
    } else {
      assert st2.stream.Read(0) == (st2.stream, Ok([]));
    }
  }

  /** `read` as written and the corrected one return the same bytes and
      reach the same state but for the skip count. */
  lemma ReadDiffersOnlyInSkip(st: CachingState, length: int)
    requires st.Valid()
    ensures st.Read(length).1 == st.ReadCorrected(length).1
    ensures st.Read(length).0 == st.ReadCorrected(length).0.(skipBytes := st.Read(length).0.skipBytes)
  {
  }

  /** `read` as written at the end of the buffer: the request plus the
      skip count is read from the original, and what follows the skipped
      bytes is returned. */
  lemma ReadAtCacheEnd(st: CachingState, length: int)
    requires st.Valid() && st.stream.Attached() && st.original.Attached() && st.original.readable
    requires Cursor(st) == |Cached(st)| && length > 0
    ensures var h := st.original.handle.value;
            var raw := h.data[h.pos..Min(h.pos + length + st.skipBytes, |h.data|)];
            st.Read(length).1 == Ok(if st.skipBytes > 0 then Substr(raw, st.skipBytes) else raw)
  {
    var B := Cached(st);
    var (b1, fromBuffer) := st.stream.Read(length);
    assert fromBuffer == Ok([]) && [] + Substr([], 0) == [];
    var h := st.original.handle.value;
    var raw := h.data[h.pos..Min(h.pos + length + st.skipBytes, |h.data|)];
    var kept := if st.skipBytes > 0 then Substr(raw, st.skipBytes) else raw;
    assert [] + kept == kept;
  }

  /** A caching stream over `Stream::from($s)`: coherent, at 0, nothing
      cached or to skip, and showing `s`. */
  lemma OverString(s: Bytes)
    ensures var st := Wrap(Utils.FromString(s));
            Coherent(st) && Cursor(st) == 0 && Cached(st) == [] && Content(st) == s &&
            st.skipBytes == 0 && !st.original.handle.value.atEof && st.original.handle.value.pos == 0 &&
            st.original.handle.value.sized
  {
    Utils.FromStringHolds(s);
    WrapCoheres(Utils.FromString(s));
  }

  /** The size is the original's when the buffer holds less
      (tests/CachingStreamTest.php:11-16, over "test"). */
  lemma UseOriginalIfAvailable(s: Bytes)
    ensures Wrap(Utils.FromString(s)).GetSize().1 == Some(|s|)
  {
    OverString(s);
    GetSizeIsLength(Wrap(Utils.FromString(s)));
  }

  /** Bytes read once are served from the buffer after seeking back
      (tests/CachingStreamTest.php:18-27, over "testing"). */
  lemma ReadCachedByte(s: Bytes)
    requires |s| == 7
    ensures var st0 := Wrap(Utils.FromString(s));
            var (st1, r0) := st0.Seek(5, SEEK_SET);
            var (st2, r1) := st1.Read(1);
            var (st3, r2) := st2.Seek(0, SEEK_SET);
            var (st4, r3) := st3.Read(1);
            r0 == Ok(()) && r1 == Ok([s[5]]) && r2 == Ok(()) && r3 == Ok([s[0]])
  {
    var st0 := Wrap(Utils.FromString(s));
    OverString(s);
    SeekBeyondCache(st0, 5);
    var st1 := st0.Seek(5, SEEK_SET).0;
    ReadServes(st1, 1);
    var st2 := st1.Read(1).0;
    SeekWithinCache(st2, 0);
    var st3 := st2.Seek(0, SEEK_SET).0;
    ReadServes(st3, 1);
    assert s[5..6] == [s[5]] && s[0..1] == [s[0]];
  }

  /** Over `Stream::from($s)`, `seek(offset, SEEK_END)` to a point after
      the start reads the original up to that point and lands there. */
  lemma SeekFromEndOver(s: Bytes, offset: int) returns (st1: CachingState)
    requires -|s| < offset <= 0
    ensures (st1, Ok(())) == Wrap(Utils.FromString(s)).Seek(offset, SEEK_END)
    ensures Coherent(st1) && st1.skipBytes == 0 && Content(st1) == s &&
            Cursor(st1) == |s| + offset && st1.original.Tell() == Ok(|s| + offset) &&
            st1.original.handle.value.sized
  {
    OverString(s);
    st1 := SeekFromEndFresh(Wrap(Utils.FromString(s)), s, offset);
  }

  lemma SeekFromEndFresh(st0: CachingState, s: Bytes, offset: int) returns (st1: CachingState)
    requires Coherent(st0) && st0.skipBytes == 0 && Cached(st0) == [] && Content(st0) == s
    requires st0.original.handle.value.data == s && !st0.original.handle.value.atEof
    requires st0.original.handle.value.sized && -|s| < offset <= 0
    ensures (st1, Ok(())) == st0.Seek(offset, SEEK_END)
    ensures Coherent(st1) && st1.skipBytes == 0 && Content(st1) == s &&
            Cursor(st1) == |s| + offset && st1.original.Tell() == Ok(|s| + offset) &&
            st1.original.handle.value.sized
  {
    SeekTargetResolves(st0, offset, SEEK_END);
    SeekViaTarget(st0, offset, SEEK_END);
    SeekBeyondCache(st0.SeekTargetOf(offset, SEEK_END).0, |s| + offset);
    st1 := st0.Seek(offset, SEEK_END).0;
  }

  /** After that seek, `read(1)` yields the byte there, if any, and the
      size is the length of `s`. */
  lemma SeekFromEndThenRead(s: Bytes, offset: int)
    requires -|s| < offset <= 0
    ensures Wrap(Utils.FromString(s)).Seek(offset, SEEK_END).1 == Ok(())
    ensures Wrap(Utils.FromString(s)).Seek(offset, SEEK_END).0.original.Tell() == Ok(|s| + offset)
    ensures Wrap(Utils.FromString(s)).Seek(offset, SEEK_END).0.Read(1).1 ==
              Ok(s[|s| + offset..Min(|s| + offset + 1, |s|)])
    ensures Wrap(Utils.FromString(s)).Seek(offset, SEEK_END).0.Read(1).0.GetSize().1 == Some(|s|)
  {
    var st1 := SeekFromEndOver(s, offset);
    ReadServes(st1, 1);
    GetSizeIsLength(st1.Read(1).0);
  }

  /** `seek(-1, SEEK_END)` over the alphabet reads the original up to 25;
      the next byte is 'z' and the size is 26
      (tests/CachingStreamTest.php:29-37). */
  lemma SeekNearEnd()
    ensures var st0 := Wrap(Utils.FromString(Buffered.Alphabet()));
            var (st1, r) := st0.Seek(-1, SEEK_END);
            var (st2, z) := st1.Read(1);
            r == Ok(()) && st1.original.Tell() == Ok(25) && z == Ok(['z' as int as Byte]) &&
            st2.GetSize().1 == Some(26)
  {
    var a := Buffered.Alphabet();
    SeekFromEndThenRead(a, -1);
    assert a[25..26] == [a[25]] && a[25] == 122 as Byte;
  }

  /** `seek(0, SEEK_END)` over the alphabet reads the whole original; a
      read there yields nothing and the size is 26
      (tests/CachingStreamTest.php:39-47). */
  lemma SeekToEnd()
    ensures var st0 := Wrap(Utils.FromString(Buffered.Alphabet()));
            var (st1, r) := st0.Seek(0, SEEK_END);
            var (st2, empty) := st1.Read(1);
            r == Ok(()) && st1.original.Tell() == Ok(26) && empty == Ok([]) &&
            st2.GetSize().1 == Some(26)
  {
    SeekFromEndThenRead(Buffered.Alphabet(), 0);
  }

  /** Over "1234567", `write("abc")` and then two `read(2)`: as written the
      second read returns "7", one byte, because the first left one byte
      to skip that the original had already given up; the corrected
      `read` returns "67". */
  lemma ReadAfterWriteDropsByte(s: Bytes, w: Bytes)
    requires |s| == 7 && |w| == 3
    ensures var st1 := Wrap(Utils.FromString(s)).Write(w).0;
            var (st2, r1) := st1.Read(2);
            var (st3, r2) := st2.Read(2);
            r1 == Ok(s[3..5]) && st2.skipBytes == 1 && r2 == Ok([s[6]])
    ensures var c1 := Wrap(Utils.FromString(s)).WriteCorrected(w).0;
            var (c2, r1) := c1.ReadCorrected(2);
            var (c3, r2) := c2.ReadCorrected(2);
            r1 == Ok(s[3..5]) && c2.skipBytes == 0 && r2 == Ok(s[5..7])
  {
    var st1 := WrittenFresh(s, w);
    OverlayBeyond(s, w, 3, 5);
    ReadCorrectedServes(st1, 2);
    ReadsAfterWrite(s, w, st1);
    ReadsCorrectedAfterWrite(s, w, st1);
  }

  lemma ReadsAfterWrite(s: Bytes, w: Bytes, st1: CachingState)
    requires |s| == 7 && |w| == 3
    requires Coherent(st1) && Cursor(st1) == 3 && Cached(st1) == w && st1.skipBytes == 3
    requires st1.original.handle.value.pos == 0 && st1.original.handle.value.data == s
    requires st1.ReadCorrected(2).1 == Ok(s[3..5])
    requires Cursor(st1.ReadCorrected(2).0) == 5 && |Cached(st1.ReadCorrected(2).0)| == 5
    ensures var (st2, r1) := st1.Read(2);
            r1 == Ok(s[3..5]) && st2.skipBytes == 1 && st2.Read(2).1 == Ok([s[6]])
  {
    ReadDiffersOnlyInSkip(st1, 2);
    var st2 := st1.Read(2).0;
    assert st2.original.handle.value.pos == 5 && st2.original.handle.value.data == s;
    ReadAtCacheEnd(st2, 2);
    assert s[5..7][1..] == [s[6]];
  }

  lemma ReadsCorrectedAfterWrite(s: Bytes, w: Bytes, st1: CachingState)
    requires |s| == 7 && |w| == 3
    requires Coherent(st1) && Content(st1) == Overwrite(s, 0, w)
    requires st1.ReadCorrected(2).1 == Ok(s[3..5])
    requires Coherent(st1.ReadCorrected(2).0) && Cursor(st1.ReadCorrected(2).0) == 5
    requires Content(st1.ReadCorrected(2).0) == Content(st1)
    requires st1.ReadCorrected(2).0.skipBytes == 0
    ensures st1.ReadCorrected(2).0.ReadCorrected(2).1 == Ok(s[5..7])
  {
    OverlayBeyond(s, w, 5, 7);
    ReadCorrectedServes(st1.ReadCorrected(2).0, 2);
  }

  /** Over "12345", `write("ab")` then `write("cd")`: as written the second
      write counts the two bytes already shadowed again, leaving 6 to skip
      where 4 are meant, and a `read(1)` then drops the '5' that follows. */
  lemma SecondWriteSkipsTooMuch(s: Bytes, a: Bytes, b: Bytes)
    requires |s| == 5 && |a| == 2 && |b| == 2
    ensures var st2 := Wrap(Utils.FromString(s)).Write(a).0.Write(b).0;
            st2.skipBytes == 6 && st2.Read(1).1 == Ok([])
  {
    var st1 := WrittenFresh(s, a);
    var st2 := st1.Write(b).0;
    OverwriteAtEnd(a, b);
    assert Cached(st2) == a + b && Cursor(st2) == 4;
    ReadAtCacheEnd(st2, 1);
  }

  /** The state after a first write into a fresh caching stream over
      `Stream::from($s)`: the buffer holds the bytes written, all of them
      still to be skipped in the original, and both versions of `write`
      agree. */
  lemma WrittenFresh(s: Bytes, a: Bytes) returns (st1: CachingState)
    ensures st1 == Wrap(Utils.FromString(s)).Write(a).0
    ensures st1 == Wrap(Utils.FromString(s)).WriteCorrected(a).0
    ensures Coherent(st1) && Cursor(st1) == |a| && Cached(st1) == a && st1.skipBytes == |a|
    ensures st1.original.handle.value.pos == 0 && st1.original.handle.value.data == s
    ensures Content(st1) == Overwrite(s, 0, a)
  {
    var st0 := Wrap(Utils.FromString(s));
    OverString(s);
    WriteAgreesWithoutSkip(st0, a);
    WriteCorrectedOverlays(st0, a);
    st1 := st0.Write(a).0;
    OverwriteAtEnd([], a);
    assert [] + a == a;
  }

  /** The corrected `write` leaves 4 to skip after the same two writes and
      the next `read(1)` returns "5". */
  lemma SecondWriteCorrectedSkipsShadowed(s: Bytes, a: Bytes, b: Bytes)
    requires |s| == 5 && |a| == 2 && |b| == 2
    ensures var c2 := Wrap(Utils.FromString(s)).WriteCorrected(a).0.WriteCorrected(b).0;
            c2.skipBytes == 4 && c2.ReadCorrected(1).1 == Ok([s[4]])
  {
    var st1 := WrittenFresh(s, a);
    WriteCorrectedOverlays(st1, b);
    var c2 := st1.WriteCorrected(b).0;
    OverlayLayers(s, a, 2, b);
    OverwriteAtEnd(a, b);
    OverlayBeyond(s, a + b, 4, 5);
    ReadCorrectedServes(c2, 1);
    assert s[4..5] == [s[4]];
  }

  /** Over any non-empty string, `__toString()` of a fresh caching stream
      is empty as written, and the whole string when corrected. */
  lemma ToStringMissesUnreadBytes(s: Bytes)
    requires |s| > 0
    ensures Wrap(Utils.FromString(s)).ToString().1 == Ok([])
    ensures Wrap(Utils.FromString(s)).ToStringCorrected().1 == Ok(s)
  {
    OverString(s);
    ToStringShowsOnlyCache(Wrap(Utils.FromString(s)));
    ToStringCorrectedIsContent(Wrap(Utils.FromString(s)));
  }

  /** A `CachingStream` object. */
  class CachingStream {
    const original: Stream
    const stream: Stream
    var skipBytes: int

    function State(): CachingState
      reads this, original, stream
    {
      CachingState(original.State(), stream.State(), skipBytes)
    }

    ghost predicate Valid()
      reads this, original, stream
    {
      original != stream && State().Valid()
    }

    constructor (original: Stream)
      requires original.Valid()
      ensures Valid() && fresh(stream) && this.original == original
      ensures State() == Wrap(original.State())
    {
      this.original := original;
      stream := new Stream.Temp("rb+");
      skipBytes := 0;
      Modes.ReadWriteBinary();
    }

    method GetSize() returns (r: Option<int>)
      requires Valid()
      modifies original, stream
      ensures Valid() && (State(), r) == old(State()).GetSize()
    {
      var originalSize := original.GetSize();
      if originalSize.None? {
        return None;
      }
      var size := stream.GetSize();
      r := PhpMax(size, originalSize.value);
    }

    method Read(length: int) returns (r: Result<Bytes>)
      requires Valid()
      modifies this, original, stream
      ensures Valid() && (State(), r) == old(State()).Read(length)
    {
      var data := stream.Read(length);
      if data.Err? {
        return Err(data.error);
      }
      var remaining := length - |data.value|;
      if remaining > 0 {
        var originalData := original.Read(remaining + skipBytes);
        if originalData.Err? {
          return Err(originalData.error);
        }
        var kept := originalData.value;
        if skipBytes > 0 {
          kept := Substr(kept, skipBytes);
          skipBytes := Max(0, skipBytes - |kept|);
        }
        var _ := stream.Write(kept);
        return Ok(data.value + kept);
      }
      r := Ok(data.value);
    }

    method Write(s: Bytes) returns (r: Result<int>)
      requires Valid()
      modifies this, stream
      ensures Valid() && (State(), r) == old(State()).Write(s)
    {
      var tell := stream.Tell();
      if tell.Err? {
        return Err(tell.error);
      }
      var originalTell := original.Tell();
      if originalTell.Err? {
        return Err(originalTell.error);
      }
      var overflow := |s| + tell.value - originalTell.value;
      if overflow > 0 {
        skipBytes := skipBytes + overflow;
      }
      r := stream.Write(s);
    }

    method SeekTargetOf(offset: int, whence: int) returns (r: Result<int>)
      requires Valid()
      modifies original, stream
      ensures Valid() && (State(), r) == old(State()).SeekTargetOf(offset, whence)
    {
      if whence == SEEK_SET {
        r := Ok(offset);
      } else if whence == SEEK_CUR {
        var tell := stream.Tell();
        if tell.Err? {
          return Err(tell.error);
        }
        r := Ok(offset + tell.value);
      } else if whence == SEEK_END {
        var size := original.GetSize();
        if size.None? {
          var copied := stream.Copy(original);
          if copied.Err? {
            return Err(copied.error);
          }
          r := Ok(offset + copied.value);
        } else {
          r := Ok(offset + size.value);
        }
      } else {
        r := Err(InvalidArgument(INVALID_WHENCE));
      }
    }

    method SeekLoop(target: int, diff0: int) returns (r: Result<()>)
      requires Valid()
      modifies this, original, stream
      ensures Valid() && (State(), r) == old(State()).SeekLoop(target, diff0)
    {
      var diff := diff0;
      while diff > 0
        invariant Valid()
        invariant old(State()).SeekLoop(target, diff0) == State().SeekLoop(target, diff)
        decreases Left(State().original), Live(State().original), Left(State().stream), Live(State().stream)
      {
        var eof := original.Eof();
        if eof.Err? {
          assert State().SeekLoop(target, diff) == (State(), Err(eof.error));
          return Err(eof.error);
        }
        if eof.value {
          assert State().SeekLoop(target, diff) == (State(), Ok(()));
          break;
        }
        ghost var before := State();
        ghost var d := diff;
        var rd := Read(diff);
        if rd.Err? {
          assert before.SeekLoop(target, d) == (State(), Err(rd.error));
          return Err(rd.error);
        }
        ReadMakesProgress(before, d);
        ghost var mid := State();
        assert (mid, rd) == before.Read(d);
        var size := stream.GetSize();
        assert State() == mid.(stream := mid.stream.GetSize().0) && size == mid.stream.GetSize().1;
        assert State().stream.handle == mid.stream.handle;
        diff := target - size.GetOr(0);
        SeekLoopStep(before, target, d, State(), diff);
      }
      assert diff <= 0 ==> State().SeekLoop(target, diff) == (State(), Ok(()));
      r := Ok(());
    }

    method Seek(offset: int, whence: int) returns (r: Result<()>)
      requires Valid()
      modifies this, original, stream
      ensures Valid() && (State(), r) == old(State()).Seek(offset, whence)
    {
      var target := SeekTargetOf(offset, whence);
      if target.Err? {
        return Err(target.error);
      }
      ghost var st := State();
      var size := stream.GetSize();
      ghost var st1 := State();
      assert st1 == st.(stream := st.stream.GetSize().0) && size == st.stream.GetSize().1;
      var diff := target.value - size.GetOr(0);
      if diff > 0 {
        r := SeekLoop(target.value, diff);
        assert (State(), r) == st1.SeekLoop(target.value, diff);
      } else {
        r := stream.Seek(target.value, SEEK_SET);
        assert (State(), r) == (st1.(stream := st1.stream.Seek(target.value, SEEK_SET).0),
                                st1.stream.Seek(target.value, SEEK_SET).1);
      }
    }

    method Eof() returns (r: Result<bool>)
      ensures r == State().Eof()
    {
      var streamEof := stream.Eof();
      if streamEof.Err? {
        return Err(streamEof.error);
      }
      if !streamEof.value {
        return Ok(false);
      }
      r := original.Eof();
    }

    method GetContents() returns (r: Result<Bytes>)
      requires Valid()
      modifies this, original, stream
      ensures Valid() && (State(), r) == old(State()).GetContents()
    {
      var contents: Bytes := [];
      while true
        invariant Valid()
        invariant old(State()).GetContents() == (State().GetContents().0, Prepend(contents, State().GetContents().1))
        decreases Left(State().original), Live(State().original), Left(State().stream), Live(State().stream)
      {
        var eof := Eof();
        if eof.Err? {
          return Err(eof.error);
        }
        if eof.value {
          assert State().GetContents() == (State(), Ok([]));
          assert contents + [] == contents;
          return Ok(contents);
        }
        ghost var before := State();
        var chunk := Read(CHUNK);
        if chunk.Err? {
          return Err(chunk.error);
        }
        ReadMakesProgress(before, CHUNK);
        assert before.GetContents() == (State().GetContents().0, Prepend(chunk.value, State().GetContents().1));
        PrependTwice(contents, chunk.value, State().GetContents().1);
        contents := contents + chunk.value;
      }
    }

    method Close()
      requires Valid()
      modifies original, stream
      ensures Valid() && State() == old(State()).Close()
    {
      original.Close();
      stream.Close();
    }

    method Tell() returns (r: Result<int>)
      ensures r == State().Tell()
    {
      r := stream.Tell();
    }

    method IsReadable() returns (r: bool)
      ensures r == State().IsReadable()
    {
      r := stream.IsReadable();
    }

    method IsWritable() returns (r: bool)
      ensures r == State().IsWritable()
    {
      r := stream.IsWritable();
    }

    method IsSeekable() returns (r: bool)
      ensures r == State().IsSeekable()
    {
      r := stream.IsSeekable();
    }

    method Rewind() returns (r: Result<()>)
      requires Valid()
      modifies stream
      ensures Valid() && (State(), r) == old(State()).Rewind()
    {
      r := stream.Rewind();
    }

    method Detach() returns (r: Option<Handle>)
      requires Valid()
      modifies stream
      ensures Valid() && (State(), r) == old(State()).Detach()
    {
      r := stream.Detach();
    }

    method Copy(source: Stream) returns (r: Result<int>)
      requires Valid() && source.Valid() && source != stream
      modifies stream, source
      ensures Valid() && source.Valid()
      ensures var (st, s, n) := old(State()).Copy(old(source.State()));
              stream.State() == st.stream && source.State() == s && r == n
      ensures skipBytes == old(skipBytes)
    {
      r := stream.Copy(source);
    }

    method ToString() returns (r: Result<Bytes>)
      requires Valid()
      modifies stream
      ensures Valid() && (State(), r) == old(State()).ToString()
    {
      ghost var before := stream.State();
      r := stream.ToString();
      assert (stream.State(), r) == before.GetContents();
    }
  }
}
