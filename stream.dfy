/** `Stream` (src/Stream.php): a PHP resource plus a cached size and three
    capability flags. `StreamState` is the value of its fields and each of
    its functions specifies one method of the class `Stream` below. */
module Streams {
  import opened Results
  import opened Handles
  import Modes

  /** The fields of a `Stream` object: the handle (None once detached or
      closed), the cached size and the capability flags. */
  datatype StreamState = StreamState(handle: Option<Handle>, size: Option<int>,
                                     seekable: bool, readable: bool, writable: bool)
  {
    /** An open handle is consistent and its seekability is the one the
        constructor read off it; a detached stream has neither flags nor a
        cached size. (The readable and writable flags are fixed by the
        constructor from the handle's mode, see `Open`.) */
    predicate Valid() {
      match handle
      case None => size.None? && !seekable && !readable && !writable
      case Some(h) => h.Valid() && seekable == h.seekable
    }

    predicate Attached() { handle.Some? }

    /** `new Stream($resource, $size)` (src/Stream.php:30-42). */
    static function Open(h: Handle, size: Option<int>): (s: StreamState)
      requires h.Valid()
      ensures s.Valid() && s.handle == Some(h) && s.size == size
      ensures s.readable == Modes.IsReadable(h.mode) && s.writable == Modes.IsWritable(h.mode)
      ensures s.seekable == h.seekable
    {
      StreamState(Some(h), size, h.seekable, Modes.IsReadable(h.mode), Modes.IsWritable(h.mode))
    }

    /** `Stream::temp($mode)`: a fresh, empty `php://temp` stream. */
    static function Temp(mode: string): (s: StreamState)
      ensures s.Valid() && s.handle == Some(Handle([], 0, false, mode, true, true))
      ensures s.size.None? && s.seekable
    {
      Open(Handle([], 0, false, mode, true, true), None)
    }

    /** `getHandle()` (src/Stream.php:112-119). */
    function GetHandle(): (r: Result<Handle>)
      ensures r.Ok? <==> Attached()
      ensures r.Err? ==> r.error == StreamError(DETACHED)
      ensures r.Ok? ==> r.value == handle.value
    {
      if handle.None? then Err(StreamError(DETACHED)) else Ok(handle.value)
    }

    /** `tell()` (src/Stream.php:172-181). */
    function Tell(): Result<int> {
      match GetHandle()
      case Err(e) => Err(e)
      case Ok(h) => Ok(h.pos)
    }

    /** `eof()` (src/Stream.php:167-170): the handle's end-of-file flag. */
    function Eof(): Result<bool> {
      match GetHandle()
      case Err(e) => Err(e)
      case Ok(h) => Ok(h.atEof)
    }

    /** `read($length)` (src/Stream.php:191-214). */
    function Read(length: int): (r: (StreamState, Result<Bytes>))
      requires Valid()
      ensures r.0.Valid()
      ensures length < 0 ==> r == (this, Err(StreamError(NEGATIVE_LENGTH)))
      ensures length >= 0 && !Attached() ==> r == (this, Err(StreamError(DETACHED)))
      ensures length >= 0 && Attached() && !readable ==> r == (this, Err(StreamError(NOT_READABLE)))
      ensures length == 0 && Attached() && readable ==> r == (this, Ok([]))
      ensures r.1.Err? ==> r.0 == this
      ensures r.1.Ok? ==>
                Attached() && readable && length >= 0 &&
                var h := handle.value;
                var end := Min(h.pos + length, |h.data|);
                r.1.value == h.data[h.pos..end] &&
                r.0 == this.(handle := Some(h.(pos := end, atEof := h.atEof || (length > 0 && h.pos + length > |h.data|))))
    {
      if length < 0 then (this, Err(StreamError(NEGATIVE_LENGTH)))
      else match GetHandle()
        case Err(e) => (this, Err(e))
        case Ok(h) =>
          if !readable then (this, Err(StreamError(NOT_READABLE)))
          else if length == 0 then (this, Ok([]))
          else var (h', bytes) := h.Read(length); (this.(handle := Some(h')), Ok(bytes))
    }

    /** `write($string)` (src/Stream.php:219-236): forgets the cached size
        before writing at the cursor. */
    function Write(s: Bytes): (r: (StreamState, Result<int>))
      requires Valid()
      ensures r.0.Valid()
      ensures !Attached() ==> r == (this, Err(StreamError(DETACHED)))
      ensures Attached() && !writable ==> r == (this, Err(StreamError(NOT_WRITABLE)))
      ensures r.1.Err? ==> r.0 == this
      ensures Attached() && writable ==>
                r.1 == Ok(|s|) && r.0 == this.(size := None, handle := Some(handle.value.Write(s).0))
    {
      match GetHandle()
      case Err(e) => (this, Err(e))
      case Ok(h) =>
        if !writable then (this, Err(StreamError(NOT_WRITABLE)))
        else var (h', n) := h.Write(s); (this.(size := None, handle := Some(h')), Ok(n))
    }

    /** `seek($offset, $whence)` (src/Stream.php:96-107): the detached check
        comes before the seekable check. */
    function Seek(offset: int, whence: int): (r: (StreamState, Result<()>))
      requires Valid()
      ensures r.0.Valid()
      ensures !Attached() ==> r == (this, Err(StreamError(DETACHED)))
      ensures Attached() && !seekable ==> r == (this, Err(StreamError(NOT_SEEKABLE)))
      ensures r.1.Err? ==> r.0 == this
      ensures Attached() && seekable && handle.value.Seek(offset, whence).None? ==>
                r.1 == Err(SeekFailed(offset, whence))
      ensures r.1.Ok? ==> Attached() && r.0 == this.(handle := handle.value.Seek(offset, whence))
    {
      match GetHandle()
      case Err(e) => (this, Err(e))
      case Ok(h) =>
        if !seekable then (this, Err(StreamError(NOT_SEEKABLE)))
        else match h.Seek(offset, whence)
          case None => (this, Err(SeekFailed(offset, whence)))
          case Some(h') => (this.(handle := Some(h')), Ok(()))
    }

    /** `rewind()` (src/Stream.php:183-186). */
    function Rewind(): (r: (StreamState, Result<()>))
      requires Valid()
      ensures r.0.Valid()
    {
      Seek(0, SEEK_SET)
    }

    /** `getSize()` (src/Stream.php:136-155): the cached size if there is
        one, else the size `fstat` reports, which is then cached. */
    function GetSize(): (r: (StreamState, Option<int>))
      requires Valid()
      ensures r.0.Valid() && r.0 == this.(size := r.0.size)
      ensures size.Some? ==> r == (this, size)
      ensures !Attached() ==> r == (this, None)
      ensures size.None? && Attached() ==> r.1 == handle.value.Size() && r.0.size == r.1
    {
      if size.Some? then (this, size)
      else if handle.None? then (this, None)
      else match handle.value.Size()
        case Some(n) => (this.(size := Some(n)), Some(n))
        case None => (this, None)
    }

    /** `detach()` (src/Stream.php:73-85): hands the handle over once and
        clears the size and every flag. */
    function Detach(): (r: (StreamState, Option<Handle>))
      requires Valid()
      ensures r.0 == StreamState(None, None, false, false, false) && r.1 == handle
    {
      if handle.None? then (this, None)
      else (StreamState(None, None, false, false, false), handle)
    }

    /** `close()` (src/Stream.php:59-68): closes the resource and detaches. */
    function Close(): (r: StreamState)
      requires Valid()
      ensures r == StreamState(None, None, false, false, false)
    {
      if handle.Some? then Detach().0 else this
    }

    /** `getContents()` (src/Stream.php:121-134): a seekable stream is
        rewound first, then everything from the cursor is drained. */
    function GetContents(): (r: (StreamState, Result<Bytes>))
      requires Valid()
      ensures r.0.Valid()
      ensures !Attached() ==> r == (this, Err(StreamError(DETACHED)))
      ensures Attached() ==> r.1.Ok? && r.0.handle.Some? && r.0 == this.(handle := Some(r.0.handle.value)) &&
                             r.0.handle.value.data == handle.value.data &&
                             r.0.handle.value.pos == |handle.value.data| && r.0.handle.value.atEof &&
                             r.1.value == if seekable then handle.value.data
                                          else handle.value.data[handle.value.pos..]
    {
      if !Attached() then (this, Err(StreamError(DETACHED)))
      else
        var s1 := if seekable then Rewind().0 else this;
        var (h', bytes) := s1.handle.value.Drain();
        (s1.(handle := Some(h')), Ok(bytes))
    }

    /** `copy($source)` (src/Stream.php:238-268), with `this` the target:
        source readability is checked before target writability; a
        seekable source is rewound first and put back where it was. */
    function Copy(source: StreamState): (r: (StreamState, StreamState, Result<int>))
      requires Valid() && source.Valid()
      ensures r.0.Valid() && r.1.Valid()
      ensures !source.readable ==> r == (this, source, Err(StreamError(SOURCE_NOT_READABLE)))
      ensures source.readable && !writable ==> r == (this, source, Err(StreamError(TARGET_NOT_WRITABLE)))
      ensures source.readable && writable ==>
                var src := source.handle.value;
                var copied := if source.seekable then src.data else src.data[src.pos..];
                r.2 == Ok(|copied|) &&
                r.0 == this.(size := None, handle := Some(handle.value.Write(copied).0)) &&
                r.1 == source.(handle := Some(src.(pos := if source.seekable then src.pos else |src.data|,
                                                    atEof := !source.seekable)))
    {
      if !source.readable then (this, source, Err(StreamError(SOURCE_NOT_READABLE)))
      else if !writable then (this, source, Err(StreamError(TARGET_NOT_WRITABLE)))
      else
        var seekable := source.seekable;
        var sourcePos := source.handle.value.pos;
        var src1 := if seekable then source.Rewind().0 else source;
        var target := this.(size := None);
        var (srcH, dstH, bytes) := CopyToStream(src1.handle.value, target.handle.value);
        var src2 := src1.(handle := Some(srcH));
        var src3 := if seekable then src2.Seek(sourcePos, SEEK_SET).0 else src2;
        (target.(handle := Some(dstH)), src3, Ok(bytes))
    }
  }

  /** A `Stream` object. Its methods follow src/Stream.php statement by
      statement, calling the runtime functions of `Handles`; each is proved
      to do what the `StreamState` function of the same name specifies. */
  class Stream {
    var handle: Option<Handle>
    var size: Option<int>
    var seekable: bool
    var readable: bool
    var writable: bool

    function State(): StreamState
      reads this
    {
      StreamState(handle, size, seekable, readable, writable)
    }

    ghost predicate Valid()
      reads this
    {
      State().Valid()
    }

    constructor (h: Handle, size: Option<int>)
      requires h.Valid()
      ensures State() == StreamState.Open(h, size)
    {
      this.size := size;
      handle := Some(h);
      seekable := h.seekable;
      readable := Modes.IsReadable(h.mode);
      writable := Modes.IsWritable(h.mode);
    }

    /** `Stream::temp($mode)`. */
    constructor Temp(mode: string)
      ensures State() == StreamState.Temp(mode)
    {
      var h := Handle([], 0, false, mode, true, true);
      size := None;
      handle := Some(h);
      seekable := h.seekable;
      readable := Modes.IsReadable(h.mode);
      writable := Modes.IsWritable(h.mode);
    }

    method IsSeekable() returns (r: bool)
      ensures r == State().seekable
    {
      r := seekable;
    }

    method IsReadable() returns (r: bool)
      ensures r == State().readable
    {
      r := readable;
    }

    method IsWritable() returns (r: bool)
      ensures r == State().writable
    {
      r := writable;
    }

    method GetHandle() returns (r: Result<Handle>)
      ensures r == State().GetHandle()
    {
      if handle.None? {
        return Err(StreamError(DETACHED));
      }
      r := Ok(handle.value);
    }

    method Tell() returns (r: Result<int>)
      ensures r == State().Tell()
    {
      var h := GetHandle();
      if h.Err? {
        return Err(h.error);
      }
      r := Ok(h.value.pos);
    }

    method Eof() returns (r: Result<bool>)
      ensures r == State().Eof()
    {
      var h := GetHandle();
      if h.Err? {
        return Err(h.error);
      }
      r := Ok(h.value.atEof);
    }

    method Read(length: int) returns (r: Result<Bytes>)
      requires Valid()
      modifies this
      ensures Valid() && (State(), r) == old(State()).Read(length)
    {
      if length < 0 {
        return Err(StreamError(NEGATIVE_LENGTH));
      }
      var h := GetHandle();
      if h.Err? {
        return Err(h.error);
      }
      if !readable {
        return Err(StreamError(NOT_READABLE));
      }
      if length == 0 {
        return Ok([]);
      }
      var (h', bytes) := h.value.Read(length);
      handle := Some(h');
      r := Ok(bytes);
    }

    method Write(s: Bytes) returns (r: Result<int>)
      requires Valid()
      modifies this
      ensures Valid() && (State(), r) == old(State()).Write(s)
    {
      var h := GetHandle();
      if h.Err? {
        return Err(h.error);
      }
      if !writable {
        return Err(StreamError(NOT_WRITABLE));
      }
      size := None;
      var (h', n) := h.value.Write(s);
      handle := Some(h');
      r := Ok(n);
    }

    method Seek(offset: int, whence: int) returns (r: Result<()>)
      requires Valid()
      modifies this
      ensures Valid() && (State(), r) == old(State()).Seek(offset, whence)
    {
      var h := GetHandle();
      if h.Err? {
        return Err(h.error);
      }
      var canSeek := IsSeekable();
      if !canSeek {
        return Err(StreamError(NOT_SEEKABLE));
      }
      var moved := h.value.Seek(offset, whence);
      if moved.None? {
        return Err(SeekFailed(offset, whence));
      }
      handle := moved;
      r := Ok(());
    }

    method Rewind() returns (r: Result<()>)
      requires Valid()
      modifies this
      ensures Valid() && (State(), r) == old(State()).Rewind()
    {
      r := Seek(0, SEEK_SET);
    }

    method GetSize() returns (r: Option<int>)
      requires Valid()
      modifies this
      ensures Valid() && (State(), r) == old(State()).GetSize()
    {
      if size.Some? {
        return size;
      }
      if handle.None? {
        return None;
      }
      var stats := handle.value.Size();
      if stats.Some? {
        size := stats;
        return size;
      }
      r := None;
    }

    method Detach() returns (r: Option<Handle>)
      requires Valid()
      modifies this
      ensures Valid() && (State(), r) == old(State()).Detach()
    {
      if handle.None? {
        return None;
      }
      r := handle;
      handle := None;
      size := None;
      readable, writable, seekable := false, false, false;
    }

    method Close()
      requires Valid()
      modifies this
      ensures Valid() && State() == old(State()).Close()
    {
      if handle.Some? {
        var _ := Detach();
      }
    }

    method GetContents() returns (r: Result<Bytes>)
      requires Valid()
      modifies this
      ensures Valid() && (State(), r) == old(State()).GetContents()
    {
      var canSeek := IsSeekable();
      if canSeek {
        var _ := Rewind();
      }
      var h := GetHandle();
      if h.Err? {
        return Err(h.error);
      }
      var (h', contents) := h.value.Drain();
      handle := Some(h');
      r := Ok(contents);
    }

    /** `__toString()` (src/Stream.php:278-281). */
    method ToString() returns (r: Result<Bytes>)
      requires Valid()
      modifies this
      ensures Valid() && (State(), r) == old(State()).GetContents()
    {
      r := GetContents();
    }

    method Copy(source: Stream) returns (r: Result<int>)
      requires Valid() && source.Valid() && source != this
      modifies this, source
      ensures Valid() && source.Valid()
      ensures (State(), source.State(), r) == old(State()).Copy(old(source.State()))
    {
      var sourceReadable := source.IsReadable();
      if !sourceReadable {
        return Err(StreamError(SOURCE_NOT_READABLE));
      }
      if !writable {
        return Err(StreamError(TARGET_NOT_WRITABLE));
      }
      var sourceSeekable := source.IsSeekable();
      var sourcePos := source.Tell();
      if sourceSeekable {
        var _ := source.Rewind();
      }
      size := None;
      var from := source.GetHandle();
      var to := GetHandle();
      var (srcH, dstH, bytes) := CopyToStream(from.value, to.value);
      source.handle := Some(srcH);
      handle := Some(dstH);
      if sourceSeekable {
        var _ := source.Seek(sourcePos.value, SEEK_SET);
      }
      r := Ok(bytes);
    }
  }

  /** What `write` put down, a `seek` back to where it began and a `read`
      of the same length return. */
  lemma WriteThenReadBack(st: StreamState, s: Bytes)
    requires st.Valid() && st.Attached() && st.readable && st.writable && st.seekable
    ensures var start := st.handle.value.pos;
            var written := st.Write(s).0;
            var back := written.Seek(start, SEEK_SET);
            back.1.Ok? && back.0.Read(|s|).1 == Ok(s)
  {
    var h := st.handle.value;
    var written := st.Write(s).0;
    var back := written.Seek(h.pos, SEEK_SET).0;
    assert back.handle.value.data == Overwrite(h.data, h.pos, s);
    OverwriteReadsBack(h.data, h.pos, s);
  }

  /** Reading `m` and then `n` bytes yields what one read of `m + n`
      bytes yields, and leaves the cursor in the same place. */
  lemma ReadSplits(st: StreamState, m: nat, n: nat)
    requires st.Valid() && st.Attached() && st.readable
    ensures var (s1, a) := st.Read(m);
            var (s2, b) := s1.Read(n);
            var (s3, c) := st.Read(m + n);
            a.Ok? && b.Ok? && c.Ok? && a.value + b.value == c.value &&
            s2.handle.value.pos == s3.handle.value.pos
  {
    var h := st.handle.value;
    var r1 := st.Read(m);
    var r2 := r1.0.Read(n);
    var p1 := r1.0.handle.value.pos;
    var p2 := r2.0.handle.value.pos;
    assert p1 == Min(h.pos + m, |h.data|) && r1.1 == Ok(h.data[h.pos..p1]);
    assert p2 == Min(h.pos + m + n, |h.data|) && r2.1 == Ok(h.data[p1..p2]);
    SliceJoin(h.data, h.pos, p1, p2);
  }

  /** A write forgets the cached size, so the next `getSize` reports the
      grown size of a handle whose size `fstat` knows. */
  lemma SizeFollowsWrites(st: StreamState, s: Bytes)
    requires st.Valid() && st.Attached() && st.writable && st.handle.value.sized
    ensures var h := st.handle.value;
            var (w, r) := st.Write(s);
            r == Ok(|s|) && w.GetSize().1 == Some(Max(|h.data|, h.pos + |s|)) &&
            w.GetSize().0.GetSize().1 == w.GetSize().1
  {
  }

  /** The size test: three bytes written into a `w+` handle before
      wrapping, then four more through the stream. */
  lemma SizeOfFooThenTest()
    ensures var foo: Bytes := [102, 111, 111];
            var test: Bytes := [116, 101, 115, 116];
            var st := StreamState.Open(Handle(foo, 3, false, "w+", true, true), None);
            var (st1, size1) := st.GetSize();
            var (st2, n) := st1.Write(test);
            size1 == Some(3) && n == Ok(4) && st2.GetSize().1 == Some(7)
  {
    Modes.UpdateModes("w+");
  }

  /** End of file is only signalled once a read has tried to go past the
      last byte; a cursor at the end is not yet at eof. */
  lemma EofNeedsReadPastEnd(st: StreamState)
    requires st.Valid() && st.Attached() && st.readable
    requires st.handle.value.pos == |st.handle.value.data| && !st.handle.value.atEof
    ensures st.Eof() == Ok(false)
    ensures var (st1, r) := st.Read(1); r == Ok([]) && st1.Eof() == Ok(true)
  {
  }

  /** `seek` with SEEK_SET succeeds exactly for offsets within the data,
      after which `tell` reports the offset; otherwise nothing moves. */
  lemma SeekThenTell(st: StreamState, offset: int)
    requires st.Valid() && st.Attached() && st.seekable
    ensures var (st1, r) := st.Seek(offset, SEEK_SET);
            (r.Ok? <==> 0 <= offset <= |st.handle.value.data|) &&
            (r.Ok? ==> st1.Tell() == Ok(offset) && st1.Eof() == Ok(false)) &&
            (r.Err? ==> st1 == st && r.error == SeekFailed(offset, SEEK_SET))
  {
  }

  /** After `detach` or `close` every operation that needs the handle
      fails with "Stream is detached", the size is unknown and a second
      `detach` hands back nothing. */
  lemma DetachedStreamRefusesEverything(st: StreamState, length: nat, s: Bytes, offset: int, whence: int)
    requires st.Valid()
    ensures var d := st.Detach().0;
            d == st.Close() && d.Detach().1.None? && !d.readable && !d.writable && !d.seekable &&
            d.Read(length).1 == Err(StreamError(DETACHED)) &&
            d.Write(s).1 == Err(StreamError(DETACHED)) &&
            d.Seek(offset, whence).1 == Err(StreamError(DETACHED)) &&
            d.Tell() == Err(StreamError(DETACHED)) && d.Eof() == Err(StreamError(DETACHED)) &&
            d.GetContents().1 == Err(StreamError(DETACHED)) && d.GetSize().1.None?
  {
  }

  /** `getContents` of a seekable stream always starts over, so asking
      twice yields the same bytes. */
  lemma GetContentsTwice(st: StreamState)
    requires st.Valid() && st.Attached() && st.seekable
    ensures st.GetContents().0.GetContents().1 == st.GetContents().1 == Ok(st.handle.value.data)
  {
    var st1 := st.GetContents().0;
    assert st1.Valid() && st1.Attached() && st1.seekable;
    assert st1.handle.value.data == st.handle.value.data;
  }
}
