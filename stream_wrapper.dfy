/** `StreamWrapper`: the PHP stream wrapper that lets a library stream be
    opened as a native resource under the `digitalcz-streams://` scheme. The
    model keeps the choice of the `fopen` mode in `from`, the check
    `stream_open` makes of the stream context, and the stat tables. */
module Wrapper {
  import opened Results
  import opened Streams
  import Modes

  /** The mode `from` passes to `fopen` for a stream with the given
      capabilities, or the `InvalidArgumentException` it throws. */
  function ModeFor(readable: bool, writable: bool): (r: Result<string>)
    ensures r.Err? <==> !readable && !writable
    ensures r.Err? ==> r.error == InvalidArgument(NEITHER_READ_NOR_WRITE)
  {
    if readable then
      Ok(if writable then "r+" else "r")
    else if writable then
      Ok("w")
    else
      Err(InvalidArgument(NEITHER_READ_NOR_WRITE))
  }

  /** The mode `from` chooses advertises exactly the capabilities of the
      stream: opening a stream with it yields a stream that is readable
      and writable just as the wrapped one is. */
  lemma ModeAdvertisesCapabilities(readable: bool, writable: bool)
    requires readable || writable
    ensures Modes.IsReadable(ModeFor(readable, writable).value) == readable
    ensures Modes.IsWritable(ModeFor(readable, writable).value) == writable
  {
    Modes.ModesOfTests();
  }

  /** What `stream_stat` and `url_stat` return. `mode` is `None` where
      the mode map has no entry (PHP stores `null` there). */
  datatype Stat = Stat(dev: int, ino: int, mode: Option<int>, nlink: int, uid: int, gid: int,
                       rdev: int, size: int, atime: int, mtime: int, ctime: int,
                       blksize: int, blocks: int)
  {
    /** Every field but the mode and the size is 0. */
    predicate OnlyModeAndSize() {
      dev == 0 && ino == 0 && nlink == 0 && uid == 0 && gid == 0 && rdev == 0 &&
      atime == 0 && mtime == 0 && ctime == 0 && blksize == 0 && blocks == 0
    }
  }

  /** `$modeMap` of `stream_stat`. */
  function ModeBits(mode: string): (r: Option<int>)
    ensures r.Some? <==> mode in ["r", "rb", "r+", "w", "wb"]
  {
    match mode
    case "r" => Some(33060)
    case "rb" => Some(33060)
    case "r+" => Some(33206)
    case "w" => Some(33188)
    case "wb" => Some(33188)
    case _ => None
  }

  /** The bits in the table describe a regular file (S_IFREG, octal
      100000) readable by its owner, and the owner's write bit (octal 200)
      is set exactly for the modes that write. */
  lemma ModeBitsMatchModes(mode: string)
    requires ModeBits(mode).Some?
    ensures var bits := ModeBits(mode).value;
            bits / 4096 == 8 && bits / 256 % 2 == 1 &&
            (bits / 128 % 2 == 1 <==> Modes.IsWritable(mode))
  {
    if mode == "r" || mode == "rb" {
      Modes.NotWritableWithout(mode);
    } else if mode == "r+" {
      Modes.UpdateModes(mode);
    } else {
      Modes.WritableWith(mode, 0);
    }
  }

  /** Whatever mode `from` picks has an entry in the table, so a resource
      made by `from` always reports its mode bits. */
  lemma FromModeHasBits(readable: bool, writable: bool)
    requires readable || writable
    ensures ModeBits(ModeFor(readable, writable).value).Some?
  {
  }

  /** `stream_stat` for a wrapper opened with `mode` over a stream whose
      `getSize()` is `size`. */
  function StatOf(mode: string, size: Option<int>): (r: Stat)
    ensures r.OnlyModeAndSize()
    ensures r.mode == ModeBits(mode)
    ensures size.Some? ==> r.size == size.value
    ensures size.None? ==> r.size == 0
  {
    Stat(0, 0, ModeBits(mode), 0, 0, 0, 0, size.GetOr(0), 0, 0, 0, 0, 0)
  }

  /** `url_stat`: the same all-zero stat for every path and flags. */
  function UrlStatOf(path: string, flags: int): (r: Stat)
    ensures r.OnlyModeAndSize() && r.mode == Some(0) && r.size == 0
  {
    Stat(0, 0, Some(0), 0, 0, 0, 0, 0, 0, 0, 0, 0, 0)
  }

  /** `url_stat` agrees with `stream_stat` of any opened resource in every
      field but the mode and the size, which it reports as 0, whatever the
      path and flags. */
  lemma UrlStatIsEmptyStreamStat(path: string, flags: int, mode: string, size: Option<int>)
    ensures UrlStatOf(path, flags) == StatOf(mode, size).(mode := Some(0), size := 0)
    ensures UrlStatOf(path, flags) == StatOf(mode, Some(0)).(mode := Some(0))
  {
  }

  /** The resource `from` makes over "foo" with "bar" written to it stats
      as a read-write regular file of 6 bytes
      (tests/StreamWrapperTest.php:29-56). */
  lemma StatOfResource()
    ensures var m := ModeFor(true, true).value;
            StatOf(m, Some(6)) == Stat(0, 0, Some(33206), 0, 0, 0, 0, 6, 0, 0, 0, 0, 0)
  {
  }

  /** The options of a stream context: wrapper name, then option name,
      then the value, `None` standing for PHP's `null`. */
  type ContextOptions = map<string, map<string, Option<Stream>>>

  const WRAPPER := "digitalcz-streams"
  const STREAM_OPTION := "stream"

  /** The stream `createStreamContext` stores, if the options hold one
      (`isset($options['digitalcz-streams']['stream'])`). */
  function ContextStream(options: ContextOptions): (r: Option<Stream>)
    ensures r.Some? <==> WRAPPER in options && STREAM_OPTION in options[WRAPPER] &&
                         options[WRAPPER][STREAM_OPTION].Some?
    ensures r.Some? ==> r == options[WRAPPER][STREAM_OPTION]
  {
    if WRAPPER in options && STREAM_OPTION in options[WRAPPER] then
      options[WRAPPER][STREAM_OPTION]
    else
      None
  }

  /** `createStreamContext($stream)`. */
  function CreateStreamContext(s: Stream): (r: ContextOptions)
    ensures ContextStream(r) == Some(s)
  {
    map[WRAPPER := map[STREAM_OPTION := Some(s)]]
  }

  /** A `StreamWrapper` instance, which PHP creates for each `fopen` on the
      scheme. `stream` and `mode` are unset until `stream_open` succeeds. */
  class StreamWrapper {
    var context: ContextOptions
    var stream: Option<Stream>
    var mode: Option<string>

    constructor (context: ContextOptions)
      ensures this.context == context && stream.None? && mode.None?
    {
      this.context := context;
      stream := None;
      mode := None;
    }

    /** `stream_open`: fails when the context carries no stream, and
        otherwise records the mode and the stream. */
    method StreamOpen(path: string, mode: string, options: int) returns (r: bool)
      modifies this
      ensures r <==> ContextStream(context).Some?
      ensures r ==> this.mode == Some(mode) && stream == ContextStream(context)
      ensures !r ==> this.mode == old(this.mode) && stream == old(stream)
      ensures context == old(context)
    {
      var found := ContextStream(context);
      if found.None? {
        return false;
      }
      this.mode := Some(mode);
      stream := found;
      r := true;
    }

    /** `stream_stat`: the mode bits of the recorded mode and the size of
        the stream, 0 when unknown. Asking the size may cache it in the
        stream, and changes nothing else. */
    method StreamStat() returns (r: Stat)
      requires stream.Some? && mode.Some? && stream.value.Valid()
      modifies stream.value
      ensures stream.value.Valid()
      ensures var (st, size) := old(stream.value.State()).GetSize();
              stream.value.State() == st && r == StatOf(mode.value, size)
    {
      var size := stream.value.GetSize();
      r := Stat(0, 0, ModeBits(mode.value), 0, 0, 0, 0, size.GetOr(0), 0, 0, 0, 0, 0);
    }

    /** `url_stat`. */
    method UrlStat(path: string, flags: int) returns (r: Stat)
      ensures r == UrlStatOf(path, flags)
    {
      r := Stat(0, 0, Some(0), 0, 0, 0, 0, 0, 0, 0, 0, 0, 0);
    }
  }

  /** Opening a wrapper on the context `createStreamContext` made over a
      stream succeeds and binds that stream, whatever the path and mode
      (tests/StreamWrapperTest.php:62-71). */
  method OpenOnCreatedContext(s: Stream, path: string, mode: string) returns (w: StreamWrapper)
    ensures fresh(w) && w.stream == Some(s) && w.mode == Some(mode)
  {
    w := new StreamWrapper(CreateStreamContext(s));
    var ok := w.StreamOpen(path, mode, 0);
    assert ok;
  }

  /** Opening a wrapper on a context without the stream option fails and
      leaves it unset. */
  method OpenWithoutStream(path: string, mode: string) returns (w: StreamWrapper, ok: bool)
    ensures fresh(w) && !ok && w.stream.None? && w.mode.None?
  {
    w := new StreamWrapper(map[WRAPPER := map[]]);
    ok := w.StreamOpen(path, mode, 0);
  }
}
