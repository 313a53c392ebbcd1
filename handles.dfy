/** The PHP stream resource that a `Stream` object wraps, reduced to what the
    library observes of it: its bytes, the cursor, the end-of-file flag that
    `feof` reports, and the mode, seekability and size that
    `stream_get_meta_data` and `fstat` report. The runtime's `fread`,
    `fwrite`, `fseek`, `stream_get_contents` and `stream_copy_to_stream` are
    the functions below. */
module Handles {
  import opened Results

  newtype Byte = x: int | 0 <= x < 256
  type Bytes = seq<Byte>

  const SEEK_SET: int := 0
  const SEEK_CUR: int := 1
  const SEEK_END: int := 2

  /** The chunk the decorators and `StreamUtils::copy` read with, written
      `1024 ^ 2` in the source: `^` is PHP's exclusive or, not a power. */
  const CHUNK: nat := ((1024 as bv16) ^ (2 as bv16)) as nat

  lemma ChunkIsXorNotPower()
    ensures CHUNK == 1026 && CHUNK != 1024 * 1024
  {
  }

  function Min(a: int, b: int): int { if a <= b then a else b }
  function Max(a: int, b: int): int { if a <= b then b else a }

  /** `d` with `s` written over it from offset `at`, growing `d` where `s`
      runs past its end (what `fwrite` does at a cursor). */
  function Overwrite(d: Bytes, at: nat, s: Bytes): (r: Bytes)
    requires at <= |d|
    ensures |r| == Max(|d|, at + |s|)
  {
    d[..at] + s + (if at + |s| < |d| then d[at + |s|..] else [])
  }

  /** Byte by byte: inside the written range the bytes of `s`, elsewhere
      those of `d`. */
  lemma OverwriteBytes(d: Bytes, at: nat, s: Bytes)
    requires at <= |d|
    ensures forall i :: 0 <= i < |Overwrite(d, at, s)| ==>
              Overwrite(d, at, s)[i] == if at <= i < at + |s| then s[i - at] else d[i]
  {
  }

  /** What was written can be read back where it was written. */
  lemma OverwriteReadsBack(d: Bytes, at: nat, s: Bytes)
    requires at <= |d|
    ensures Overwrite(d, at, s)[at..at + |s|] == s
  {
  }

  /** Writing `a` and then `b` right after it is writing `a + b` once. */
  lemma OverwriteTwice(d: Bytes, at: nat, a: Bytes, b: Bytes)
    requires at <= |d|
    ensures at + |a| <= |Overwrite(d, at, a)|
    ensures Overwrite(Overwrite(d, at, a), at + |a|, b) == Overwrite(d, at, a + b)
  {
    var once := Overwrite(d, at, a + b);
    var twice := Overwrite(Overwrite(d, at, a), at + |a|, b);
    assert |twice| == |once|;
    forall i | 0 <= i < |once| ensures twice[i] == once[i] {
      if at <= i < at + |a| {
        assert (a + b)[i - at] == a[i - at];
      } else if at + |a| <= i < at + |a| + |b| {
        assert (a + b)[i - at] == b[i - at - |a|];
      }
    }
  }

  /** A slice of a slice is a slice of the whole. */
  lemma SliceOfSlice(s: Bytes, a: nat, b: nat, i: nat, j: nat)
    requires a <= b <= |s| && i <= j <= b - a
    ensures s[a..b][i..j] == s[a + i..a + j]
  {
    forall k | 0 <= k < j - i ensures s[a..b][i..j][k] == s[a + i..a + j][k] {
    }
  }

  /** Adjacent slices join. */
  lemma SliceJoin(s: Bytes, i: nat, j: nat, k: nat)
    requires i <= j <= k <= |s|
    ensures s[i..j] + s[j..k] == s[i..k]
  {
  }

  lemma SliceJoinTail(s: Bytes, i: nat, j: nat)
    requires i <= j <= |s|
    ensures s[i..j] + s[j..] == s[i..]
  {
  }

  /** Writing at the end of `d` appends. */
  lemma OverwriteAtEnd(d: Bytes, s: Bytes)
    ensures Overwrite(d, |d|, s) == d + s
  {
    var r := Overwrite(d, |d|, s);
    assert |r| == |d + s|;
    forall i | 0 <= i < |r| ensures r[i] == (d + s)[i] {}
  }

  /** Writing the next slice at the end of a slice joins them. */
  lemma OverwriteSliceJoin(s: Bytes, i: nat, j: nat, k: nat)
    requires i <= j <= k <= |s|
    ensures Overwrite(s[i..j], j - i, s[j..k]) == s[i..k]
  {
    OverwriteAtEnd(s[i..j], s[j..k]);
    SliceJoin(s, i, j, k);
  }

  /** The absolute offset `fseek(offset, whence)` aims at; -1 for a whence
      that is none of SEEK_SET, SEEK_CUR, SEEK_END. */
  function SeekTarget(pos: int, size: int, offset: int, whence: int): int {
    if whence == SEEK_SET then offset
    else if whence == SEEK_CUR then pos + offset
    else if whence == SEEK_END then size + offset
    else -1
  }

  /** An open resource. `sized` says whether `fstat` reports a size. */
  datatype Handle = Handle(data: Bytes, pos: nat, atEof: bool, mode: string, seekable: bool, sized: bool)
  {
    /** The cursor never passes the end, and the end-of-file flag is only
        ever raised with the cursor at the end. */
    predicate Valid() {
      pos <= |data| && (atEof ==> pos == |data|)
    }

    /** `fread($h, n)`, n > 0: up to n bytes from the cursor. A request that
        runs past the end raises the end-of-file flag (the runtime retries a
        short read of a memory or temp stream once more, and that empty
        read raises it); a read that stops exactly at the end does not. */
    function Read(n: nat): (r: (Handle, Bytes))
      requires Valid()
      ensures r.0.Valid() && r.0 == this.(pos := r.0.pos, atEof := r.0.atEof)
      ensures r.0.pos == pos + |r.1| && r.1 == data[pos..r.0.pos]
      ensures |r.1| <= n && (|r.1| < n <==> pos + n > |data|)
      ensures r.0.atEof <==> atEof || pos + n > |data|
    {
      var end := Min(pos + n, |data|);
      (this.(pos := end, atEof := atEof || pos + n > |data|), data[pos..end])
    }

    /** `fwrite($h, s)`: overwrite from the cursor, growing the data; the
        count written is the whole of s. */
    function Write(s: Bytes): (r: (Handle, nat))
      requires Valid()
      ensures r.0.Valid() && r.1 == |s|
      ensures r.0 == this.(data := Overwrite(data, pos, s), pos := pos + |s|)
    {
      (this.(data := Overwrite(data, pos, s), pos := pos + |s|), |s|)
    }

    /** `fseek($h, offset, whence)`: fails (leaving the handle as it was) on a
        non-seekable resource, an unknown whence, or a target outside
        0..|data|; success clears the end-of-file flag. */
    function Seek(offset: int, whence: int): (r: Option<Handle>)
      requires Valid()
      ensures r.Some? <==> seekable && whence in {SEEK_SET, SEEK_CUR, SEEK_END} &&
                           0 <= SeekTarget(pos, |data|, offset, whence) <= |data|
      ensures r.Some? ==> r.value.Valid() && r.value == this.(pos := SeekTarget(pos, |data|, offset, whence), atEof := false)
    {
      var target := SeekTarget(pos, |data|, offset, whence);
      if seekable && whence in {SEEK_SET, SEEK_CUR, SEEK_END} && 0 <= target <= |data|
      then Some(this.(pos := target, atEof := false))
      else None
    }

    /** The 'size' entry of `fstat`, when the resource reports one. */
    function Size(): Option<int> {
      if sized then Some(|data|) else None
    }

    /** `stream_get_contents($h)`: everything from the cursor to the end. */
    function Drain(): (r: (Handle, Bytes))
      requires Valid()
      ensures r.0.Valid() && r.0 == this.(pos := |data|, atEof := true) && r.1 == data[pos..]
    {
      (this.(pos := |data|, atEof := true), data[pos..])
    }
  }

  /** `stream_copy_to_stream($src, $dst)`: drain src into dst at dst's cursor;
      the count is the number of bytes copied. */
  function CopyToStream(src: Handle, dst: Handle): (r: (Handle, Handle, nat))
    requires src.Valid() && dst.Valid()
    ensures r.0 == src.Drain().0 && r.1 == dst.Write(src.data[src.pos..]).0
    ensures r.2 == |src.data| - src.pos
  {
    var (src', bytes) := src.Drain();
    var (dst', n) := dst.Write(bytes);
    (src', dst', n)
  }

  /** `b` laid over the start of `d`: the first |b| bytes are b's, ... */
  lemma OverlayPrefix(d: Bytes, b: Bytes, i: nat, j: nat)
    requires i <= j <= |b|
    ensures Overwrite(d, 0, b)[i..j] == b[i..j]
  {
    var o := Overwrite(d, 0, b);
    forall k | 0 <= k < j - i ensures o[i..j][k] == b[i..j][k] {
      assert o[i + k] == b[i + k];
    }
  }

  /** ... and the rest are d's. */
  lemma OverlayBeyond(d: Bytes, b: Bytes, i: nat, j: nat)
    requires |b| <= i <= j <= |d|
    ensures Overwrite(d, 0, b)[i..j] == d[i..j]
  {
    var o := Overwrite(d, 0, b);
    forall k | 0 <= k < j - i ensures o[i..j][k] == d[i..j][k] {
      assert o[i + k] == d[i + k];
    }
  }

  /** Extending the overlay with the bytes it already covers changes
      nothing. */
  lemma OverlayOwn(d: Bytes, b: Bytes, e: Bytes)
    requires |b| + |e| <= |d| && e == d[|b|..|b| + |e|]
    ensures Overwrite(d, 0, b + e) == Overwrite(d, 0, b)
  {
    var x := Overwrite(d, 0, b + e);
    var y := Overwrite(d, 0, b);
    assert |x| == |y|;
    forall i | 0 <= i < |x| ensures x[i] == y[i] {
      if |b| <= i < |b| + |e| {
        assert (b + e)[i] == e[i - |b|] == d[i];
      } else if i < |b| {
        assert (b + e)[i] == b[i];
      }
    }
  }

  /** Writing into the overlay, no further in than its end, is writing
      over the overlaid whole. */
  lemma OverlayLayers(d: Bytes, b: Bytes, c: nat, s: Bytes)
    requires c <= |b|
    ensures c <= |Overwrite(d, 0, b)|
    ensures Overwrite(d, 0, Overwrite(b, c, s)) == Overwrite(Overwrite(d, 0, b), c, s)
  {
    var x := Overwrite(d, 0, Overwrite(b, c, s));
    var y := Overwrite(Overwrite(d, 0, b), c, s);
    assert |x| == |y|;
    forall i | 0 <= i < |x| ensures x[i] == y[i] {
    }
  }

  /** `bytes` in front of what a later step produced, unless it failed. */
  function Prepend(bytes: Bytes, r: Result<Bytes>): (p: Result<Bytes>)
    ensures p.Ok? <==> r.Ok?
    ensures p.Ok? ==> p.value == bytes + r.value
    ensures bytes == [] ==> p == r
  {
    if r.Err? then r
    else
      assert bytes == [] ==> bytes + r.value == r.value;
      Ok(bytes + r.value)
  }

  lemma PrependTwice(a: Bytes, b: Bytes, r: Result<Bytes>)
    ensures Prepend(a, Prepend(b, r)) == Prepend(a + b, r)
  {
    if r.Ok? {
      assert a + (b + r.value) == (a + b) + r.value;
    }
  }
}
