/**
 * An input stream that can be read more than once. The first pass reads from
 * the underlying stream and records what it reads; at the underlying stream's
 * end the record becomes a byte buffer, and later passes read from the buffer.
 */
module ReusableStreams {
  import opened Wrappers

  newtype byte = b: int | 0 <= b < 256

  /** The exceptions the stream operations throw. */
  datatype StreamError =
    | NullInput          // IllegalArgumentException from the constructor
    | NotReadyForReset   // IOException from `reset` before the replay phase
    | StreamClosed       // IOException from reading a closed underlying stream
    | IndexOutOfBounds   // IndexOutOfBoundsException from a bad offset or length
    | BufferUnderflow    // BufferUnderflowException from `ByteBuffer.get`

  function Min(a: int, b: int): (m: int)
    ensures m <= a && m <= b && (m == a || m == b)
  {
    if a <= b then a else b
  }

  /** `src` now sits at `offset` in `bytes` and every other element is as before. */
  twostate predicate CopiedInto(bytes: array<byte>, offset: int, src: seq<byte>)
    reads bytes
  {
    && 0 <= offset && offset + |src| <= bytes.Length
    && bytes[offset..offset + |src|] == src
    && forall k :: 0 <= k < bytes.Length && !(offset <= k < offset + |src|) ==> bytes[k] == old(bytes[k])
  }

  /** `System.arraycopy` from a sequence. */
  method CopyInto(bytes: array<byte>, offset: int, src: seq<byte>)
    requires 0 <= offset && offset + |src| <= bytes.Length
    modifies bytes
    ensures CopiedInto(bytes, offset, src)
  {
    for i := 0 to |src|
      invariant bytes[offset..offset + i] == src[..i]
      invariant forall k :: 0 <= k < bytes.Length && !(offset <= k < offset + i) ==> bytes[k] == old(bytes[k])
    {
      bytes[offset + i] := src[i];
    }
  }

  /**
   * The underlying stream, as the bytes it has still to deliver. A read
   * delivers as many of them as are asked for and available.
   */
  class InputSource {
    var remaining: seq<byte>
    var closed: bool

    constructor(content: seq<byte>)
      ensures remaining == content && !closed
    {
      remaining := content;
      closed := false;
    }

    /** `InputStream.read(byte[], int, int)`. */
    method Read(bytes: array<byte>, offset: int, length: int) returns (r: Result<int, StreamError>)
      modifies this, bytes
      ensures (offset < 0 || length < 0 || length > bytes.Length - offset) ==>
        r == Err(IndexOutOfBounds) && unchanged(this) && unchanged(bytes)
      ensures !(offset < 0 || length < 0 || length > bytes.Length - offset) && old(closed) ==>
        r == Err(StreamClosed) && unchanged(this) && unchanged(bytes)
      ensures !(offset < 0 || length < 0 || length > bytes.Length - offset) && !old(closed) && (length == 0 || old(remaining) == []) ==>
        r == Ok(if length == 0 then 0 else -1) && unchanged(this) && unchanged(bytes)
      ensures !(offset < 0 || length < 0 || length > bytes.Length - offset) && !old(closed) && length > 0 && old(remaining) != [] ==>
        var n := Min(length, |old(remaining)|);
        r == Ok(n) && remaining == old(remaining)[n..] && !closed && CopiedInto(bytes, offset, old(remaining)[..n])
    {
      if offset < 0 || length < 0 || length > bytes.Length - offset {
        return Err(IndexOutOfBounds);
      }
      if closed {
        return Err(StreamClosed);
      }
      if length == 0 {
        return Ok(0);
      }
      if remaining == [] {
        return Ok(-1);
      }
      var n := Min(length, |remaining|);
      CopyInto(bytes, offset, remaining[..n]);
      remaining := remaining[n..];
      r := Ok(n);
    }

    /** `InputStream.available`: the bytes still to deliver, or an IOException once closed. */
    method Available() returns (r: Result<int, StreamError>)
      ensures closed ==> r == Err(StreamClosed)
      ensures !closed ==> r == Ok(|remaining|)
    {
      if closed {
        return Err(StreamClosed);
      }
      r := Ok(|remaining|);
    }

    /** `InputStream.close`. */
    method Close()
      modifies this
      ensures closed && remaining == old(remaining)
    {
      closed := true;
    }
  }

  /** The `java.nio.ByteBuffer` that `ByteBuffer.wrap` makes of the record. */
  class ByteBuffer {
    const data: seq<byte>
    var position: nat
    var limit: nat

    ghost predicate Valid()
      reads this
    {
      position <= limit <= |data|
    }

    /** `ByteBuffer.wrap`: the whole array, from its start. */
    constructor Wrap(data: seq<byte>)
      ensures Valid() && this.data == data && position == 0 && limit == |data|
    {
      this.data := data;
      position := 0;
      limit := |data|;
    }

    /** `Buffer.remaining`. */
    function Remaining(): (n: int)
      requires Valid()
      reads this
      ensures 0 <= n <= |data| - position
    {
      limit - position
    }

    /** The bytes between the position and the limit, which relative reads deliver in order. */
    function Unread(): (s: seq<byte>)
      requires Valid()
      reads this
      ensures |s| == Remaining()
    {
      data[position..limit]
    }

    /** `ByteBuffer.get(byte[], int, int)`. */
    method Get(bytes: array<byte>, offset: int, length: int) returns (r: Result<(), StreamError>)
      requires Valid()
      modifies this, bytes
      ensures Valid() && limit == old(limit)
      ensures (offset < 0 || length < 0 || length > bytes.Length - offset) ==>
        r == Err(IndexOutOfBounds) && unchanged(this) && unchanged(bytes)
      ensures !(offset < 0 || length < 0 || length > bytes.Length - offset) && length > old(limit - position) ==>
        r == Err(BufferUnderflow) && unchanged(this) && unchanged(bytes)
      ensures !(offset < 0 || length < 0 || length > bytes.Length - offset) && length <= old(limit - position) ==>
        r == Ok(()) && position == old(position) + length && CopiedInto(bytes, offset, old(Unread())[..length])
    {
      if offset < 0 || length < 0 || length > bytes.Length - offset {
        return Err(IndexOutOfBounds);
      }
      if length > Remaining() {
        return Err(BufferUnderflow);
      }
      assert data[position..position + length] == Unread()[..length];
      CopyInto(bytes, offset, data[position..position + length]);
      position := position + length;
      r := Ok(());
    }

    /** `Buffer.flip`: the limit comes down to the position, and the position goes back to zero. */
    method Flip()
      requires Valid()
      modifies this
      ensures Valid() && limit == old(position) && position == 0
      ensures Unread() == old(data[..position])
    {
      limit := position;
      position := 0;
    }

    /** `Buffer.rewind`: the position goes back to zero and the limit stays. */
    method Rewind()
      requires Valid()
      modifies this
      ensures Valid() && limit == old(limit) && position == 0
      ensures Unread() == data[..limit]
    {
      position := 0;
    }
  }

  /**
   * The stream. While `buffer` is null it is recording: `input` is the
   * underlying stream and `output` the bytes recorded so far. Afterwards it is
   * replaying: `input` and `output` are gone and `buffer` holds the record.
   */
  class ReusableInputStream {
    var input: InputSource?
    var output: Option<seq<byte>>
    var buffer: ByteBuffer?

    ghost predicate Valid()
      reads this, buffer
    {
      || (input != null && output.Some? && buffer == null)
      || (input == null && output.None? && buffer != null && buffer.Valid())
    }

    predicate Recording()
      reads this
    {
      buffer == null
    }

    /** The constructor: record from `input`, with nothing recorded yet. */
    constructor(input: InputSource)
      ensures Valid() && Recording()
      ensures this.input == input && output == Some([])
    {
      this.input := input;
      output := Some([]);
      buffer := null;
    }

    /**
     * The constructor's checks: a null input is rejected, and the sizing call
     * to the input's `available` passes its IOException on.
     */
    static method Open(input: InputSource?) returns (r: Result<ReusableInputStream, StreamError>)
      ensures input == null ==> r == Err(NullInput)
      ensures input != null && input.closed ==> r == Err(StreamClosed)
      ensures input != null && !input.closed ==>
        r.Ok? && fresh(r.value) && r.value.Valid() && r.value.input == input && r.value.output == Some([])
    {
      if input == null {
        return Err(NullInput);
      }
      var size := input.Available();
      if size.Err? {
        return Err(size.error);
      }
      var s := new ReusableInputStream(input);
      r := Ok(s);
    }

    /**
     * `available`: the underlying stream's count while recording, which fails
     * once that stream is closed, and what is left before the limit while
     * replaying.
     */
    method Available() returns (avail: Result<int, StreamError>)
      requires Valid()
      ensures input != null && input.closed ==> avail == Err(StreamClosed)
      ensures input != null && !input.closed ==> avail == Ok(|input.remaining|)
      ensures input == null ==> avail == Ok(buffer.Remaining())
    {
      if input != null {
        avail := input.Available();
      } else if buffer != null {
        avail := Ok(buffer.Remaining());
      } else {
        avail := Ok(0);
      }
    }

    /**
     * The effect of a read in the recording phase on the stream and the
     * underlying stream `src`. `recordCount` chooses how much of `bytes` is
     * recorded after a successful read: all `length` requested (as written) or
     * only the count read.
     */
    twostate predicate RecordedRead(src: InputSource, bytes: array<byte>, offset: int, length: int,
                                   new r: Result<int, StreamError>, recordCount: bool)
      reads this, src, bytes, buffer
    {
      var before := old(src.remaining);
      var record := old(output);
      && record.Some?
      && if offset < 0 || length < 0 || length > bytes.Length - offset || old(src.closed) then
           && r == Err(if old(src.closed) && !(offset < 0 || length < 0 || length > bytes.Length - offset)
                       then StreamClosed else IndexOutOfBounds)
           && input == src && output == record && buffer == null && unchanged(src) && unchanged(bytes)
         else if length == 0 then
           r == Ok(0) && input == src && output == record && buffer == null && unchanged(src) && unchanged(bytes)
         else if before == [] then
           // the end of the underlying stream: close it and replay the record
           && r == Ok(-1) && src.closed && src.remaining == before
           && input == null && output.None? && buffer != null && fresh(buffer)
           && buffer.data == record.value && buffer.position == 0 && buffer.limit == |record.value|
           && unchanged(bytes)
         else
           var n := Min(length, |before|);
           && r == Ok(n) && input == src && buffer == null
           && src.remaining == before[n..] && !src.closed
           && CopiedInto(bytes, offset, before[..n])
           && output == Some(record.value + bytes[offset..offset + if recordCount then n else length])
    }

    /** The effect of a read in the replay phase on the stream and its buffer `buf`. */
    twostate predicate ReplayedRead(buf: ByteBuffer, bytes: array<byte>, offset: int, length: int,
                                   new r: Result<int, StreamError>)
      reads this, buf, bytes
    {
      var n := Min(length, old(buf.limit) - old(buf.position));
      && old(buf.position) <= old(buf.limit) <= |buf.data|
      && input == null && output.None? && buffer == buf && buf.limit == old(buf.limit)
      && if n <= 0 then
           r == Ok(-1) && buf.position == old(buf.position) && unchanged(bytes)
         else if offset < 0 || n > bytes.Length - offset then
           r == Err(IndexOutOfBounds) && buf.position == old(buf.position) && unchanged(bytes)
         else
           && r == Ok(n) && buf.position == old(buf.position) + n
           && CopiedInto(bytes, offset, buf.data[old(buf.position)..old(buf.position) + n])
    }

    /** `read(byte[], int, int)`. */
    method Read(bytes: array<byte>, offset: int, length: int) returns (r: Result<int, StreamError>)
      requires Valid()
      modifies this, bytes, input, buffer
      ensures Valid()
      ensures old(buffer) == null ==> RecordedRead(old(input), bytes, offset, length, r, false)
      ensures old(buffer) != null ==> ReplayedRead(old(buffer), bytes, offset, length, r)
    {
      if buffer == null {
        r := Record(bytes, offset, length, false);
      } else {
        r := Replay(bytes, offset, length);
      }
    }

    /** `read(byte[], int, int)` recording only the bytes actually read. */
    method ReadIntended(bytes: array<byte>, offset: int, length: int) returns (r: Result<int, StreamError>)
      requires Valid()
      modifies this, bytes, input, buffer
      ensures Valid()
      ensures old(buffer) == null ==> RecordedRead(old(input), bytes, offset, length, r, true)
      ensures old(buffer) != null ==> ReplayedRead(old(buffer), bytes, offset, length, r)
    {
      if buffer == null {
        r := Record(bytes, offset, length, true);
      } else {
        r := Replay(bytes, offset, length);
      }
    }

    /** The recording branch of `read`. */
    method Record(bytes: array<byte>, offset: int, length: int, recordCount: bool) returns (r: Result<int, StreamError>)
      requires Valid() && Recording()
      modifies this, bytes, input
      ensures Valid()
      ensures RecordedRead(old(input), bytes, offset, length, r, recordCount)
    {
      var src := input;
      r := src.Read(bytes, offset, length);
      if r.Err? {
        return;
      }
      var read := r.value;
      if 0 > read {
        src.Close();
        input := null;
        buffer := new ByteBuffer.Wrap(output.value);
        output := None;
        r := Ok(-1);
      } else {
        var count := if recordCount then read else length;
        var recorded := output.value;
        output := Some(recorded + bytes[offset..offset + count]);
        if length == 0 {
          assert recorded + bytes[offset..offset + count] == recorded;
        }
      }
    }

    /** The replay branch of `read`. */
    method Replay(bytes: array<byte>, offset: int, length: int) returns (r: Result<int, StreamError>)
      requires Valid() && !Recording()
      modifies bytes, buffer
      ensures Valid()
      ensures ReplayedRead(old(buffer), bytes, offset, length, r)
    {
      ghost var start := buffer.position;
      ghost var unread := buffer.Unread();
      var read := Min(length, buffer.Remaining());
      if 0 >= read {
        return Ok(-1);
      }
      var got := buffer.Get(bytes, offset, read);
      if got.Err? {
        assert got.error == IndexOutOfBounds;
        return Err(got.error);
      }
      assert unread[..read] == buffer.data[start..start + read];
      r := Ok(read);
    }

    /** `read()`: reads one byte and returns the count, not the byte. */
    method ReadOne() returns (r: Result<int, StreamError>)
      requires Valid()
      modifies this, input, buffer
      ensures Valid()
      ensures r == Ok(-1) || r == Ok(1) || r == Err(StreamClosed)
      ensures old(buffer) == null && old(input.remaining) != [] && !old(input.closed) ==>
        r == Ok(1) && input == old(input) && input.remaining == old(input.remaining)[1..]
        && output == Some(old(output.value) + [old(input.remaining)[0]])
      ensures old(buffer) == null && old(input.remaining) == [] && !old(input.closed) ==>
        && r == Ok(-1) && old(input).closed && input == null && output.None?
        && buffer != null && fresh(buffer) && buffer.data == old(output.value)
        && buffer.position == 0 && buffer.limit == |buffer.data|
      ensures old(buffer) == null && old(input.closed) ==>
        r == Err(StreamClosed) && input == old(input) && output == old(output) && buffer == null
      ensures old(buffer) != null ==>
        && buffer == old(buffer) && buffer.limit == old(buffer.limit)
        && (if old(buffer.Remaining()) > 0 then r == Ok(1) && buffer.position == old(buffer.position) + 1
            else r == Ok(-1) && buffer.position == old(buffer.position))
    {
      var one := new byte[1];
      ghost var recorded := output;
      r := Read(one, 0, 1);
      if old(buffer) == null && r == Ok(1) {
        assert one[0..1] == [one[0]];
        assert output.value == recorded.value + [one[0]];
      }
    }

    /** `read()` as `InputStream` specifies it: the next byte's value, or -1 at the end. */
    method ReadByte() returns (r: Result<int, StreamError>)
      requires Valid()
      modifies this, input, buffer
      ensures Valid()
      ensures r.Ok? ==> -1 <= r.value < 256
      ensures r.Err? ==> r == Err(StreamClosed)
      ensures old(buffer) == null && old(input.remaining) != [] && !old(input.closed) ==>
        r == Ok(old(input.remaining)[0] as int) && input == old(input) && input.remaining == old(input.remaining)[1..]
        && output == Some(old(output.value) + [old(input.remaining)[0]])
      ensures old(buffer) == null && old(input.remaining) == [] && !old(input.closed) ==>
        && r == Ok(-1) && old(input).closed && input == null && output.None?
        && buffer != null && fresh(buffer) && buffer.data == old(output.value)
        && buffer.position == 0 && buffer.limit == |buffer.data|
      ensures old(buffer) == null && old(input.closed) ==>
        r == Err(StreamClosed) && input == old(input) && output == old(output) && buffer == null
      ensures old(buffer) != null ==>
        && buffer == old(buffer) && buffer.limit == old(buffer.limit)
        && (if old(buffer.Remaining()) > 0 then r == Ok(old(buffer.Unread())[0] as int) && buffer.position == old(buffer.position) + 1
            else r == Ok(-1) && buffer.position == old(buffer.position))
    {
      var one := new byte[1];
      ghost var recorded := output;
      r := ReadIntended(one, 0, 1);
      if old(buffer) == null && r == Ok(1) {
        assert one[0..1] == [one[0]];
        assert output.value == recorded.value + [one[0]];
      }
      if r.Ok? && r.value == 1 {
        r := Ok(one[0] as int);
      }
    }

    /** `read(byte[])`: the whole array from its start. */
    method ReadAll(bytes: array<byte>) returns (r: Result<int, StreamError>)
      requires Valid()
      modifies this, bytes, input, buffer
      ensures Valid()
      ensures old(buffer) == null ==> RecordedRead(old(input), bytes, 0, bytes.Length, r, false)
      ensures old(buffer) != null ==> ReplayedRead(old(buffer), bytes, 0, bytes.Length, r)
    {
      r := Read(bytes, 0, bytes.Length);
    }

    /** `reset`: refused while recording, `flip` of the buffer while replaying. */
    method Reset() returns (r: Result<(), StreamError>)
      requires Valid()
      modifies buffer
      ensures Valid()
      ensures old(buffer) == null ==> r == Err(NotReadyForReset)
      ensures old(buffer) != null ==> r == Ok(()) && buffer.limit == old(buffer.position) && buffer.position == 0
    {
      if buffer == null {
        return Err(NotReadyForReset);
      }
      buffer.Flip();
      r := Ok(());
    }

    /** `reset` going back to the start of the whole record: `rewind` instead of `flip`. */
    method ResetIntended() returns (r: Result<(), StreamError>)
      requires Valid()
      modifies buffer
      ensures Valid()
      ensures old(buffer) == null ==> r == Err(NotReadyForReset)
      ensures old(buffer) != null ==> r == Ok(()) && buffer.limit == old(buffer.limit) && buffer.position == 0
    {
      if buffer == null {
        return Err(NotReadyForReset);
      }
      buffer.Rewind();
      r := Ok(());
    }

    /** `close`: closes the underlying stream if it is still there; the buffer is untouched. */
    method Close()
      requires Valid()
      modifies input
      ensures Valid()
      ensures input != null ==> input.closed && input.remaining == old(input.remaining)
    {
      if input != null {
        input.Close();
      }
    }
  }

  /**
   * How a reader consumes the stream: reads of `size` bytes into a fresh array
   * until a read returns -1, collecting the bytes each read delivered. With
   * `intended` the reads record only the count read.
   */
  method Drain(s: ReusableInputStream, size: nat, intended: bool) returns (got: seq<byte>)
    requires s.Valid() && size > 0
    requires s.input != null ==> !s.input.closed
    modifies s, s.input, s.buffer
    ensures s.Valid() && !s.Recording()
    ensures old(s.buffer) == null ==>
      && got == old(s.input.remaining)
      && fresh(s.buffer) && s.buffer.position == 0 && s.buffer.limit == |s.buffer.data|
      && (intended ==> s.buffer.data == old(s.output.value) + got)
    ensures old(s.buffer) != null ==>
      && s.buffer == old(s.buffer) && got == old(s.buffer.Unread())
      && s.buffer.position == s.buffer.limit == old(s.buffer.limit)
  {
    if s.buffer == null {
      got := DrainRecording(s, size, intended);
    } else {
      got := DrainReplay(s, size, intended);
    }
  }

  /** `Drain` while recording: it ends at the underlying stream's end. */
  method DrainRecording(s: ReusableInputStream, size: nat, intended: bool) returns (got: seq<byte>)
    requires s.Valid() && s.Recording() && size > 0 && !s.input.closed
    modifies s, s.input
    ensures s.Valid() && !s.Recording()
    ensures got == old(s.input.remaining)
    ensures fresh(s.buffer) && s.buffer.position == 0 && s.buffer.limit == |s.buffer.data|
    ensures intended ==> s.buffer.data == old(s.output.value) + got
  {
    got := [];
    var src := s.input;
    while true
      invariant s.Valid() && s.Recording() && s.input == src && !src.closed
      invariant got + src.remaining == old(src.remaining)
      invariant intended ==> s.output.value == old(s.output.value) + got
      decreases |src.remaining|
    {
      var bytes := new byte[size];
      var r;
      if intended {
        r := s.ReadIntended(bytes, 0, size);
      } else {
        r := s.Read(bytes, 0, size);
      }
      if r.value < 0 {
        return;
      }
      got := got + bytes[0..r.value];
    }
  }

  /** `Drain` while replaying: it delivers what is left before the limit. */
  method DrainReplay(s: ReusableInputStream, size: nat, intended: bool) returns (got: seq<byte>)
    requires s.Valid() && !s.Recording() && size > 0
    modifies s, s.buffer
    ensures s.Valid() && s.buffer == old(s.buffer)
    ensures got == old(s.buffer.Unread())
    ensures s.buffer.position == s.buffer.limit == old(s.buffer.limit)
  {
    got := [];
    var buf := s.buffer;
    var start := buf.position;
    while true
      invariant s.Valid() && s.buffer == buf && buf.limit == old(buf.limit)
      invariant start <= buf.position && got == buf.data[start..buf.position]
      decreases buf.limit - buf.position
    {
      ghost var before := buf.position;
      var bytes := new byte[size];
      var r;
      if intended {
        r := s.ReadIntended(bytes, 0, size);
      } else {
        r := s.Read(bytes, 0, size);
      }
      ghost var n := Min(size, buf.limit - before);
      if r.value < 0 {
        assert n <= 0;
        return;
      }
      assert r == Ok(n) && buf.position == before + n;
      assert bytes[0..n] == buf.data[before..before + n];
      assert buf.data[start..before + n] == buf.data[start..before] + buf.data[before..before + n];
      got := got + bytes[0..r.value];
    }
  }

  /** The test suite's repeated read, as written: after a first pass to the end,
      `reset` flips the buffer with its position at zero, so the second pass reads nothing. */
  method ReplayAfterFlip(content: seq<byte>, size: nat) returns (first: seq<byte>, second: seq<byte>)
    requires size > 0
    ensures first == content
    ensures second == []
  {
    var src := new InputSource(content);
    var s := new ReusableInputStream(src);
    first := Drain(s, size, false);
    var reset := s.Reset();
    second := Drain(s, size, false);
  }

  /** The repeated read with the intended behaviour: recording only the bytes
      read and rewinding on `reset`, every pass delivers the whole content. */
  method ReplayAfterRewind(content: seq<byte>, size: nat) returns (first: seq<byte>, second: seq<byte>, third: seq<byte>)
    requires size > 0
    ensures first == content && second == content && third == content
  {
    var src := new InputSource(content);
    var s := new ReusableInputStream(src);
    first := Drain(s, size, true);
    assert s.buffer.data == content;
    var reset := s.ResetIntended();
    second := Drain(s, size, true);
    reset := s.ResetIntended();
    third := Drain(s, size, true);
  }

  /** A short read records the whole requested length: two bytes delivered into
      a four-byte array leave four bytes in the record, two of them stale. */
  method ShortReadRecordsStaleBytes() returns (count: int, recorded: seq<byte>)
    ensures count == 2 && recorded == [65, 66, 0, 0]
  {
    var src := new InputSource([65, 66]);
    var s := new ReusableInputStream(src);
    var bytes := new byte[4](_ => 0);
    var r := s.Read(bytes, 0, 4);
    count := r.value;
    recorded := s.output.value;
    assert bytes[0..4] == [65, 66, 0, 0] by {
      assert bytes[0..2] == [65, 66];
    }
  }

  /** With the count recorded, the same short read records exactly the two bytes delivered. */
  method ShortReadRecordsCount() returns (count: int, recorded: seq<byte>)
    ensures count == 2 && recorded == [65, 66]
  {
    var src := new InputSource([65, 66]);
    var s := new ReusableInputStream(src);
    var bytes := new byte[4];
    var r := s.ReadIntended(bytes, 0, 4);
    count := r.value;
    recorded := s.output.value;
  }

  /** `read()` as written answers 1 for a byte of value 65; the intended `read()` answers 65. */
  method SingleByteRead() returns (asWritten: int, intended: int)
    ensures asWritten == 1 && intended == 65
  {
    var src := new InputSource([65]);
    var s := new ReusableInputStream(src);
    var r := s.ReadOne();
    asWritten := r.value;
    var other := new InputSource([65]);
    var t := new ReusableInputStream(other);
    var q := t.ReadByte();
    intended := q.value;
  }

  /** `available` after `close` passes on the closed input's IOException, and so does
      wrapping that closed input again. */
  method AvailableAfterClose(content: seq<byte>) returns (avail: Result<int, StreamError>, reopened: Result<ReusableInputStream, StreamError>)
    ensures avail == Err(StreamClosed)
    ensures reopened == Err(StreamClosed)
  {
    var src := new InputSource(content);
    var s := new ReusableInputStream(src);
    s.Close();
    avail := s.Available();
    reopened := ReusableInputStream.Open(src);
  }
}
