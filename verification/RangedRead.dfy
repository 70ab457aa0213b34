/** Ranged reads: a bounded piece of a file, either from a provider with random access or by
    skipping over a sequential stream. */
module RangedRead {
  const MAX_RANGE_LENGTH: nat := 1_048_576
  const SKIP_BUFFER: nat := 64 * 1024

  newtype Byte = x: int | 0 <= x < 256

  datatype ReadError = InvalidLength | NotReadable | Broken
  datatype Result<T> = Ok(value: T) | Err(error: ReadError)
  datatype Chunk = Chunk(data: seq<Byte>, eof: bool)

  /** What a provider holds and offers; `chunk` and `broken` say, read by read, how many bytes
      a stream is willing to deliver and whether it fails. */
  datatype File = File(content: seq<Byte>, readable: bool, randomAccess: bool,
                       chunk: nat -> nat, broken: nat -> bool)

  ghost predicate Sound(broken: nat -> bool) {
    forall i :: !broken(i)
  }

  function Min(a: nat, b: nat): nat {
    if a <= b then a else b
  }

  /** The bytes of the range that exist. */
  function Range(content: seq<Byte>, offset: nat, length: nat): seq<Byte> {
    content[Min(offset, |content|)..Min(offset + length, |content|)]
  }

  /** A stream over some bytes. A read delivers at least one byte unless none is left. */
  class ReadStream {
    const content: seq<Byte>
    const chunk: nat -> nat
    const broken: nat -> bool
    var position: nat
    var calls: nat

    ghost predicate Valid()
      reads this
    {
      position <= |content|
    }

    constructor (content: seq<Byte>, chunk: nat -> nat, broken: nat -> bool)
      ensures Valid() && position == 0
      ensures this.content == content && this.chunk == chunk && this.broken == broken
    {
      this.content, this.chunk, this.broken := content, chunk, broken;
      position, calls := 0, 0;
    }

    /** Reads into `buffer[from..to]`. */
    method Read(buffer: array<Byte>, from: nat, to: nat) returns (r: Result<nat>)
      requires Valid() && from <= to <= buffer.Length
      modifies this`position, this`calls, buffer
      ensures Valid()
      ensures r.Err? ==> r.error == Broken && !Sound(broken)
      ensures r.Ok? ==>
                && r.value <= to - from && position == old(position) + r.value
                && (r.value == 0 <==> from == to || old(position) == |content|)
                && buffer[..from + r.value] == old(buffer[..from]) + content[old(position)..position]
    {
      var fails, willing := broken(calls), chunk(calls);
      calls := calls + 1;
      if fails {
        return Err(Broken);
      }
      var most := Min(to - from, |content| - position);
      var n := if willing == 0 then Min(1, most) else Min(willing, most);
      var i := 0;
      while i < n
        invariant i <= n && position == old(position) && buffer[..from] == old(buffer[..from])
        invariant buffer[from..from + i] == content[position..position + i]
      {
        buffer[from + i] := content[position + i];
        i := i + 1;
      }
      position := position + n;
      assert buffer[..from + n] == buffer[..from] + buffer[from..from + n];
      return Ok(n);
    }
  }

  /** Skipping ends at the offset, or at the end of a shorter stream. */
  method SkipBytes(reader: ReadStream, count: nat) returns (r: Result<()>)
    requires reader.Valid()
    modifies reader`position, reader`calls
    ensures reader.Valid()
    ensures r.Err? ==> r.error == Broken && !Sound(reader.broken)
    ensures r.Ok? ==> reader.position == Min(old(reader.position) + count, |reader.content|)
  {
    var buffer := new Byte[SKIP_BUFFER];
    var remaining := count;
    while remaining > 0
      invariant reader.Valid() && 0 <= remaining <= count
      invariant reader.position == old(reader.position) + (count - remaining)
    {
      var chunk := Min(remaining, buffer.Length);
      var read := reader.Read(buffer, 0, chunk);
      if read.Err? {
        return Err(read.error);
      }
      if read.value == 0 {
        assert chunk > 0 && reader.position == |reader.content|;
        break;
      }
      remaining := remaining - read.value;
    }
    return Ok(());
  }

  /** Fills as much of `length` bytes as the stream has. */
  method Fill(reader: ReadStream, length: nat) returns (r: Result<seq<Byte>>)
    requires reader.Valid()
    modifies reader`position, reader`calls
    ensures r.Err? ==> r.error == Broken && !Sound(reader.broken)
    ensures r.Ok? ==> r.value == Range(reader.content, old(reader.position), length)
  {
    var data := new Byte[length];
    var filled := 0;
    ghost var start := reader.position;
    while filled < data.Length
      invariant reader.Valid() && filled <= length && reader.position == start + filled
      invariant data[..filled] == reader.content[start..start + filled]
      decreases length - filled
    {
      ghost var before := reader.position;
      var read := reader.Read(data, filled, data.Length);
      if read.Err? {
        return Err(read.error);
      }
      if read.value == 0 {
        break;
      }
      filled := filled + read.value;
      assert reader.content[start..start + filled] == reader.content[start..before] + reader.content[before..start + filled];
    }
    return Ok(data[..filled]);
  }

  /** Both ways of reading give the bytes of the range that exist, however the stream splits
      its reads; a sound stream never fails. */
  method ReadFileRange(file: File, offset: nat, length: nat) returns (r: Result<Chunk>)
    ensures r == Err(InvalidLength) <==> length == 0 || length > 1_048_576
    ensures r == Err(NotReadable) <==> 0 < length <= 1_048_576 && !file.readable
    ensures r == Err(Broken) ==> !Sound(file.broken)
    ensures r.Ok? ==> r.value.data == if offset >= |file.content| then []
                                      else if offset + length <= |file.content| then file.content[offset..offset + length]
                                      else file.content[offset..]
    ensures r.Ok? ==> (r.value.eof <==> offset + length > |file.content|)
  {
    if length == 0 || length > MAX_RANGE_LENGTH {
      return Err(InvalidLength);
    }
    if !file.readable {
      return Err(NotReadable);
    }
    var reader;
    if file.randomAccess {
      reader := new ReadStream(Range(file.content, offset, length), file.chunk, file.broken);
    } else {
      reader := new ReadStream(file.content, file.chunk, file.broken);
      var skipped := SkipBytes(reader, offset);
      if skipped.Err? {
        return Err(skipped.error);
      }
    }
    var data := Fill(reader, length);
    if data.Err? {
      return Err(data.error);
    }
    return Ok(Chunk(data.value, |data.value| < length));
  }

  /** A viewer's reads: range after range, until one reports the end. */
  function ReadOn(content: seq<Byte>, offset: nat, length: nat): seq<Byte>
    requires length > 0
    decreases |content| - offset
  {
    var data := Range(content, offset, length);
    if |data| < length then data else data + ReadOn(content, offset + length, length)
  }

  /** Range after range gives the whole file. */
  lemma {:induction false} RangesGiveTheFile(content: seq<Byte>, offset: nat, length: nat)
    requires length > 0
    ensures ReadOn(content, offset, length) == content[Min(offset, |content|)..]
    decreases |content| - offset
  {
    if |Range(content, offset, length)| == length {
      RangesGiveTheFile(content, offset + length, length);
    }
  }
}
