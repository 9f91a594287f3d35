// CopyFile of base/file_util_posix.cc under short reads and partial writes.

module Copying {
  newtype byte = x: int | 0 <= x < 0x100

  const BUFFER_SIZE := 32768

  // A file opened for reading. Read may fail, and may return fewer bytes than asked for; it returns
  // none only at the end.
  class Input {
    const data: seq<byte>
    var position: nat
    var closes: nat
    ghost var failures: nat

    constructor (data: seq<byte>)
      ensures this.data == data && position == 0 && closes == 0 && failures == 0
    {
      this.data, position, closes, failures := data, 0, 0, 0;
    }

    ghost predicate Valid()
      reads this
    {
      position <= |data|
    }

    method Read(buffer: array<byte>) returns (n: int)
      requires Valid() && buffer.Length > 0
      modifies this`position, this`failures, buffer
      ensures Valid() && n <= buffer.Length
      ensures failures == old(failures) + if n < 0 then 1 else 0
      ensures n < 0 ==> position == old(position)
      ensures n >= 0 ==> position == old(position) + n && buffer[..n] == data[old(position)..position]
      ensures n == 0 ==> position == |data|
    {
      var most := if |data| - position < buffer.Length then |data| - position else buffer.Length;
      n := *;
      if n < 0 {
        failures := failures + 1;
        return;
      }
      n := if most == 0 then 0 else 1 + n % most;
      for i := 0 to n
        invariant failures == old(failures) && position == old(position) && buffer[..i] == data[position..position + i]
      {
        buffer[i] := data[position + i];
      }
      position := position + n;
    }

    method Close() returns (status: int)
      modifies this`closes, this`failures
      ensures closes == old(closes) + 1
      ensures failures == old(failures) + if status < 0 then 1 else 0
    {
      closes := closes + 1;
      status := *;
      failures := failures + if status < 0 then 1 else 0;
    }
  }

  // A file opened for writing. Write may fail, and may take fewer bytes than offered. It may take none
  // only so many times: patience bounds that.
  class Output {
    var data: seq<byte>
    var closes: nat
    var patience: nat
    ghost var failures: nat

    constructor (patience: nat)
      ensures data == [] && closes == 0 && failures == 0 && this.patience == patience
    {
      data, closes, this.patience, failures := [], 0, patience, 0;
    }

    method Write(bytes: seq<byte>) returns (n: int)
      requires bytes != []
      modifies this`data, this`patience, this`failures
      ensures n <= |bytes|
      ensures failures == old(failures) + if n < 0 then 1 else 0
      ensures data == if n < 0 then old(data) else old(data) + bytes[..n]
      ensures patience <= old(patience) && (n == 0 ==> patience < old(patience))
    {
      n := *;
      if n < 0 {
        failures := failures + 1;
        return;
      }
      if n == 0 && patience > 0 {
        patience := patience - 1;
        return;
      }
      n := 1 + n % |bytes|;
      data := data + bytes[..n];
    }

    method Close() returns (status: int)
      modifies this`closes, this`failures
      ensures closes == old(closes) + 1
      ensures failures == old(failures) + if status < 0 then 1 else 0
    {
      closes := closes + 1;
      status := *;
      failures := failures + if status < 0 then 1 else 0;
    }
  }

  // The bytes read so far have been written.
  ghost predicate InStep(infile: Input, outfile: Output)
    reads infile, outfile
  {
    infile.Valid() && outfile.data == infile.data[..infile.position]
  }

  // Writes the first count bytes of the buffer, in as many pieces as it takes.
  method WriteAll(outfile: Output, buffer: array<byte>, count: nat) returns (result: bool)
    requires 0 < count <= buffer.Length
    modifies outfile`data, outfile`patience, outfile`failures
    ensures result <==> outfile.failures == old(outfile.failures)
    ensures outfile.failures >= old(outfile.failures)
    ensures old(outfile.data) <= outfile.data <= old(outfile.data) + buffer[..count]
    ensures result ==> outfile.data == old(outfile.data) + buffer[..count]
  {
    result := true;
    var written := 0;
    while written < count
      invariant 0 <= written <= count
      invariant outfile.data == old(outfile.data) + buffer[..written]
      invariant outfile.failures == old(outfile.failures)
      decreases count - written, outfile.patience
    {
      var partial := outfile.Write(buffer[written..count]);
      if partial < 0 {
        result := false;
        break;
      }
      assert buffer[..written] + buffer[written..count][..partial] == buffer[..written + partial];
      written := written + partial;
    }
    assert buffer[..written] <= buffer[..count];
  }

  // infile and outfile are what open and creat returned, null for a failure. Whatever the sizes of the
  // reads and writes, the copy is always a prefix of the source, and all of it if true is
  // returned, which happens exactly when no call fails.
  method CopyFile(infile: Input?, outfile: Output?) returns (result: bool)
    requires infile != null ==> infile.position == 0
    requires outfile != null ==> outfile.data == []
    modifies infile, outfile
    ensures infile != null ==> infile.closes == old(infile.closes) + 1
    ensures infile != null && outfile != null ==> outfile.closes == old(outfile.closes) + 1
    ensures infile == null && outfile != null ==> outfile.data == [] && outfile.closes == old(outfile.closes)
    ensures infile != null && outfile != null ==> outfile.data <= infile.data
    ensures result <==> infile != null && outfile != null &&
                        infile.failures == old(infile.failures) && outfile.failures == old(outfile.failures)
    ensures result ==> infile != null && outfile != null && outfile.data == infile.data
  {
    if infile == null {
      return false;
    }
    if outfile == null {
      var _ := infile.Close();
      return false;
    }
    var buffer := new byte[BUFFER_SIZE];
    var more := true;
    result := true;
    while result && more
      invariant infile.Valid() && outfile.data <= infile.data
      invariant result ==> InStep(infile, outfile)
      invariant infile.failures >= old(infile.failures) && outfile.failures >= old(outfile.failures)
      invariant result <==> infile.failures == old(infile.failures) && outfile.failures == old(outfile.failures)
      invariant !more ==> infile.position == |infile.data|
      invariant infile.closes == old(infile.closes) && outfile.closes == old(outfile.closes)
      decreases result && more, |infile.data| - infile.position
    {
      ghost var before := infile.position;
      var bytesRead := infile.Read(buffer);
      if bytesRead < 0 {
        result := false;
      } else if bytesRead == 0 {
        more := false;
      } else {
        assert infile.data[..before] + buffer[..bytesRead] == infile.data[..infile.position];
        result := WriteAll(outfile, buffer, bytesRead);
      }
    }
    assert result ==> outfile.data == infile.data;
    var status := infile.Close();
    if status < 0 {
      result := false;
    }
    status := outfile.Close();
    if status < 0 {
      result := false;
    }
  }
}
