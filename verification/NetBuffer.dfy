/** The network buffer: a byte array with a read and a write index that behaves as a byte queue. */
module NetBuffer {
  import opened Bytes

  const CHEAP_PREPEND: nat := 8
  const EXTRA_BYTES: nat := 65536

  /** Copies s into a at position at. */
  method CopyIn(a: array<byte>, at: nat, s: Str)
    requires at + |s| <= a.Length
    modifies a
    ensures a[at..at + |s|] == s
    ensures a[..at] == old(a[..at])
  {
    for i := 0 to |s|
      invariant a[at..at + i] == s[..i]
      invariant a[..at] == old(a[..at])
    {
      a[at + i] := s[i];
      assert a[at..at + i + 1] == a[at..at + i] + [s[i]];
    }
  }

  /** Moves the n bytes at position from down to position to, front first. */
  method MoveDown(a: array<byte>, from: nat, to: nat, n: nat)
    requires to <= from && from + n <= a.Length
    modifies a
    ensures a[to..to + n] == old(a[from..from + n])
  {
    ghost var was := a[..];
    for i := 0 to n
      invariant a[to..to + i] == was[from..from + i]
      invariant a[from + i..] == was[from + i..]
    {
      assert a[from + i] == a[from + i..][0] == was[from + i];
      a[to + i] := a[from + i];
      assert a[to..to + i + 1] == a[to..to + i] + [was[from + i]];
      assert was[from..from + i + 1] == was[from..from + i] + [was[from + i]];
      assert a[from + i + 1..] == was[from + i..][1..];
    }
  }

  class Buffer {
    var data: array<byte>
    var reader: nat
    var writer: nat

    ghost predicate Valid()
      reads this
    {
      CHEAP_PREPEND <= reader <= writer <= data.Length
    }

    ghost function Contents(): (s: Str)
      requires Valid()
      reads this, data
      ensures |s| == writer - reader
    {
      data[reader..writer]
    }

    constructor (initialSize: nat)
      ensures Valid() && fresh(data) && Contents() == []
    {
      data, reader, writer := new byte[CHEAP_PREPEND + initialSize](_ => 0), CHEAP_PREPEND, CHEAP_PREPEND;
    }

    function ReadableBytes(): (n: nat)
      requires Valid()
      reads this, data
      ensures n == |Contents()|
    {
      writer - reader
    }

    /** The readable bytes, without taking them. */
    method Peek() returns (s: Str)
      requires Valid()
      ensures s == Contents()
    {
      s := data[reader..writer];
    }

    /** Takes the first n bytes off the queue. */
    method Retrieve(n: nat)
      requires Valid() && n <= |Contents()|
      modifies this
      ensures Valid() && data == old(data) && Contents() == old(Contents())[n..]
    {
      if n < writer - reader {
        reader := reader + n;
      } else {
        reader, writer := CHEAP_PREPEND, CHEAP_PREPEND;
      }
    }

    /** Makes room for n more bytes by moving the contents to the front, or into a larger array. */
    method EnsureWritableBytes(n: nat)
      requires Valid()
      modifies this, data
      ensures Valid() && writer + n <= data.Length && Contents() == old(Contents())
      ensures data == old(data) || fresh(data)
    {
      if data.Length - writer >= n { return; }
      var readable := writer - reader;
      if reader + (data.Length - writer) >= n + CHEAP_PREPEND {
        MoveDown(data, reader, CHEAP_PREPEND, readable);
      } else {
        var required := readable + n + CHEAP_PREPEND;
        var larger := new byte[if data.Length * 2 >= required then data.Length * 2 else required](_ => 0);
        CopyIn(larger, CHEAP_PREPEND, data[reader..writer]);
        data := larger;
      }
      reader, writer := CHEAP_PREPEND, CHEAP_PREPEND + readable;
    }

    /** Puts s at the end of the queue. */
    method Append(s: Str)
      requires Valid()
      modifies this, data
      ensures Valid() && Contents() == old(Contents()) + s
      ensures data == old(data) || fresh(data)
    {
      EnsureWritableBytes(|s|);
      Deposit(s);
    }

    /** Writes s into the free space behind the contents. */
    method Deposit(s: Str)
      requires Valid() && writer + |s| <= data.Length
      modifies this, data
      ensures Valid() && data == old(data) && Contents() == old(Contents()) + s
      ensures writer == old(writer) + |s|
    {
      CopyIn(data, writer, s);
      assert data[reader..writer] == data[..writer][reader..] == old(Contents());
      writer := writer + |s|;
      assert data[reader..writer] == data[reader..old(writer)] + data[old(writer)..writer];
    }

    /** How many bytes one read call can take: the free space, and a spill buffer if that is small. */
    function Capacity(): (n: nat)
      requires Valid()
      reads this
    {
      var writable := data.Length - writer;
      if writable >= EXTRA_BYTES then writable else writable + EXTRA_BYTES
    }

    /** The kernel hands over the bytes s, no more than fit; all of them end up in the queue, in order. */
    method ReadFd(s: Str)
      requires Valid() && |s| <= Capacity()
      modifies this, data
      ensures Valid() && Contents() == old(Contents()) + s
      ensures data == old(data) || fresh(data)
    {
      var writable := data.Length - writer;
      if |s| <= writable {
        Deposit(s);
      } else {
        var front, spill := s[..writable], s[writable..];
        Deposit(front);
        Append(spill);
        assert old(Contents()) + front + spill == old(Contents()) + s;
      }
    }

    /** Takes everything off the queue. */
    method RetrieveAllAsString() returns (s: Str)
      requires Valid()
      modifies this
      ensures Valid() && data == old(data) && s == old(Contents()) && Contents() == []
    {
      s := data[reader..writer];
      reader, writer := CHEAP_PREPEND, CHEAP_PREPEND;
    }
  }
}
