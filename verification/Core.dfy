/** The byte writer and the bounds-checked byte reader. A read that would throw returns None and moves nothing. */
module Core {
  import opened Wire

  class Encoder {
    var buffer: seq<byte>

    constructor ()
      ensures buffer == []
    {
      buffer := [];
    }

    method WriteInt(n: int, size: nat)
      modifies this
      ensures buffer == old(buffer) + LE(n, size)
    {
      var rest := n;
      for i := 0 to size
        invariant buffer + LE(rest, size - i) == old(buffer) + LE(n, size)
      {
        assert LE(rest, size - i) == [rest % 256] + LE(rest / 256, size - i - 1);
        buffer := buffer + [rest % 256];
        rest := rest / 256;
      }
    }

    method WriteBytes(data: seq<byte>)
      modifies this
      ensures buffer == old(buffer) + data
    {
      buffer := buffer + data;
    }

    /** A 16-bit count, truncated as the cast truncates it, then the bytes. */
    method WriteCounted(data: seq<byte>)
      modifies this
      ensures buffer == old(buffer) + (LE(|data|, 2) + data)
    {
      WriteInt(|data|, 2);
      WriteBytes(data);
    }
  }

  class PacketReader {
    const buffer: seq<byte>
    var cursor: nat

    ghost predicate Valid()
      reads this
    {
      cursor <= |buffer|
    }

    function Rest(): seq<byte>
      reads this
      requires Valid()
    {
      buffer[cursor..]
    }

    constructor (buffer: seq<byte>)
      ensures this.buffer == buffer && Valid() && Rest() == buffer
    {
      this.buffer := buffer;
      cursor := 0;
    }

    method ReadUnsigned(size: nat) returns (r: Option<nat>)
      requires Valid()
      modifies this
      ensures Valid()
      ensures r.Some? <==> |old(Rest())| >= size
      ensures r.Some? ==> r.value == FromLE(old(Rest())[..size]) && Rest() == old(Rest())[size..]
      ensures r.None? ==> Rest() == old(Rest())
    {
      if |buffer| - cursor < size { return None; }
      var value := 0;
      for i := size downto 0
        invariant cursor == old(cursor)
        invariant value == FromLE(buffer[cursor + i..cursor + size])
      {
        assert buffer[cursor + i..cursor + size] == [buffer[cursor + i]] + buffer[cursor + i + 1..cursor + size];
        value := 256 * value + buffer[cursor + i] as int;
      }
      assert buffer[cursor..cursor + size] == Rest()[..size];
      cursor := cursor + size;
      return Some(value);
    }

    method ReadWord() returns (r: Option<u16>)
      requires Valid()
      modifies this
      ensures Valid()
      ensures r.Some? <==> |old(Rest())| >= 2
      ensures r.Some? ==> r.value == Word(old(Rest())) && Rest() == old(Rest())[2..]
      ensures r.None? ==> Rest() == old(Rest())
    {
      if |buffer| - cursor < 2 { return None; }
      r := Some(buffer[cursor] as int + 256 * buffer[cursor + 1] as int);
      cursor := cursor + 2;
    }

    method ReadBytes(size: nat) returns (r: Option<seq<byte>>)
      requires Valid()
      modifies this
      ensures Valid()
      ensures r.Some? <==> |old(Rest())| >= size
      ensures r.Some? ==> r.value == old(Rest())[..size] && Rest() == old(Rest())[size..]
      ensures r.None? ==> Rest() == old(Rest())
    {
      if |buffer| - cursor < size { return None; }
      r := Some(buffer[cursor..cursor + size]);
      cursor := cursor + size;
    }

    method Skip(size: nat) returns (ok: bool)
      requires Valid()
      modifies this
      ensures Valid()
      ensures ok <==> |old(Rest())| >= size
      ensures Rest() == if ok then old(Rest())[size..] else old(Rest())
    {
      if |buffer| - cursor < size { return false; }
      cursor := cursor + size;
      return true;
    }

    method AtEnd() returns (empty: bool)
      requires Valid()
      ensures empty <==> Rest() == []
    {
      return cursor == |buffer|;
    }
  }
}
