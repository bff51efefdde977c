/** The byte source the binary reader owns.  In the reader it is a buffered
    wrapper around any seekable stream; here it is an in-memory byte string
    with a cursor.  Its one reading primitive keeps the stream contract the
    reader relies on: a read of n bytes may deliver any number of them, but
    never more than n or than what is left, and it delivers none only when n
    is zero or the source is exhausted. */
module ByteStream {
  import opened LittleEndian

  /** What one underlying read may deliver: k of the n bytes asked for, when
      `available` bytes remain before the end of the source. */
  predicate PartialRead(available: nat, n: nat, k: nat)
  {
    k <= n && k <= available && (k == 0 ==> n == 0 || available == 0)
  }

  /** Asking for one byte always gets it while any byte is left. */
  lemma SingleByteRead(available: nat, k: nat)
    requires PartialRead(available, 1, k)
    ensures k == if available == 0 then 0 else 1
  {
  }

  /** A read that returns zero bytes, although some were asked for, proves
      that the source is exhausted. */
  lemma ZeroReadMeansEnd(available: nat, n: nat, k: nat)
    requires PartialRead(available, n, k) && n > 0 && k == 0
    ensures available == 0
  {
  }

  class ByteSource {
    /** The bytes of the source; reading and seeking never change them. */
    const data: seq<byte>
    /** The cursor: the absolute offset the next read starts at.  It may lie
        past the end of the data, since seeking beyond the end is allowed. */
    var pos: nat

    constructor (data: seq<byte>, pos: nat)
      ensures this.data == data && this.pos == pos
    {
      this.data := data;
      this.pos := pos;
    }

    /** The bytes from the cursor to the end of the source. */
    function Available(): (a: seq<byte>)
      reads this
      ensures pos <= |data| ==> a == data[pos..]
      ensures pos >= |data| ==> a == []
    {
      if pos <= |data| then data[pos..] else []
    }

    /** `stream_position`: the cursor as an absolute offset. */
    method StreamPosition() returns (p: nat)
      ensures p == pos
    {
      p := pos;
    }

    /** `read(&mut buf[from..])`: copies some of the available bytes into the
        front of buf[from..], leaving the rest of buf alone, and advances the
        cursor by the count it returns.  How many bytes it delivers is not
        determined beyond PartialRead. */
    method Read(buf: array<byte>, from: nat) returns (k: nat)
      requires from <= buf.Length
      modifies this, buf
      ensures PartialRead(|old(Available())|, buf.Length - from, k)
      ensures pos == old(pos) + k
      ensures buf[..from] == old(buf[..from])
      ensures buf[from..from + k] == old(Available())[..k]
      ensures buf[from + k..] == old(buf[from + k..])
    {
      var avail := Available();
      var n := buf.Length - from;
      if n == 0 || |avail| == 0 {
        k := 0;
      } else {
        assert 0 < 1 <= n && 1 <= |avail|;
        k :| 0 < k <= n && k <= |avail|;
      }
      forall i | from <= i < from + k {
        buf[i] := avail[i - from];
      }
      pos := pos + k;
    }

    /** `seek(SeekFrom::Current(delta))`: moves the cursor by delta.  A target
        before the start of the source is an error that leaves the cursor
        where it was; any target at or after the start is accepted, even one
        past the end. */
    method SeekCurrent(delta: int) returns (ok: bool)
      modifies this
      ensures ok == (old(pos) + delta >= 0)
      ensures pos == if ok then old(pos) + delta else old(pos)
    {
      ok := pos + delta >= 0;
      if ok {
        pos := pos + delta;
      }
    }
  }
}
