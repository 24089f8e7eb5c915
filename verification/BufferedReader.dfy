/** A buffered reader over the bytes that have arrived. */
module BufferedReader {
  import opened RespText

  /** A line, a whole buffer without its end, all that was left of the stream, or nothing yet. */
  datatype Chunk = Found(bytes: string) | Full(bytes: string) | Rest(bytes: string) | Wait

  /** The bytes that have arrived, read through a buffer of a fixed size.  Needing more than
      has arrived is reported instead of blocking. */
  class Reader {
    const data: string
    const size: nat
    /** Nothing comes after these bytes. */
    const ended: bool
    var pos: nat

    constructor (data: string, size: nat, ended: bool)
      requires size > 0
      ensures this.data == data && this.size == size && this.ended == ended && pos == 0 && Valid()
    {
      this.data, this.size, this.ended, pos := data, size, ended, 0;
    }

    predicate Valid()
      reads this
    {
      pos <= |data| && size > 0
    }

    method ReadByte() returns (ok: bool, b: char)
      requires Valid()
      modifies this
      ensures Valid() && ok == (old(pos) < |data|)
      ensures ok ==> b == data[old(pos)] && pos == old(pos) + 1
    {
      ok, b := pos < |data|, ' ';
      if ok {
        b := data[pos];
        pos := pos + 1;
      }
    }

    /** Up to and including the next line feed, or a whole buffer without one, or what is left
        at the end of the stream. */
    method ReadSlice() returns (c: Chunk)
      requires Valid()
      modifies this
      ensures Valid()
      ensures var i := LineFeed(data, old(pos));
              c == if i < |data| && i + 1 - old(pos) <= size then Found(data[old(pos)..i + 1])
                   else if |data| - old(pos) >= size then Full(data[old(pos)..old(pos) + size])
                   else if ended then Rest(data[old(pos)..])
                   else Wait
      ensures pos == old(pos) + if c.Wait? then 0 else |c.bytes|
    {
      var i := LineFeed(data, pos);
      if i < |data| && i + 1 - pos <= size {
        c := Found(data[pos..i + 1]);
        pos := i + 1;
      } else if |data| - pos >= size {
        c := Full(data[pos..pos + size]);
        pos := pos + size;
      } else if ended {
        c := Rest(data[pos..]);
        pos := |data|;
      } else {
        c := Wait;
      }
    }

    method ReadFull(n: nat) returns (ok: bool, bytes: string)
      requires Valid()
      modifies this
      ensures Valid() && ok == (n <= |data| - old(pos))
      ensures ok ==> bytes == data[old(pos)..old(pos) + n] && pos == old(pos) + n
    {
      if n > |data| - pos {
        return false, [];
      }
      bytes := data[pos..pos + n];
      pos := pos + n;
      ok := true;
    }
  }

  lemma {:induction false} NoFeedThrough(s: string, pos: nat, mid: nat)
    requires pos <= mid <= |s| && LineFeed(s, pos) >= mid
    ensures LineFeed(s, mid) == LineFeed(s, pos)
    decreases mid - pos
  {
    if pos < mid {
      NoFeedThrough(s, pos + 1, mid);
    }
  }
}
