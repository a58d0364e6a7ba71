/**
  The buffer's iterator: a chunk-wise walk with a budget that lets it skip the
  bounds checks, refining plain indexing into the buffer's content.
 */
module BufferIterators {
  import opened Buffers

  /** Where a walk goes from a position: on in the chunk, or to the next chunk when
      that byte was the chunk's last and it is not the last chunk; nowhere if there is
      no byte to leave behind. */
  function Stepped(ps: seq<seq<char>>, pos: Position): Position
    requires pos.idx < |ps|
  {
    if pos.off >= |ps[pos.idx]| then pos
    else if pos.off + 1 == |ps[pos.idx]| && pos.idx + 1 < |ps| then Position(pos.idx + 1, 0)
    else Position(pos.idx, pos.off + 1)
  }

  /** A step leaves exactly the first byte of the rest behind. */
  lemma SteppedRest(ps: seq<seq<char>>, pos: Position)
    requires Inside(ps, pos)
    ensures Inside(ps, Stepped(ps, pos))
    ensures pos.off < |ps[pos.idx]| ==>
              && Rest(ps, pos) != [] && ps[pos.idx][pos.off] == Rest(ps, pos)[0]
              && Rest(ps, Stepped(ps, pos)) == Rest(ps, pos)[1..]
  {
    if pos.off < |ps[pos.idx]| {
      assert ps[pos.idx][pos.off..][1..] == ps[pos.idx][pos.off + 1..];
      var next := Position(pos.idx, pos.off + 1);
      assert Rest(ps, next) == Rest(ps, pos)[1..];
      if Stepped(ps, pos) != next {
        RestNext(ps, pos.idx);
      }
    }
  }

  class BufferIterator {
    const buffer: Buffer
    var pos: Position
    var bytesRead: nat
    var bytesTotal: nat
    var budget: nat
    var chunkStart: array<char>

    /** The budget counts the bytes up to the end of the chunk, chunkStart is that
        chunk, and what is left to read is the content without the bytes read. */
    ghost predicate Valid()
      reads this, buffer, buffer.chunks
    {
      && buffer.Valid()
      && Inside(buffer.pieces, pos)
      && chunkStart == buffer.chunks[pos.idx]
      && budget == buffer.sizes[pos.idx] - pos.off
      && bytesRead <= |buffer.Content()|
      && Rest(buffer.pieces, pos) == buffer.Content()[bytesRead..]
    }

    /** At a byte, or at the write position. An iterator that is neither is stuck. */
    ghost predicate Settled()
      requires Valid()
      reads this, buffer, buffer.chunks
    {
      budget > 0 || pos == buffer.wpos
    }

    constructor (buffer: Buffer)
      requires buffer.Valid()
      ensures Valid() && this.buffer == buffer && bytesRead == 0 && fresh(this)
      ensures Settled() <==> !buffer.DrainedFront()
      ensures bytesTotal == |buffer.Content()| + |Flat(buffer.pieces[1..buffer.rpos.idx + 1])|
    {
      hide Flat, Rest;
      this.buffer := buffer;
      pos := buffer.rpos;
      bytesRead := 0;
      budget := 0;
      chunkStart := buffer.chunks[buffer.rpos.idx];
      new;
      buffer.ReadBeforeWrite();
      bytesTotal := buffer.ByteCount();
      budget := GetBudget();
    }

    function GetBudget(): (n: nat)
      requires buffer.Valid() && Inside(buffer.pieces, pos)
      reads this, buffer, buffer.chunks
    {
      buffer.sizes[pos.idx] - pos.off
    }

    lemma AtEnd()
      requires Valid()
      ensures Settled() ==> (pos == buffer.wpos <==> bytesRead == |buffer.Content()|)
      ensures budget > 0 ==> pos != buffer.wpos
    {
      buffer.ReadBeforeWrite();
      assert |Rest(buffer.pieces, pos)| == |buffer.Content()| - bytesRead;
    }

    /** Exactly at the end, unless the iterator is stuck: then never. */
    predicate Eob()
      requires Valid()
      reads this, buffer, buffer.chunks
      ensures Settled() ==> (Eob() <==> bytesRead == |buffer.Content()|)
      ensures !Settled() ==> !Eob()
    {
      AtEnd();
      if budget != 0 then false else pos == buffer.wpos
    }

    /** The byte at the position; at the end, whatever the memory holds there. */
    function GetChar(beyond: char): (c: char)
      requires Valid()
      reads this, buffer, buffer.chunks
      ensures Settled() && bytesRead < |buffer.Content()| ==> c == buffer.Content()[bytesRead]
      ensures Settled() && bytesRead == |buffer.Content()| ==> c == PastEnd(buffer, beyond)
    {
      AtEnd();
      SteppedRest(buffer.pieces, pos);
      buffer.ReadBeforeWrite();
      if pos.off < BLOCK then chunkStart[pos.off] else beyond
    }

    /** Steps over one byte, or stays where there is none to step over. */
    method SlowNext()
      requires Valid()
      modifies this
      ensures Valid() && pos == Stepped(buffer.pieces, old(pos))
      ensures bytesRead == old(bytesRead) + (if old(budget) > 0 then 1 else 0)
      ensures bytesTotal == old(bytesTotal)
      ensures old(Settled()) ==> Settled()
    {
      hide Flat, Rest;
      SteppedRest(buffer.pieces, pos);
      buffer.ReadBeforeWrite();
      if pos.off < buffer.sizes[pos.idx] {
        pos := pos.(off := pos.off + 1);
        bytesRead := bytesRead + 1;
        if pos.off == buffer.sizes[pos.idx] && pos.idx < buffer.wpos.idx {
          pos := Position(pos.idx + 1, 0);
          chunkStart := buffer.chunks[pos.idx];
        }
        budget := GetBudget();
      }
    }

    /** The fast path and slowNext come to the same. */
    method Next()
      requires Valid()
      modifies this
      ensures Valid() && pos == Stepped(buffer.pieces, old(pos))
      ensures bytesRead == old(bytesRead) + (if old(budget) > 0 then 1 else 0)
      ensures bytesTotal == old(bytesTotal)
      ensures old(Settled()) ==> Settled()
      ensures old(Settled()) && old(bytesRead) < |buffer.Content()| ==> bytesRead == old(bytesRead) + 1
      ensures old(bytesRead) == |buffer.Content()| || !old(Settled()) ==> bytesRead == old(bytesRead) && pos == old(pos)
    {
      hide Flat, Rest;
      AtEnd();
      SteppedRest(buffer.pieces, pos);
      buffer.ReadBeforeWrite();
      if budget > 1 {
        budget := budget - 1;
        pos := pos.(off := pos.off + 1);
        bytesRead := bytesRead + 1;
        return;
      }
      SlowNext();
    }
  }

  /** What an iterator at the end reads: the chunk's next byte of memory, or a byte
      outside the chunk. */
  function PastEnd(b: Buffer, beyond: char): char
    requires b.Valid()
    reads b, b.chunks
  {
    b.ReadBeforeWrite();
    if b.wpos.off < BLOCK then b.chunks[b.wpos.idx][b.wpos.off] else beyond
  }

  /** A walk over the whole buffer reads the content, byte for byte, and consuming
      what k steps counted leaves the rest. */
  method ReadAll(b: Buffer, k: nat) returns (text: seq<char>)
    requires b.Valid() && !b.DrainedFront() && k <= |b.Content()|
    modifies b
    ensures text == old(b.Content())[..k]
    ensures b.Valid() && b.Content() == old(b.Content())[k..]
  {
    hide Flat, Rest, Buffer.Stored, NonemptyBut;
    var it := new BufferIterator(b);
    text := [];
    while |text| < k
      invariant it.Valid() && it.buffer == b && it.Settled() && fresh(it)
      invariant it.bytesRead == |text| <= k
      invariant text == b.Content()[..|text|]
      modifies it
    {
      text := text + [it.GetChar('\0')];
      it.Next();
    }
    b.Consume(it.bytesRead);
  }

  /** From the end of an inner chunk the iterator neither ends nor moves, though there
      may be bytes to read. */
  method StuckIterator(full: seq<char>, more: seq<char>) returns (b: Buffer, it: BufferIterator)
    requires |full| == BLOCK && more != []
    ensures it.Valid() && it.buffer == b && b.Content() == more && !it.Settled()
  {
    hide Flat, Rest, NonemptyBut, Buffer.Stored, Extends;
    b := Exhausted(full);
    b.Write(more);
    assert [] + more == more;
    it := new BufferIterator(b);
  }

  /** copyFrom leads there too: from a buffer that was read to its end, when the first
      chunk to copy does not fit behind what was read. */
  method StuckByCopy(data: seq<char>, full: seq<char>) returns (b: Buffer, it: BufferIterator)
    requires 0 < |data| <= BLOCK && |full| == BLOCK
    ensures it.Valid() && it.buffer == b && b.Content() == full && !it.Settled()
  {
    hide Flat, Rest, NonemptyBut, Buffer.Stored, Extends;
    b := Exhausted(data);
    var other := Handed(full);
    b.CopyFrom(other);
    assert [] + full == full;
    it := new BufferIterator(b);
  }
}
