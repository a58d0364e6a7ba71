/**
  The chunked byte buffer: a deque of fixed-size chunks with a write position in
  the last chunk and a read position in some chunk, refining a plain byte queue.
 */
module Buffers {

  /** Bytes per chunk. */
  const BLOCK := 4096

  /** A chunk number and an offset in that chunk. */
  datatype Position = Position(idx: nat, off: nat)

  // ------------------------------------------------------- the queue, on values

  function Flat(ps: seq<seq<char>>): seq<char> {
    if ps == [] then [] else ps[0] + Flat(ps[1..])
  }

  ghost predicate Inside(ps: seq<seq<char>>, pos: Position) {
    pos.idx < |ps| && pos.off <= |ps[pos.idx]|
  }

  /** The bytes from a position on. */
  ghost function Rest(ps: seq<seq<char>>, pos: Position): seq<char>
    requires Inside(ps, pos)
  {
    ps[pos.idx][pos.off..] + Flat(ps[pos.idx + 1..])
  }

  lemma Assoc(a: seq<char>, b: seq<char>, c: seq<char>)
    ensures a + b + c == a + (b + c)
  {
  }

  lemma {:induction false} FlatCat(a: seq<seq<char>>, b: seq<seq<char>>)
    ensures Flat(a + b) == Flat(a) + Flat(b)
  {
    if a == [] {
      assert a + b == b;
    } else {
      FlatCat(a[1..], b);
      assert (a + b)[0] == a[0] && (a + b)[1..] == a[1..] + b;
      assert Flat(a + b) == (a + b)[0] + Flat((a + b)[1..]);
      Assoc(a[0], Flat(a[1..]), Flat(b));
    }
  }

  lemma FlatOne(p: seq<char>)
    ensures Flat([p]) == p
  {
    assert Flat([p]) == [p][0] + Flat([]);
  }

  lemma FlatMore(ps: seq<seq<char>>, i: nat)
    requires i < |ps|
    ensures Flat(ps[..i + 1]) == Flat(ps[..i]) + ps[i]
  {
    assert ps[..i + 1] == ps[..i] + [ps[i]];
    FlatCat(ps[..i], [ps[i]]);
    FlatOne(ps[i]);
  }

  /** New chunks at the back append their bytes to what can be read. */
  lemma RestCat(ps: seq<seq<char>>, more: seq<seq<char>>, pos: Position)
    requires Inside(ps, pos)
    ensures Inside(ps + more, pos) && Rest(ps + more, pos) == Rest(ps, pos) + Flat(more)
  {
    assert (ps + more)[pos.idx + 1..] == ps[pos.idx + 1..] + more;
    FlatCat(ps[pos.idx + 1..], more);
  }

  /** Bytes added to the last chunk are appended to what can be read. */
  lemma RestGrow(ps: seq<seq<char>>, data: seq<char>, pos: Position)
    requires Inside(ps, pos)
    ensures var ps' := ps[|ps| - 1 := ps[|ps| - 1] + data];
            Inside(ps', pos) && Rest(ps', pos) == Rest(ps, pos) + data
  {
    var n := |ps| - 1;
    var ps' := ps[n := ps[n] + data];
    if pos.idx < n {
      var mid := ps[pos.idx + 1..n];
      assert ps[pos.idx + 1..] == mid + [ps[n]] && ps'[pos.idx + 1..] == mid + [ps[n] + data];
      FlatCat(mid, [ps[n]]);
      FlatCat(mid, [ps[n] + data]);
      FlatOne(ps[n]);
      FlatOne(ps[n] + data);
      assert Flat(mid) + (ps[n] + data) == (Flat(mid) + ps[n]) + data;
    } else {
      assert ps'[pos.idx + 1..] == [];
    }
  }

  /** The end of a chunk is the start of the next one. */
  lemma RestNext(ps: seq<seq<char>>, idx: nat)
    requires idx + 1 < |ps|
    ensures Rest(ps, Position(idx, |ps[idx]|)) == Rest(ps, Position(idx + 1, 0))
  {
    assert ps[idx + 1..][1..] == ps[idx + 2..];
  }

  lemma RestDrop(ps: seq<seq<char>>, n: nat, pos: Position)
    requires Inside(ps, pos) && n <= pos.idx
    ensures Inside(ps[n..], Position(pos.idx - n, pos.off))
    ensures Rest(ps[n..], Position(pos.idx - n, pos.off)) == Rest(ps, pos)
  {
    assert ps[n..][pos.idx - n + 1..] == ps[pos.idx + 1..];
  }

  /** Every chunk still holds what it held, in the same place. */
  ghost predicate Extends(ps: seq<seq<char>>, ps': seq<seq<char>>) {
    |ps| <= |ps'| && forall i :: 0 <= i < |ps| ==> ps[i] <= ps'[i]
  }

  lemma ExtendsItself(ps: seq<seq<char>>)
    ensures Extends(ps, ps)
  {
  }

  lemma ExtendsFurther(a: seq<seq<char>>, b: seq<seq<char>>, c: seq<seq<char>>)
    requires Extends(a, b) && Extends(b, c)
    ensures Extends(a, c)
  {
    forall i | 0 <= i < |a|
      ensures a[i] <= c[i]
    {
      assert a[i] <= b[i] && b[i] <= c[i];
    }
  }

  /** All chunks but the first: those read past, and those still to be read. */
  lemma KeptSplit(ps: seq<seq<char>>, pos: Position)
    requires Inside(ps, pos)
    ensures |ps[pos.idx]| - pos.off + |Flat(ps[1..])| == |Rest(ps, pos)| + |Flat(ps[1..pos.idx + 1])|
  {
    hide Flat;
    assert ps[1..] == ps[1..pos.idx + 1] + ps[pos.idx + 1..];
    FlatCat(ps[1..pos.idx + 1], ps[pos.idx + 1..]);
  }

  ghost predicate NonemptyBut(ps: seq<seq<char>>, last: int) {
    forall i :: 0 <= i < |ps| && i < last ==> |ps[i]| > 0
  }

  /** Chunks that all hold something hold nothing together only if there are none. */
  lemma NonemptyFlat(ps: seq<seq<char>>)
    requires ps != [] && |ps[0]| > 0
    ensures |Flat(ps)| > 0
  {
  }

  lemma DropOnce<T>(s: seq<T>, k: nat)
    requires k < |s|
    ensures s[k..][1..] == s[k + 1..]
  {
  }

  function Min(a: nat, b: nat): nat { if a < b then a else b }

  lemma WrapOn(a: nat, n: nat)
    ensures (a % BLOCK + n) % BLOCK == (a + n) % BLOCK
  {
  }

  /** The chunks without an empty last one. */
  ghost function Trimmed(ps: seq<seq<char>>): seq<seq<char>> {
    if ps != [] && ps[|ps| - 1] == [] then ps[..|ps| - 1] else ps
  }

  /** What must follow a full last chunk. */
  ghost function Closing(ps: seq<seq<char>>): seq<seq<char>> {
    if ps != [] && |ps[|ps| - 1]| == BLOCK then [[]] else []
  }

  lemma TrimmedFlat(ps: seq<seq<char>>)
    ensures Flat(Trimmed(ps)) == Flat(ps)
  {
    if ps != [] && ps[|ps| - 1] == [] {
      assert ps == ps[..|ps| - 1] + [[]];
      FlatCat(ps[..|ps| - 1], [[]]);
      FlatOne([]);
    }
  }

  /** Full, then, all of them. */
  ghost predicate AllNonempty(ps: seq<seq<char>>) {
    forall i :: 0 <= i < |ps| ==> |ps[i]| > 0
  }

  lemma TrimmedNonempty(ps: seq<seq<char>>)
    requires NonemptyBut(ps, |ps| - 1)
    ensures AllNonempty(Trimmed(ps))
  {
  }

  lemma ClosedFlat(ps: seq<seq<char>>)
    ensures Flat(Trimmed(ps) + Closing(Trimmed(ps))) == Flat(ps)
  {
    hide Flat;
    var y := Trimmed(ps);
    TrimmedFlat(ps);
    FlatOne([]);
    EmptyFlat();
    FlatCat(y, Closing(y));
  }

  /** Reading goes on into the chunks put behind one's own. */
  lemma AppendedRest(ps: seq<seq<char>>, more: seq<seq<char>>, pos: Position)
    requires Inside(ps, pos) && more != []
    ensures var c := Trimmed(ps) + more;
            Inside(c, pos) && Rest(c, pos) == Rest(ps, pos) + Flat(more)
  {
    hide Flat, Rest;
    var x := Trimmed(ps);
    if pos.idx < |x| {
      RestCat(x, more, pos);
      TrimmedRest(ps, pos);
    } else {
      assert ps == x + [[]] && pos == Position(|x|, 0);
      RestAt(x, more);
      RestAt(x, [[]]);
      FlatOne([]);
    }
  }

  /** The chunks of a buffer that took over another's: no empty ones, but for one
      behind a full last chunk. */
  ghost function Joined(a: seq<seq<char>>, b: seq<seq<char>>): seq<seq<char>> {
    Trimmed(a) + (Trimmed(b) + Closing(Trimmed(b)))
  }

  lemma JoinedEnd(a: seq<seq<char>>, b: seq<seq<char>>)
    requires b != [] && b[0] != []
    ensures var both := Trimmed(a) + Trimmed(b); both != [] && both + Closing(both) == Joined(a, b)
  {
    var x, y := Trimmed(a), Trimmed(b);
    assert y != [] && (x + y)[|x + y| - 1] == y[|y| - 1];
  }

  lemma JoinedNonempty(a: seq<seq<char>>, b: seq<seq<char>>)
    requires NonemptyBut(a, |a| - 1) && NonemptyBut(b, |b| - 1)
    ensures NonemptyBut(Joined(a, b), |Joined(a, b)| - 1)
  {
    TrimmedNonempty(a);
    TrimmedNonempty(b);
  }

  lemma JoinedRest(a: seq<seq<char>>, b: seq<seq<char>>, pos: Position)
    requires Inside(a, pos) && b != [] && b[0] != []
    ensures Inside(Joined(a, b), pos) && Rest(Joined(a, b), pos) == Rest(a, pos) + Flat(b)
  {
    ClosedFlat(b);
    AppendedRest(a, Trimmed(b) + Closing(Trimmed(b)), pos);
  }

  /** Where joining leaves a read chunk with nothing left in it. */
  lemma JoinedDrained(a: seq<seq<char>>, b: seq<seq<char>>, pos: Position)
    requires Inside(a, pos) && NonemptyBut(a, |a| - 1)
    requires b != [] && b[0] != []
    ensures var c := Joined(a, b);
            && pos.idx < |c| && (|c[pos.idx]| == pos.off <==> |a[pos.idx]| == pos.off > 0)
            && (|c[pos.idx]| == pos.off ==> pos.idx + 1 < |c|)
  {
    var x, y := Trimmed(a), Trimmed(b);
    var c := Joined(a, b);
    if pos.idx < |x| {
      assert c[pos.idx] == a[pos.idx] && |a[pos.idx]| > 0;
    } else {
      assert c[pos.idx] == y[0] && a[pos.idx] == [];
    }
  }

  /** How much the last chunk that is not empty holds. */
  ghost function LastFilled(ps: seq<seq<char>>): nat {
    var t := Trimmed(ps);
    if t == [] then 0 else |t[|t| - 1]|
  }

  /** How far a copy of these chunks fills the write chunk, from the given offset on:
      only a single one that fits goes behind what is there. */
  ghost function EndOfCopy(ps: seq<seq<char>>, off: nat): nat
    requires ps != []
  {
    if |ps| == 1 && off + |ps[0]| <= BLOCK then off + |ps[0]| else |ps[|ps| - 1]|
  }

  lemma JoinedLast(a: seq<seq<char>>, b: seq<seq<char>>)
    requires b != [] && b[0] != [] && LastFilled(b) <= BLOCK
    ensures var c := Joined(a, b); c != [] && |c[|c| - 1]| == LastFilled(b) % BLOCK
  {
    var t := Trimmed(b);
    assert t != [] && |t[|t| - 1]| == LastFilled(b);
  }

  lemma EmptyFlat()
    ensures Flat([]) == []
  {
  }

  lemma RestAt(x: seq<seq<char>>, z: seq<seq<char>>)
    requires z != []
    ensures Rest(x + z, Position(|x|, 0)) == Flat(z)
  {
    assert (x + z)[|x| + 1..] == z[1..];
  }

  lemma TrimmedRest(ps: seq<seq<char>>, pos: Position)
    requires Inside(ps, pos) && pos.idx < |Trimmed(ps)|
    ensures Rest(Trimmed(ps), pos) == Rest(ps, pos)
  {
    if ps[|ps| - 1] == [] {
      assert ps[..|ps| - 1][pos.idx + 1..] == Trimmed(ps[pos.idx + 1..]);
      TrimmedFlat(ps[pos.idx + 1..]);
    }
  }

  // ------------------------------------------------------------------ the buffer

  /** Different buffers that share no chunk. */
  ghost predicate Apart(a: Buffer, b: Buffer)
    reads a`chunks, b`chunks
  {
    a != b && forall i, j :: 0 <= i < |a.chunks| && 0 <= j < |b.chunks| ==> a.chunks[i] != b.chunks[j]
  }

  /** Distinct chunks of full length, and what they hold in their filled parts. */
  ghost predicate StoredIn(chunks: seq<array<char>>, sizes: seq<nat>, pieces: seq<seq<char>>)
    reads chunks
  {
    && |chunks| == |sizes| == |pieces|
    && (forall i :: 0 <= i < |chunks| ==> chunks[i].Length == BLOCK)
    && (forall i, j :: 0 <= i < j < |chunks| ==> chunks[i] != chunks[j])
    && (forall i :: 0 <= i < |sizes| ==> sizes[i] <= BLOCK)
    && (forall i :: 0 <= i < |pieces| ==> pieces[i] == chunks[i][..sizes[i]])
  }

  lemma StoredDrop(chunks: seq<array<char>>, sizes: seq<nat>, pieces: seq<seq<char>>, n: nat)
    requires StoredIn(chunks, sizes, pieces) && n <= |chunks|
    ensures n <= |sizes| && n <= |pieces| && StoredIn(chunks[n..], sizes[n..], pieces[n..])
  {
    assert forall i :: 0 <= i < |sizes[n..]| ==> sizes[n..][i] == sizes[n + i];
  }

  /** Counting k more bytes of a chunk as filled. */
  lemma StoredFill(chunks: seq<array<char>>, sizes: seq<nat>, pieces: seq<seq<char>>, i: nat, k: nat)
    requires StoredIn(chunks, sizes, pieces) && i < |chunks| && sizes[i] + k <= BLOCK
    ensures i < |sizes| && i < |pieces| && sizes[i] + k <= chunks[i].Length
    ensures StoredIn(chunks, sizes[i := sizes[i] + k], pieces[i := pieces[i] + chunks[i][sizes[i]..sizes[i] + k]])
  {
  }

  /** The write offset, and whether the read position is at the end of an inner chunk. */
  datatype Ends = Ends(off: nat, stuck: bool)

  /** The chunk being read holds bytes and has been read to its end: the queue is
      empty, or the read position is stuck there. */
  predicate Drained(q: seq<char>, e: Ends) {
    e.stuck || (q == [] && e.off > 0)
  }

  class Buffer {
    var chunks: seq<array<char>>
    var sizes: seq<nat>
    var wpos: Position
    var rpos: Position
    /** The filled part of each chunk. */
    ghost var pieces: seq<seq<char>>

    /** The chunks are distinct, whole, and hold `pieces`. */
    ghost predicate Stored()
      reads this`chunks, this`sizes, this`pieces, chunks
    {
      StoredIn(chunks, sizes, pieces)
    }

    ghost predicate Valid()
      reads this, chunks
    {
      && Stored()
      && |chunks| > 0
      && wpos == Position(|chunks| - 1, sizes[|chunks| - 1])
      && Inside(pieces, rpos)
      && NonemptyBut(pieces, |pieces| - 1)
    }

    /** The byte queue that the buffer stands for. */
    ghost function Content(): seq<char>
      requires Valid()
      reads this, chunks
    {
      Rest(pieces, rpos)
    }

    /** The read position is at the end of a chunk that is not the last. */
    ghost predicate DrainedFront()
      requires Valid()
      reads this, chunks
    {
      rpos.idx < wpos.idx && rpos.off == sizes[rpos.idx]
    }

    /** The chunk being read holds bytes, and all of them have been read. */
    ghost predicate DrainedChunk()
      requires Valid()
      reads this, chunks
    {
      0 < rpos.off == sizes[rpos.idx]
    }

    /** What a use of the buffer depends on besides the byte queue. */
    ghost function EndsNow(): Ends
      requires Valid()
      reads this, chunks
    {
      Ends(wpos.off, DrainedFront())
    }

    /** The read position is at the write position, or in a chunk read to its end,
        exactly if the byte queue and the ends say so. */
    lemma EndsTell()
      requires Valid()
      ensures rpos == wpos <==> Content() == [] && !DrainedFront()
      ensures DrainedChunk() <==> Drained(Content(), EndsNow())
    {
      hide Flat;
      EmptyFlat();
      ReadBeforeWrite();
      if rpos == wpos {
        assert pieces[rpos.idx + 1..] == [];
      }
    }

    /** What a reader of the area [readPtr, readPtr + readSize) may rely on while
        writers add to the buffer: same chunks, same bytes, same read position. */
    twostate predicate KeepsReadable()
      reads this
    {
      && rpos == old(rpos)
      && old(chunks) <= chunks && Extends(old(pieces), pieces)
      && (forall i :: |old(chunks)| <= i < |chunks| ==> fresh(chunks[i]))
    }

    lemma ReadBeforeWrite()
      requires Valid()
      ensures |chunks| == |sizes| == |pieces| && wpos.idx == |chunks| - 1 && wpos.off <= BLOCK
      ensures forall i :: 0 <= i < |sizes| ==> sizes[i] == |pieces[i]|
      ensures rpos.idx < wpos.idx || (rpos.idx == wpos.idx && rpos.off <= wpos.off)
    {
    }

    constructor ()
      ensures Valid() && Content() == [] && rpos == wpos == Position(0, 0) && !DrainedFront()
      ensures pieces == [[]] && forall i :: 0 <= i < |chunks| ==> fresh(chunks[i])
    {
      chunks, sizes, pieces := [], [], [];
      wpos, rpos := Position(0, 0), Position(0, 0);
      new;
      wpos := AddChunk();
      rpos := wpos;
    }

    function WriteSize(): (n: nat)
      requires Valid()
      reads this, chunks
    {
      BLOCK - wpos.off
    }

    function ReadSize(): (n: nat)
      requires Valid()
      reads this, chunks
      ensures n <= |Content()|
      ensures n == 0 <==> Content() == [] || DrainedFront()
      ensures rpos.idx == wpos.idx ==> n == |Content()|
    {
      sizes[rpos.idx] - rpos.off
    }

    /** The bytes at readPtr. */
    ghost function ReadArea(): (area: seq<char>)
      requires Valid()
      reads this, chunks
      ensures |area| == ReadSize() && area <= Content()
    {
      pieces[rpos.idx][rpos.off..]
    }

    predicate IsConsumed()
      reads this`rpos
    {
      rpos.idx != 0 || rpos.off != 0
    }

    // ------------------------------------------------------------------- chunks

    method AddChunk() returns (pos: Position)
      requires Stored()
      modifies this`chunks, this`sizes, this`pieces
      ensures Stored() && pos == Position(|old(chunks)|, 0)
      ensures |chunks| == |old(chunks)| + 1 && chunks[..|old(chunks)|] == old(chunks) && fresh(chunks[|old(chunks)|])
      ensures sizes == old(sizes) + [0] && pieces == old(pieces) + [[]]
    {
      var chunk := new char[BLOCK];
      chunks, sizes := chunks + [chunk], sizes + [0];
      pieces := pieces + [[]];
      pos := Position(|chunks| - 1, 0);
    }

    /** Takes the first n chunks away; both positions count from the new front. */
    method DropChunks(n: nat)
      requires Stored() && n <= |chunks| && n <= wpos.idx && n <= rpos.idx
      modifies this
      ensures Stored()
      ensures chunks == old(chunks)[n..] && sizes == old(sizes)[n..] && pieces == old(pieces)[n..]
      ensures wpos == Position(old(wpos).idx - n, old(wpos).off)
      ensures rpos == Position(old(rpos).idx - n, old(rpos).off)
    {
      hide Flat, Rest, Inside, NonemptyBut, Extends, StoredIn;
      StoredDrop(chunks, sizes, pieces, n);
      if n == 0 { return; }
      wpos := wpos.(idx := wpos.idx - n);
      rpos := rpos.(idx := rpos.idx - n);
      var left := n;
      while left > 0
        invariant 0 <= left <= n
        invariant chunks == old(chunks)[n - left..] && sizes == old(sizes)[n - left..] &&
                  pieces == old(pieces)[n - left..]
        modifies this`chunks, this`sizes, this`pieces
      {
        DropOnce(old(chunks), n - left);
        DropOnce(old(sizes), n - left);
        DropOnce(old(pieces), n - left);
        chunks, sizes, pieces := chunks[1..], sizes[1..], pieces[1..];
        left := left - 1;
      }
    }

    // ------------------------------------------------------------------ writing

    /** A new chunk behind a chunk that holds something. */
    method Extend()
      requires Valid() && wpos.off > 0
      modifies this`chunks, this`sizes, this`wpos, this`pieces
      ensures Valid() && KeepsReadable() && Content() == old(Content())
      ensures wpos == Position(old(wpos).idx + 1, 0)
      ensures fresh(chunks[wpos.idx]) && |chunks| == |old(chunks)| + 1 && pieces == old(pieces) + [[]]
      ensures DrainedFront() <==> old(DrainedFront()) || rpos == old(wpos)
    {
      hide Flat, Rest;
      wpos := AddChunk();
      RestCat(old(pieces), [[]], rpos);
      FlatOne([]);
    }

    /** Drops the first n chunks, all of them read past. */
    method DropRead(n: nat)
      requires Valid() && n <= rpos.idx
      modifies this
      ensures Valid() && Content() == old(Content()) && DrainedFront() == old(DrainedFront())
      ensures chunks == old(chunks)[n..] && rpos.idx == old(rpos).idx - n && wpos.off == old(wpos).off
    {
      hide Flat, Rest;
      RestDrop(pieces, n, rpos);
      DropChunks(n);
    }

    /** Room for `bytes` in the write chunk, at the price of a new chunk if need be;
        nothing that can be read changes, and no more is promised than a chunk holds. */
    method Reserve(bytes: nat) returns (ok: bool)
      requires Valid()
      modifies this
      ensures Valid() && Content() == old(Content())
      ensures ok <==> bytes <= 4096
      ensures ok ==> WriteSize() >= bytes
      ensures if ok && old(WriteSize()) < bytes then wpos.off == 0
              else rpos == old(rpos) && wpos == old(wpos) && chunks == old(chunks)
      ensures rpos.idx == old(rpos).idx
      ensures DrainedFront() <==> old(DrainedFront())
      ensures old(wpos).off < BLOCK ==> wpos.off < BLOCK
      ensures forall i :: 0 <= i < |chunks| ==> chunks[i] in old(chunks) || fresh(chunks[i])
    {
      hide Flat, Rest;
      ReadBeforeWrite();
      if bytes > BLOCK { return false; }
      if BLOCK - wpos.off >= bytes { return true; }
      var shouldAdvance := rpos == wpos;
      Extend();
      if shouldAdvance {
        RestNext(pieces, rpos.idx);
        rpos := wpos;
        DropRead(1);
      }
      return true;
    }

    /** Counts the first `bytes` bytes of the writing area as written. */
    method Fill(bytes: nat)
      requires Valid() && bytes <= WriteSize()
      modifies this`sizes, this`wpos, this`pieces
      ensures Valid() && KeepsReadable()
      ensures wpos == Position(old(wpos).idx, old(wpos).off + bytes)
      ensures Content() == old(Content()) + chunks[|chunks| - 1][old(wpos).off..old(wpos).off + bytes]
      ensures pieces == old(pieces)[wpos.idx := old(pieces[wpos.idx]) +
                chunks[wpos.idx][old(wpos).off..old(wpos).off + bytes]]
      ensures DrainedFront() == old(DrainedFront())
    {
      hide Flat, Rest, StoredIn;
      ReadBeforeWrite();
      StoredFill(chunks, sizes, pieces, wpos.idx, bytes);
      ghost var data := chunks[wpos.idx][wpos.off..wpos.off + bytes];
      RestGrow(pieces, data, rpos);
      pieces := pieces[wpos.idx := pieces[wpos.idx] + data];
      sizes := sizes[wpos.idx := sizes[wpos.idx] + bytes];
      wpos := wpos.(off := wpos.off + bytes);
    }

    /** Hands over what the producer wrote in the first `bytes` bytes of the writing area. */
    method Advance(bytes: nat) returns (ok: bool)
      requires Valid()
      modifies this`sizes, this`wpos, this`pieces
      ensures Valid() && KeepsReadable()
      ensures ok <==> 0 < bytes <= old(WriteSize())
      ensures ok ==> Content() == old(Content()) + chunks[|chunks| - 1][old(wpos).off..old(wpos).off + bytes]
      ensures ok ==> wpos == Position(old(wpos).idx, old(wpos).off + bytes)
      ensures !ok ==> Content() == old(Content()) && wpos == old(wpos)
      ensures DrainedFront() == old(DrainedFront())
    {
      hide Flat, Rest;
      if bytes <= 0 { return false; }
      if bytes <= WriteSize() {
        Fill(bytes);
        return true;
      }
      return false;
    }

    /** Copies bytes one by one into the writing area. */
    method CopyIn(data: seq<char>)
      requires Valid() && |data| <= WriteSize()
      modifies chunks[wpos.idx]
      ensures Valid() && chunks[wpos.idx][wpos.off..wpos.off + |data|] == data
    {
      hide Flat, Rest;
      var dest := chunks[wpos.idx];
      var i := 0;
      while i < |data|
        invariant i <= |data|
        invariant dest[..wpos.off] == old(dest[..wpos.off])
        invariant dest[wpos.off..wpos.off + i] == data[..i]
      {
        dest[wpos.off + i] := data[i];
        i := i + 1;
      }
    }

    /** Writes into the current chunk. */
    method PutBytes(data: seq<char>)
      requires Valid() && |data| <= WriteSize()
      modifies this`sizes, this`wpos, this`pieces, chunks[wpos.idx]
      ensures Valid() && KeepsReadable()
      ensures wpos == Position(old(wpos).idx, old(wpos).off + |data|)
      ensures Content() == old(Content()) + data
      ensures pieces == old(pieces)[wpos.idx := old(pieces[wpos.idx]) + data]
      ensures DrainedFront() == old(DrainedFront())
    {
      hide Flat, Rest;
      CopyIn(data);
      Fill(|data|);
    }

    /** One turn of write's loop: as much as the chunk takes, and a new chunk if more
        is to come or the chunk is full. */
    method WriteSome(data: seq<char>) returns (n: nat)
      requires Valid() && data != []
      modifies this`chunks, this`sizes, this`wpos, this`pieces, chunks[wpos.idx]
      ensures Valid() && KeepsReadable()
      ensures n == Min(old(WriteSize()), |data|) && Content() == old(Content()) + data[..n]
      ensures wpos.off == (old(wpos).off + n) % BLOCK
      ensures DrainedFront() <==> old(DrainedFront()) || (rpos == old(wpos) && old(wpos).off == BLOCK)
    {
      hide Flat, Rest, Stored;
      n := Min(WriteSize(), |data|);
      ReadBeforeWrite();
      assert if wpos.off + n < BLOCK then (wpos.off + n) % BLOCK == wpos.off + n else (wpos.off + n) % BLOCK == 0;
      PutBytes(data[..n]);
      if n < |data| || wpos.off == BLOCK {
        ghost var before := pieces;
        Extend();
        ExtendsFurther(old(pieces), before, pieces);
      }
    }

    /** Appends `data`, whatever its size, over as many chunks as it takes. */
    method Write(data: seq<char>)
      requires Valid()
      modifies this`chunks, this`sizes, this`wpos, this`pieces, chunks[wpos.idx]
      ensures Valid() && KeepsReadable()
      ensures Content() == old(Content()) + data
      ensures data == [] ==> wpos == old(wpos)
      ensures data != [] || old(wpos).off < BLOCK ==> wpos.off == (old(wpos).off + |data|) % BLOCK
      ensures DrainedFront() <==> old(DrainedFront()) || (data != [] && rpos == old(wpos) && old(wpos).off == BLOCK)
    {
      hide Flat, Rest, Stored, Extends;
      var src := 0;
      ghost var started := false;
      ExtendsItself(pieces);
      while src < |data|
        invariant src <= |data|
        invariant Valid() && KeepsReadable()
        invariant Content() == old(Content()) + data[..src]
        invariant !started ==>
          src == 0 && wpos == old(wpos) && chunks == old(chunks) && DrainedFront() == old(DrainedFront())
        invariant started ==> data != [] && wpos.off == (old(wpos).off + src) % BLOCK
        invariant started ==> (DrainedFront() <==> old(DrainedFront()) || (rpos == old(wpos) && old(wpos).off == BLOCK))
        decreases |data| - src, if wpos.off == BLOCK then 1 else 0
      {
        ghost var before := pieces;
        var n := WriteSome(data[src..]);
        ExtendsFurther(old(pieces), before, pieces);
        assert data[..src] + data[src..][..n] == data[..src + n];
        WrapOn(old(wpos).off + src, n);
        src := src + n;
        started := true;
      }
      assert data[..src] == data;
    }

    // ------------------------------------------------------------------ reading

    /** Moves the read position k bytes on within its chunk. */
    method Skip(k: nat)
      requires Valid() && k <= ReadSize()
      modifies this`rpos
      ensures Valid() && rpos == Position(old(rpos).idx, old(rpos).off + k)
      ensures Content() == old(Content())[k..]
    {
      rpos := rpos.(off := rpos.off + k);
    }

    /** Leaves a chunk that has been read to its end. */
    method NextChunk()
      requires Valid() && ReadSize() == 0 && rpos.idx < wpos.idx
      modifies this`rpos
      ensures Valid() && rpos == Position(old(rpos).idx + 1, 0)
      ensures Content() == old(Content())
      ensures !DrainedFront()
    {
      hide Flat, Rest;
      RestNext(pieces, rpos.idx);
      rpos := Position(rpos.idx + 1, 0);
    }

    /** Drops min(n, length) bytes from the front, and the chunks read to their end. */
    method Consume(bytes: nat)
      requires Valid()
      modifies this
      ensures Valid() && Content() == old(Content())[Min(bytes, |old(Content())|)..]
      ensures rpos.idx == old(rpos).idx && wpos.off == old(wpos).off
      ensures |chunks| <= |old(chunks)| && chunks == old(chunks)[|old(chunks)| - |chunks|..]
      ensures if bytes == 0 then DrainedFront() == old(DrainedFront()) else !DrainedFront()
    {
      hide StoredIn, Extends;
      hide NonemptyBut;
      hide Flat, Rest, Stored;
      var left := bytes;
      var drop := 0;
      ghost var content := Content();
      while left > 0 && rpos.idx < wpos.idx
        invariant 0 <= left <= bytes && bytes - left <= |content| && 0 <= drop
        invariant Valid() && Content() == content[bytes - left..]
        invariant rpos.idx == old(rpos).idx + drop
        invariant bytes == 0 ==> rpos == old(rpos)
        invariant left < bytes ==> !DrainedFront()
        decreases wpos.idx - rpos.idx, left
        modifies this`rpos
      {
        ReadBeforeWrite();
        var n := Min(left, ReadSize());
        left := left - n;
        Skip(n);
        if ReadSize() == 0 {
          drop := drop + 1;
          NextChunk();
        }
      }
      ReadBeforeWrite();
      if left > 0 {
        var n := Min(left, ReadSize());
        left := left - n;
        Skip(n);
      }
      DropRead(drop);
    }

    /** What byteCount adds up: it exceeds the queue's length by the bytes in chunks
        that have been read past but not dropped. */
    method ByteCount() returns (count: nat)
      requires Valid()
      ensures count == |Content()| + |Flat(pieces[1..rpos.idx + 1])|
    {
      hide Flat, Rest, StoredIn, NonemptyBut;
      ReadBeforeWrite();
      KeptSplit(pieces, rpos);
      count := 0;
      count := count + ReadSize();
      assert pieces[1..1] == [];
      EmptyFlat();
      for i := 1 to |sizes|
        invariant count == ReadSize() + |Flat(pieces[1..i])|
      {
        assert pieces[1..i + 1] == pieces[1..i] + [pieces[i]];
        FlatCat(pieces[1..i], [pieces[i]]);
        FlatOne(pieces[i]);
        count := count + sizes[i];
      }
      assert pieces[1..|sizes|] == pieces[1..];
    }

    /** byteCount is the queue's length exactly when no chunk read past was kept. */
    lemma ByteCountExact()
      requires Valid()
      ensures Flat(pieces[1..rpos.idx + 1]) == [] <==> rpos.idx == 0 || (rpos.idx == 1 == wpos.idx && wpos.off == 0)
    {
      if rpos.idx > 0 {
        var kept := pieces[1..rpos.idx + 1];
        assert kept[0] == pieces[1] && |pieces[1]| == sizes[1];
        if rpos.idx == 1 {
          FlatOne(pieces[1]);
          assert kept == [pieces[1]];
        } else {
          NonemptyFlat(kept);
        }
      }
    }

    // ------------------------------------------------- moving and copying buffers

    /** Gives up the write chunk if it is empty; the caller mends the write position. */
    method MaybeRemoveLastChunk() returns (last: array?<char>)
      requires Stored() && |chunks| > 0 && wpos.idx == |chunks| - 1
      modifies this`chunks, this`sizes, this`pieces
      ensures Stored() && pieces == Trimmed(old(pieces))
      ensures |chunks| <= |old(chunks)| && chunks == old(chunks)[..|chunks|]
      ensures last == null <==> old(sizes)[wpos.idx] > 0
      ensures last != null ==> last == old(chunks)[wpos.idx] && last !in chunks && last.Length == BLOCK
    {
      last := null;
      if sizes[wpos.idx] == 0 {
        last := chunks[wpos.idx];
        chunks, sizes, pieces := chunks[..wpos.idx], sizes[..wpos.idx], pieces[..wpos.idx];
      }
    }

    /** Puts the other buffer's chunks behind one's own. */
    method TakeChunks(other: Buffer)
      requires Stored() && other.Stored() && Apart(this, other)
      modifies this`chunks, this`sizes, this`pieces
      ensures Stored() && other.Stored()
      ensures chunks == old(chunks) + other.chunks && pieces == old(pieces) + other.pieces
    {
      hide Flat, Rest, NonemptyBut;
      for i := 0 to |other.chunks|
        invariant Stored() && other.Stored()
        invariant chunks == old(chunks) + other.chunks[..i] && |sizes| == |chunks|
        invariant pieces == old(pieces) + other.pieces[..i]
      {
        chunks, sizes := chunks + [other.chunks[i]], sizes + [other.sizes[i]];
        pieces := pieces + [other.pieces[i]];
      }
    }

    /** An empty last chunk after a full one: the one saved, or a new one. */
    method CloseLast(saved: array?<char>)
      requires Stored() && |chunks| > 0
      requires saved != null ==> saved.Length == BLOCK && saved !in chunks
      modifies this`chunks, this`sizes, this`pieces
      ensures Stored() && pieces == old(pieces) + Closing(old(pieces))
      ensures |old(chunks)| <= |chunks| && chunks[..|old(chunks)|] == old(chunks)
      ensures forall i :: |old(chunks)| <= i < |chunks| ==> chunks[i] == saved || fresh(chunks[i])
    {
      if sizes[|sizes| - 1] == BLOCK {
        if saved == null {
          var _ := AddChunk();
        } else {
          chunks, sizes, pieces := chunks + [saved], sizes + [0], pieces + [[]];
        }
      }
    }

    /** Both buffers give up an empty last chunk. */
    method StripBoth(other: Buffer) returns (last: array?<char>, otherLast: array?<char>)
      requires Valid() && other.Valid() && Apart(this, other)
      modifies this`chunks, this`sizes, this`pieces, other`chunks, other`sizes, other`pieces
      ensures Stored() && other.Stored() && Apart(this, other)
      ensures pieces == Trimmed(old(pieces)) && other.pieces == Trimmed(old(other.pieces))
      ensures otherLast == null <==> old(other.wpos).off > 0
      ensures last != null ==> last.Length == BLOCK && last !in chunks && last !in other.chunks
      ensures otherLast != null ==>
              otherLast.Length == BLOCK && otherLast !in chunks && otherLast !in other.chunks && otherLast != last
      ensures chunks <= old(chunks) && other.chunks <= old(other.chunks) && (last != null ==> last in old(chunks))
    {
      hide Flat, Rest, Trimmed, Inside, NonemptyBut;
      last := MaybeRemoveLastChunk();
      otherLast := other.MaybeRemoveLastChunk();
    }

    /** Both buffers give up an empty last chunk, and this one takes the other's chunks. */
    method Absorb(other: Buffer) returns (otherLast: array?<char>)
      requires Valid() && other.Valid() && Apart(this, other) && other.pieces[0] != []
      modifies this`chunks, this`sizes, this`pieces, other`chunks, other`sizes, other`pieces
      ensures Stored() && other.Stored()
      ensures pieces == Joined(old(pieces), old(other.pieces))
      ensures otherLast == null <==> old(other.wpos).off > 0
      ensures otherLast != null ==> otherLast.Length == BLOCK && otherLast !in chunks
      ensures forall i :: 0 <= i < |chunks| ==>
              chunks[i] in old(chunks) || chunks[i] in old(other.chunks) || fresh(chunks[i])
    {
      hide Flat, Rest, Trimmed, Closing, Joined, Inside, NonemptyBut;
      JoinedEnd(pieces, other.pieces);
      var last;
      last, otherLast := StripBoth(other);
      TakeChunks(other);
      CloseLast(last);
    }

    /** After taking chunks over: a read position at the end of its chunk moves on, and
        the write position goes to the new end. */
    method Settle()
      requires Stored() && |chunks| > 0 && Inside(pieces, rpos) && NonemptyBut(pieces, |pieces| - 1)
      requires |pieces[rpos.idx]| == rpos.off ==> rpos.idx + 1 < |pieces|
      modifies this`rpos, this`wpos
      ensures Valid() && !DrainedFront() && Content() == Rest(pieces, old(rpos))
      ensures rpos.idx == old(rpos).idx + (if |pieces[old(rpos).idx]| == old(rpos).off then 1 else 0)
    {
      hide Flat, Rest;
      if sizes[rpos.idx] - rpos.off == 0 {
        RestNext(pieces, rpos.idx);
        rpos := Position(rpos.idx + 1, 0);
      }
      wpos := Position(|chunks| - 1, sizes[|sizes| - 1]);
    }

    /** What becomes of a buffer whose chunks were taken. */
    method GiveUp(last: array?<char>)
      requires last != null ==> last.Length == BLOCK
      modifies this
      ensures |chunks| == 1 && Stored() && rpos == wpos
      ensures Valid() <==> wpos == Position(0, 0)
      ensures Valid() ==> Content() == []
      ensures if last == null then fresh(chunks[0]) && wpos == Position(0, 0)
              else chunks[0] == last && wpos == old(wpos)
    {
      chunks, sizes, pieces := [], [], [];
      if last == null {
        wpos := AddChunk();
      } else {
        chunks, sizes, pieces := [last], [0], [[]];
      }
      rpos := wpos;
    }

    /** Takes the other's chunks over and sets both positions right. */
    method Join(other: Buffer) returns (otherLast: array?<char>)
      requires Valid() && other.Valid() && Apart(this, other) && other.pieces[0] != []
      modifies this, other`chunks, other`sizes, other`pieces
      ensures Valid() && pieces == Joined(old(pieces), old(other.pieces))
      ensures Content() == old(Content()) + Flat(old(other.pieces)) && !DrainedFront()
      ensures rpos.idx == old(rpos).idx + (if 0 < old(rpos).off == old(sizes[rpos.idx]) then 1 else 0)
      ensures otherLast == null <==> old(other.wpos).off > 0
      ensures otherLast != null ==> otherLast.Length == BLOCK && otherLast !in chunks
      ensures forall i :: 0 <= i < |chunks| ==>
              chunks[i] in old(chunks) || chunks[i] in old(other.chunks) || fresh(chunks[i])
    {
      hide Flat, Rest, Trimmed, Closing, Joined, NonemptyBut;
      ReadBeforeWrite();
      other.ReadBeforeWrite();
      JoinedNonempty(pieces, other.pieces);
      JoinedRest(pieces, other.pieces, rpos);
      JoinedDrained(pieces, other.pieces, rpos);
      otherLast := Absorb(other);
      Settle();
    }

    /** What appendFrom does when there is something to append. */
    method MoveFrom(other: Buffer)
      requires Valid() && other.Valid() && Apart(this, other) && other.pieces[0] != []
      modifies this, other
      ensures Valid() && Apart(this, other)
      ensures forall i :: 0 <= i < |chunks| ==>
              chunks[i] in old(chunks) || chunks[i] in old(other.chunks) || fresh(chunks[i])
      ensures Content() == old(Content()) + Flat(old(other.pieces)) && !DrainedFront()
      ensures pieces == Joined(old(pieces), old(other.pieces))
      ensures rpos.idx == old(rpos).idx + (if 0 < old(rpos).off == old(sizes[rpos.idx]) then 1 else 0)
      ensures other.Valid() <==> old(other.wpos).off > 0
      ensures other.Valid() ==> other.Content() == [] && other.rpos == Position(0, 0)
    {
      hide Flat, Rest, Joined, NonemptyBut, Stored;
      other.ReadBeforeWrite();
      assert other.wpos.off == 0 ==> other.wpos.idx > 0;
      var otherLast := Join(other);
      other.GiveUp(otherLast);
    }

    /** Moves all chunks of an unread buffer behind one's own. What can be read of this
        buffer is followed by all of the other's bytes; the other gives up its chunks,
        but its write position is put right only if its last chunk held something. */
    method AppendFrom(other: Buffer)
      requires Valid() && other.Valid() && Apart(this, other)
      modifies this, other
      ensures Valid() && Apart(this, other)
      ensures forall i :: 0 <= i < |chunks| ==>
              chunks[i] in old(chunks) || chunks[i] in old(other.chunks) || fresh(chunks[i])
      ensures var moved := !old(other.IsConsumed()) && old(other.Content()) != [];
              if moved then
                && Content() == old(Content()) + old(other.Content()) && !DrainedFront()
                && wpos.off == old(LastFilled(other.pieces)) % BLOCK
                && rpos.idx == old(rpos).idx + (if 0 < old(rpos).off == old(sizes[rpos.idx]) then 1 else 0)
                && (other.Valid() <==> old(other.wpos).off > 0)
                && (other.Valid() ==> other.Content() == [] && other.rpos == Position(0, 0))
              else
                && chunks == old(chunks) && Content() == old(Content()) && rpos == old(rpos) && wpos == old(wpos)
                && DrainedFront() == old(DrainedFront())
                && other.Valid() && other.Content() == old(other.Content())
    {
      hide Flat, Rest, Stored, NonemptyBut, Inside, Joined, LastFilled;
      if other.IsConsumed() { return; }
      other.UnreadContent();
      if other.ReadSize() == 0 { return; }
      other.ReadBeforeWrite();
      other.LastFits();
      JoinedLast(pieces, other.pieces);
      MoveFrom(other);
      ReadBeforeWrite();
    }

    /** In a buffer that nothing was read from, everything written can be read. */
    lemma UnreadContent()
      requires Valid() && !IsConsumed()
      ensures Content() == Flat(pieces)
      ensures ReadSize() == 0 <==> Content() == []
      ensures ReadSize() == |pieces[0]|
    {
    }

    lemma LastFits()
      requires Valid()
      ensures LastFilled(pieces) <= BLOCK
    {
    }

    /** One turn of copyFrom's loop. */
    method CopyChunk(other: Buffer, i: nat)
      requires Valid() && other.Valid() && Apart(this, other) && i < |other.chunks|
      requires i > 0 ==> wpos.off > 0
      modifies this`chunks, this`sizes, this`wpos, this`pieces, chunks[wpos.idx]
      ensures Valid() && KeepsReadable() && Apart(this, other) && other.Valid()
      ensures Content() == old(Content()) + other.pieces[i]
      ensures if i != 0 || other.sizes[0] > old(WriteSize())
              then wpos == Position(old(wpos).idx + 1, |other.pieces[i]|)
              else wpos == Position(old(wpos).idx, old(wpos).off + |other.pieces[i]|)
      ensures DrainedFront() <==>
              old(DrainedFront()) || (rpos == old(wpos) && (i != 0 || other.sizes[0] > old(WriteSize())))
    {
      hide Inside;
      hide Flat, Rest, NonemptyBut;
      ghost var mid := pieces;
      ExtendsItself(pieces);
      if i != 0 || other.sizes[i] > WriteSize() {
        Extend();
        mid := pieces;
      }
      PutBytes(other.chunks[i][..other.sizes[i]]);
      ExtendsFurther(old(pieces), mid, pieces);
    }

    /** The loop of copyFrom. */
    method CopyChunks(other: Buffer)
      requires Valid() && other.Valid() && Apart(this, other) && other.pieces[0] != []
      modifies this`chunks, this`sizes, this`wpos, this`pieces, chunks[wpos.idx]
      ensures Valid() && KeepsReadable() && Apart(this, other) && other.Valid()
      ensures Content() == old(Content()) + Flat(other.pieces)
      ensures rpos.idx < wpos.idx || rpos.off < wpos.off
      ensures wpos.off == EndOfCopy(other.pieces, old(wpos).off)
      ensures DrainedFront() <==> old(DrainedFront()) || (rpos == old(wpos) && other.sizes[0] > old(WriteSize()))
    {
      hide Flat, Rest, Stored, Extends, Inside;
      ExtendsItself(pieces);
      ghost var all := other.pieces;
      EmptyFlat();
      ReadBeforeWrite();
      other.ReadBeforeWrite();
      var i := 0;
      while i < |other.chunks|
        invariant 0 <= i <= |other.chunks| == |all|
        invariant Valid() && KeepsReadable() && Apart(this, other) && other.Valid() && other.pieces == all
        invariant Content() == old(Content()) + Flat(all[..i])
        invariant i == 0 ==> wpos == old(wpos) && chunks == old(chunks) && DrainedFront() == old(DrainedFront())
        invariant i > 0 ==> rpos.idx < wpos.idx || rpos.off < wpos.off
        invariant i > 0 ==> wpos.off == EndOfCopy(all[..i], old(wpos).off)
        invariant i > 0 && i < |all| ==> wpos.off > 0
        invariant i > 0 ==>
          (DrainedFront() <==> old(DrainedFront()) || (rpos == old(wpos) && |all[0]| > old(WriteSize())))
      {
        ghost var before := pieces;
        CopyChunk(other, i);
        ExtendsFurther(old(pieces), before, pieces);
        ReadBeforeWrite();
        FlatMore(all, i);
        i := i + 1;
      }
      assert all[..i] == all;
    }

    /** Copies all of an unread buffer, chunk by chunk, behind one's own bytes. */
    method CopyFrom(other: Buffer)
      requires Valid() && other.Valid() && Apart(this, other)
      modifies this`chunks, this`sizes, this`wpos, this`pieces, chunks[wpos.idx]
      ensures Valid() && KeepsReadable() && Apart(this, other)
      ensures other.Valid() && other.Content() == old(other.Content())
      ensures var copied := !old(other.IsConsumed()) && old(other.Content()) != [];
              if copied then
                && Content() == old(Content()) + other.Content()
                && wpos.off == EndOfCopy(other.pieces, old(wpos).off) % BLOCK < BLOCK
                && (DrainedFront() <==>
                      old(DrainedFront()) || (rpos == old(wpos) && other.sizes[0] > old(WriteSize())))
              else
                && Content() == old(Content()) && wpos == old(wpos) && DrainedFront() == old(DrainedFront())
    {
      hide Flat, Rest, Stored, Extends, Inside, NonemptyBut;
      ExtendsItself(pieces);
      if other.IsConsumed() { return; }
      other.UnreadContent();
      if other.ReadSize() == 0 { return; }
      CopyChunks(other);
      ghost var before := pieces;
      CloseFull();
      ExtendsFurther(old(pieces), before, pieces);
    }

    /** A new chunk behind a full one. */
    method CloseFull()
      requires Valid()
      modifies this`chunks, this`sizes, this`wpos, this`pieces
      ensures Valid() && KeepsReadable() && Content() == old(Content()) && wpos.off == old(wpos).off % BLOCK < BLOCK
      ensures old(chunks) <= chunks
      ensures DrainedFront() <==> old(DrainedFront()) || (rpos == old(wpos) && old(wpos).off == BLOCK)
    {
      hide Flat, Rest, Stored, Extends;
      ReadBeforeWrite();
      ExtendsItself(pieces);
      if wpos.off == BLOCK {
        Extend();
      }
    }
  }

  // ------------------------------------------------------------------------ runs

  /** What the chunks of a buffer can hold. */
  predicate WellCut(ps: seq<seq<char>>) {
    && ps != []
    && (forall i :: 0 <= i < |ps| ==> |ps[i]| <= BLOCK)
    && (forall i :: 0 <= i < |ps| - 1 ==> |ps[i]| > 0)
  }

  type Parts = ps: seq<seq<char>> | WellCut(ps) witness [[]]

  /** One use of a buffer. Put stands for reserve, a copy to writePtr and advance; the
      source of a copy or an append is given by what its chunks hold. */
  datatype Use =
    | Room(bytes: nat)
    | Put(data: seq<char>)
    | Write(data: seq<char>)
    | Copy(parts: Parts)
    | Append(parts: Parts)
    | Consume(bytes: nat)

  /** What the use does to a byte queue. */
  function QueueAfter(q: seq<char>, use: Use): seq<char> {
    match use
    case Room(_) => q
    case Put(data) => if |data| <= BLOCK then q + data else q
    case Write(data) => q + data
    case Copy(parts) => q + Flat(parts)
    case Append(parts) => q + Flat(parts)
    case Consume(bytes) => q[Min(bytes, |q|)..]
  }

  function QueueOver(uses: seq<Use>): seq<char> {
    if uses == [] then [] else QueueAfter(QueueOver(uses[..|uses| - 1]), uses[|uses| - 1])
  }

  /** What the use does to the ends of a buffer with queue q. */
  ghost function EndsAfter(q: seq<char>, e: Ends, use: Use): Ends {
    match use
    case Room(bytes) => if e.off <= BLOCK < e.off + bytes && bytes <= BLOCK then e.(off := 0) else e
    case Put(data) =>
      if |data| > BLOCK then e
      else if e.off + |data| > BLOCK then e.(off := |data|)
      else e.(off := e.off + |data|)
    case Write(data) =>
      if data == [] then e
      else Ends((e.off + |data|) % BLOCK, e.stuck || (q == [] && e.off == BLOCK))
    case Copy(parts) =>
      if parts[0] == [] then e
      else Ends(EndOfCopy(parts, e.off) % BLOCK, e.stuck || (q == [] && e.off + |parts[0]| > BLOCK))
    case Append(parts) => if parts[0] == [] then e else Ends(LastFilled(parts) % BLOCK, false)
    case Consume(bytes) => if bytes == 0 then e else e.(stuck := false)
  }

  ghost function EndsOver(uses: seq<Use>): Ends {
    if uses == [] then Ends(0, false)
    else
      var before := uses[..|uses| - 1];
      EndsAfter(QueueOver(before), EndsOver(before), uses[|uses| - 1])
  }

  /** The use appends to a chunk that has been read to its end, which is then kept. */
  ghost predicate Keeps(before: seq<Use>, use: Use) {
    use.Append? && use.parts[0] != [] && Drained(QueueOver(before), EndsOver(before))
  }

  /** How many chunks that were read to their end are kept. */
  ghost function KeptChunks(uses: seq<Use>): nat {
    if uses == [] then 0
    else
      var before := uses[..|uses| - 1];
      KeptChunks(before) + if Keeps(before, uses[|uses| - 1]) then 1 else 0
  }

  /** No chunk has been kept, or one and all has been read and the write chunk is empty. */
  ghost predicate CountsRightly(uses: seq<Use>) {
    KeptChunks(uses) == 0 || (KeptChunks(uses) == 1 && QueueOver(uses) == [] && EndsOver(uses).off == 0)
  }

  /** A new chunk with the given bytes. */
  method NextPart(b: Buffer, part: seq<char>)
    requires b.Valid() && b.wpos.off > 0 && |part| <= BLOCK
    modifies b
    ensures b.Valid() && b.rpos == old(b.rpos) && b.pieces == old(b.pieces) + [part]
    ensures |b.chunks| == |old(b.chunks)| + 1 && old(b.chunks) <= b.chunks && fresh(b.chunks[|old(b.chunks)|])
  {
    hide Flat, Rest, NonemptyBut;
    b.Extend();
    b.PutBytes(part);
    assert [] + part == part;
  }

  /** A fresh buffer, nothing of it read, whose chunks hold the given bytes. */
  method Built(parts: Parts) returns (b: Buffer)
    ensures fresh(b) && b.Valid() && !b.IsConsumed() && b.pieces == parts && b.Content() == Flat(parts)
    ensures forall i :: 0 <= i < |b.chunks| ==> fresh(b.chunks[i])
  {
    hide Flat, Rest, Buffer.Stored, NonemptyBut, Extends;
    b := new Buffer();
    b.PutBytes(parts[0]);
    assert [] + parts[0] == parts[0];
    for i := 1 to |parts|
      invariant b.Valid() && b.rpos == Position(0, 0) && b.pieces == parts[..i]
      invariant forall k :: 0 <= k < |b.chunks| ==> fresh(b.chunks[k])
    {
      b.ReadBeforeWrite();
      NextPart(b, parts[i]);
    }
    assert parts[..|parts|] == parts;
    b.UnreadContent();
  }

  /** A fresh buffer with the given bytes written to it, nothing of it read. */
  method Filled(data: seq<char>) returns (b: Buffer)
    ensures fresh(b) && b.Valid() && !b.IsConsumed() && b.Content() == data
    ensures b.wpos.off == |data| % BLOCK
    ensures forall i :: 0 <= i < |b.chunks| ==> fresh(b.chunks[i])
  {
    b := new Buffer();
    b.Write(data);
  }

  /** A producer that knows how much it wants to write. */
  method Produce(b: Buffer, data: seq<char>)
    requires b.Valid()
    modifies b, b.chunks
    ensures b.Valid() && b.Content() == QueueAfter(old(b.Content()), Put(data))
    ensures forall i :: 0 <= i < |b.chunks| ==> b.chunks[i] in old(b.chunks) || fresh(b.chunks[i])
    ensures b.rpos.idx == old(b.rpos).idx
    ensures b.EndsNow() == EndsAfter(old(b.Content()), old(b.EndsNow()), Put(data))
  {
    hide Buffer.Stored, Extends;
    hide Flat, Rest;
    var ok := b.Reserve(|data|);
    if ok {
      b.CopyIn(data);
      var _ := b.Advance(|data|);
    }
  }

  method AppendNew(b: Buffer, parts: Parts)
    requires b.Valid()
    modifies b
    ensures b.Valid() && b.Content() == QueueAfter(old(b.Content()), Append(parts))
    ensures forall i :: 0 <= i < |b.chunks| ==> b.chunks[i] in old(b.chunks) || fresh(b.chunks[i])
    ensures b.rpos.idx == old(b.rpos).idx + if parts[0] != [] && old(b.DrainedChunk()) then 1 else 0
    ensures b.EndsNow() == EndsAfter(old(b.Content()), old(b.EndsNow()), Append(parts))
  {
    hide Flat, Rest, NonemptyBut, LastFilled;
    var other := Built(parts);
    other.UnreadContent();
    b.AppendFrom(other);
  }

  method CopyNew(b: Buffer, parts: Parts)
    requires b.Valid()
    modifies b, b.chunks
    ensures b.Valid() && b.Content() == QueueAfter(old(b.Content()), Copy(parts))
    ensures forall i :: 0 <= i < |b.chunks| ==> b.chunks[i] in old(b.chunks) || fresh(b.chunks[i])
    ensures b.rpos == old(b.rpos)
    ensures b.EndsNow() == EndsAfter(old(b.Content()), old(b.EndsNow()), Copy(parts))
  {
    hide Flat, Rest, EndOfCopy;
    b.EndsTell();
    var other := Built(parts);
    other.UnreadContent();
    b.CopyFrom(other);
  }

  method WriteNew(b: Buffer, data: seq<char>)
    requires b.Valid()
    modifies b, b.chunks
    ensures b.Valid() && b.Content() == QueueAfter(old(b.Content()), Write(data))
    ensures forall i :: 0 <= i < |b.chunks| ==> b.chunks[i] in old(b.chunks) || fresh(b.chunks[i])
    ensures b.rpos == old(b.rpos)
    ensures b.EndsNow() == EndsAfter(old(b.Content()), old(b.EndsNow()), Write(data))
  {
    hide Flat, Rest, NonemptyBut, Extends, Buffer.Stored;
    b.EndsTell();
    b.Write(data);
  }

  method Apply(b: Buffer, use: Use)
    requires b.Valid()
    modifies b, b.chunks
    ensures b.Valid() && b.Content() == QueueAfter(old(b.Content()), use)
    ensures forall i :: 0 <= i < |b.chunks| ==> b.chunks[i] in old(b.chunks) || fresh(b.chunks[i])
    ensures b.EndsNow() == EndsAfter(old(b.Content()), old(b.EndsNow()), use)
    ensures b.rpos.idx == old(b.rpos).idx +
              if use.Append? && use.parts[0] != [] && old(Drained(b.Content(), b.EndsNow())) then 1 else 0
  {
    hide Flat, Rest, NonemptyBut, Extends, Buffer.Stored, EndOfCopy, LastFilled;
    b.EndsTell();
    match use
    case Room(bytes) => var _ := b.Reserve(bytes);
    case Put(data) => Produce(b, data);
    case Write(data) => WriteNew(b, data);
    case Copy(parts) => CopyNew(b, parts);
    case Append(parts) => AppendNew(b, parts);
    case Consume(bytes) => b.Consume(bytes);
  }

  /** While the read position is at the end of an inner chunk, there is something to read. */
  lemma {:induction false} StuckHasContent(uses: seq<Use>)
    ensures EndsOver(uses).stuck ==> QueueOver(uses) != []
  {
    if uses != [] {
      StuckHasContent(uses[..|uses| - 1]);
    }
  }

  /** Every sequence of uses of a fresh buffer acts on a byte queue. Where it leaves the
      write offset, whether the read position is at the end of an inner chunk, and how
      many chunks that were read are kept are functions of the uses; byteCount is the
      queue's length exactly if none is kept, or one with an empty last chunk behind. */
  method RunUses(uses: seq<Use>) returns (b: Buffer, count: nat)
    ensures fresh(b) && b.Valid() && b.Content() == QueueOver(uses)
    ensures b.wpos.off == EndsOver(uses).off && (b.DrainedFront() <==> EndsOver(uses).stuck)
    ensures b.rpos.idx == KeptChunks(uses)
    ensures count == |QueueOver(uses)| + |Flat(b.pieces[1..b.rpos.idx + 1])|
    ensures count == |QueueOver(uses)| <==> CountsRightly(uses)
  {
    hide Flat, Rest, NonemptyBut, Extends, Buffer.Stored, EndsAfter, QueueAfter, Drained;
    b := new Buffer();
    assert uses[..0] == [];
    for i := 0 to |uses|
      invariant b.Valid() && b.Content() == QueueOver(uses[..i]) && b.EndsNow() == EndsOver(uses[..i])
      invariant forall k :: 0 <= k < |b.chunks| ==> fresh(b.chunks[k])
      invariant b.rpos.idx == KeptChunks(uses[..i])
    {
      assert uses[..i + 1][..i] == uses[..i];
      Apply(b, uses[i]);
    }
    assert uses[..|uses|] == uses;
    count := b.ByteCount();
    b.ByteCountExact();
    b.EndsTell();
    b.ReadBeforeWrite();
    StuckHasContent(uses);
  }

  // ------------------------------------------------------- uses in one direction

  predicate Streaming(use: Use) { use.Room? || use.Put? || use.Consume? }

  predicate Producing(use: Use) { use.Room? || use.Write? || use.Consume? }

  /** Reserve, advance and consume alone never leave the read position at the end of an
      inner chunk, and appends do not either. */
  lemma {:induction false} StreamingMovesOn(uses: seq<Use>)
    requires forall i :: 0 <= i < |uses| ==> Streaming(uses[i]) || uses[i].Append?
    ensures !EndsOver(uses).stuck
  {
    if uses != [] {
      StreamingMovesOn(uses[..|uses| - 1]);
    }
  }

  /** Nor do reserve, write and consume. */
  lemma {:induction false} ProducingMovesOn(uses: seq<Use>)
    requires forall i :: 0 <= i < |uses| ==> Producing(uses[i])
    ensures !EndsOver(uses).stuck && EndsOver(uses).off < BLOCK
  {
    if uses != [] {
      ProducingMovesOn(uses[..|uses| - 1]);
    }
  }

  /** No chunk is kept exactly if no append finds the chunk being read at its end. */
  lemma {:induction false} KeptNone(uses: seq<Use>)
    ensures KeptChunks(uses) == 0 <==> forall i {:trigger uses[i]} :: 0 <= i < |uses| ==> !Keeps(uses[..i], uses[i])
  {
    if uses != [] {
      var n := |uses| - 1;
      KeptNone(uses[..n]);
      assert forall i {:trigger uses[i]} :: 0 <= i < n ==> uses[..n][i] == uses[i] && uses[..n][..i] == uses[..i];
    }
  }

  /** Appends happen only while there is something to read. */
  ghost predicate AppendsToNonempty(uses: seq<Use>) {
    forall i {:trigger uses[i]} :: 0 <= i < |uses| ==>
      && (Streaming(uses[i]) || uses[i].Append?)
      && (uses[i].Append? && uses[i].parts[0] != [] ==> QueueOver(uses[..i]) != [])
  }

  lemma NonemptyKeepsNone(uses: seq<Use>)
    requires AppendsToNonempty(uses)
    ensures KeptChunks(uses) == 0
  {
    forall i {:trigger uses[i]} | 0 <= i < |uses|
      ensures !Keeps(uses[..i], uses[i])
    {
      StreamingMovesOn(uses[..i]);
    }
    KeptNone(uses);
  }

  /** A fresh buffer with bytes handed over by advance, in its first chunk. */
  method Handed(data: seq<char>) returns (b: Buffer)
    requires 0 < |data| <= BLOCK
    ensures fresh(b) && b.Valid() && b.Content() == data
    ensures b.rpos == Position(0, 0) && b.wpos == Position(0, |data|) && |b.sizes| > 0 && b.sizes[0] == |data|
    ensures forall i :: 0 <= i < |b.chunks| ==> fresh(b.chunks[i])
  {
    hide Flat, Rest, NonemptyBut, Extends;
    b := new Buffer();
    b.CopyIn(data);
    var _ := b.Advance(|data|);
    assert [] + data == data;
  }

  /** The same, read to the end. */
  method Exhausted(data: seq<char>) returns (b: Buffer)
    requires 0 < |data| <= BLOCK
    ensures fresh(b) && b.Valid() && b.Content() == [] && b.DrainedChunk() && !b.DrainedFront()
    ensures b.rpos == b.wpos && b.rpos.idx == 0 && b.wpos.off == |data|
    ensures forall i :: 0 <= i < |b.chunks| ==> fresh(b.chunks[i])
  {
    hide Flat, Rest, NonemptyBut, Extends;
    b := Handed(data);
    b.Consume(|data|);
    assert b.ReadSize() == 0;
  }

  /** An append into a drained chunk makes byteCount too large. */
  method CountsTooMuch(data: seq<char>, more: seq<char>) returns (b: Buffer, count: nat)
    requires 0 < |data| <= BLOCK && more != []
    ensures b.Valid() && b.Content() == more && count > |b.Content()|
  {
    hide Flat, Rest, NonemptyBut, Extends, Buffer.Stored;
    b := Exhausted(data);
    var other := Filled(more);
    b.AppendFrom(other);
    assert [] + more == more;
    b.ReadBeforeWrite();
    assert b.rpos.idx == b.wpos.idx ==> b.ReadSize() == |more|;
    b.ByteCountExact();
    count := b.ByteCount();
  }

  /** The source of an append whose last chunk was empty is left with a write position
      outside its chunks. */
  method AppendBreaksSource(data: seq<char>) returns (b: Buffer, other: Buffer)
    requires |data| == BLOCK
    ensures b.Valid() && b.Content() == data && !other.Valid()
  {
    b := new Buffer();
    other := Filled(data);
    b.AppendFrom(other);
  }
}
