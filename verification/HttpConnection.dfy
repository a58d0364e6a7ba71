/**
  The reading side of a server connection: socket bytes into the buffer, requests out
  of it; and the printer that writes requests into a buffer.
 */
module HttpConnections {
  import opened Buffers
  import opened BufferIterators
  import opened HttpGrammar
  import opened HttpText
  import opened HttpParser

  /** Writes a field and what stands behind it. */
  method WriteField(out: Buffer, field: seq<char>, end: seq<char>)
    requires out.Valid() && end != []
    modifies out, out.chunks
    ensures out.Valid() && out.Content() == old(out.Content()) + (CStr(field) + end)
    ensures out.rpos == old(out.rpos) && out.wpos.off < BLOCK
    ensures out.DrainedFront() <==>
              old(out.DrainedFront()) || (old(out.rpos) == old(out.wpos) && old(out.wpos).off == BLOCK)
    ensures forall i :: 0 <= i < |out.chunks| ==> out.chunks[i] in old(out.chunks) || fresh(out.chunks[i])
  {
    hide Flat, Rest, Buffer.Stored, NonemptyBut, Extends, CStr;
    out.Write(CStr(field));
    out.Write(end);
    Assoc(old(out.Content()), CStr(field), end);
  }

  /** Writes a request into a buffer. */
  method ToBuffer(r: Request, out: Buffer)
    requires out.Valid()
    modifies out, out.chunks
    ensures out.Valid() && out.Content() == old(out.Content()) + Print(r) && out.wpos.off < BLOCK
    ensures Print(r) == CStr(r.verb) + " " + CStr(r.address) + " " + CStr(r.version) + "\r\n\r\n"
    ensures out.DrainedFront() <==>
              old(out.DrainedFront()) || (old(out.rpos) == old(out.wpos) && old(out.wpos).off == BLOCK)
    ensures forall i :: 0 <= i < |out.chunks| ==> out.chunks[i] in old(out.chunks) || fresh(out.chunks[i])
  {
    hide Flat, Rest, Buffer.Stored, NonemptyBut, Extends, CStr, Buffer.Valid, Buffer.Content, Print;
    WriteField(out, r.verb, " ");
    WriteField(out, r.address, " ");
    WriteField(out, r.version, "\r\n\r\n");
    PrintFields(old(out.Content()), r);
    Printed(r);
  }

  lemma Printed(r: Request)
    ensures Print(r) == CStr(r.verb) + " " + CStr(r.address) + " " + CStr(r.version) + "\r\n\r\n"
  {
  }

  lemma PrintFields(o: seq<char>, r: Request)
    ensures o + (CStr(r.verb) + " ") + (CStr(r.address) + " ") + (CStr(r.version) + "\r\n\r\n") == o + Print(r)
  {
    hide CStr;
    var a, b, c := CStr(r.verb) + " ", CStr(r.address) + " ", CStr(r.version) + "\r\n\r\n";
    Assoc(o, a, b);
    Assoc(o, a + b, c);
    Assoc(a, CStr(r.address), " ");
    Assoc(a + b, CStr(r.version), "\r\n\r\n");
  }

  /** What the next request does to the rest of a drain. */
  lemma DrainOne(s: seq<char>, past: char, done: seq<Request>)
    ensures var r := Parse(s, past);
            && (r.Malformed? ==> Drain(s, past) == Drained(false, [], s))
            && (r.Incomplete? ==> Drain(s, past) == Drained(true, [], s))
            && (r.Parsed? && r.request.address == "quit" ==>
                  Drain(s, past) == Drained(false, [r.request], s[r.used..]))
            && (r.Parsed? && r.request.address != "quit" ==>
                  var e := Drain(s[r.used..], past);
                  && Drain(s, past).ok == e.ok && Drain(s, past).left == e.left
                  && done + Drain(s, past).handled == (done + [r.request]) + e.handled)
  {
    hide Parse;
  }

  lemma DeliverOne(pieces: seq<seq<char>>, pasts: seq<char>, piece: seq<char>, past: char)
    requires |pieces| == |pasts|
    ensures Deliver(pieces + [piece], pasts + [past]) == Continue(Deliver(pieces, pasts), piece, past)
    ensures Flat(pieces + [piece]) == Flat(pieces) + piece
  {
    hide Continue, Flat;
    assert (pieces + [piece])[..|pieces|] == pieces && (pasts + [past])[..|pieces|] == pasts;
    FlatCat(pieces, [piece]);
    FlatOne(piece);
  }

  /** What draining one more piece adds to what was delivered. */
  lemma DeliverMore(pieces: seq<seq<char>>, pasts: seq<char>, piece: seq<char>, past: char,
                    handled: seq<Request>, left: seq<char>)
    requires |pieces| == |pasts| && Deliver(pieces, pasts) == Drained(true, handled, left)
    ensures var d := Drain(left + piece, past);
            Deliver(pieces + [piece], pasts + [past]) == Drained(d.ok, handled + d.handled, d.left)
    ensures Flat(pieces + [piece]) == Flat(pieces) + piece
  {
    hide Drain;
    DeliverOne(pieces, pasts, piece, past);
  }

  lemma DeliverNothing()
    ensures Deliver([], []) == Drained(true, [], [])
  {
  }

  class HTTPServerConnection {
    const input: Buffer
    var request: Request
    /** The requests given to handleRequest. */
    var handled: seq<Request>

    ghost predicate Valid()
      reads this, input, input.chunks
    {
      input.Valid() && !input.DrainedFront()
    }

    constructor (input: Buffer)
      requires input.Valid() && !input.DrainedFront()
      ensures Valid() && fresh(this) && this.input == input && handled == []
    {
      this.input := input;
      request, handled := Request([], [], []), [];
    }

    /** Answers a request; the one to quit stops the server. */
    method HandleRequest() returns (ok: bool)
      modifies this`handled
      ensures handled == old(handled) + [request]
      ensures ok <==> request.address != "quit"
    {
      handled := handled + [request];
      ok := request.address != "quit";
    }

    /** Parses one request and consumes its bytes. */
    method TakeRequest(beyond: char) returns (rc: int)
      requires Valid()
      modifies this`request, input
      ensures Valid() && PastEnd(input, beyond) == old(PastEnd(input, beyond))
      ensures |input.chunks| <= |old(input.chunks)| &&
              input.chunks == old(input.chunks)[|old(input.chunks)| - |input.chunks|..]
      ensures match Parse(old(input.Content()), old(PastEnd(input, beyond)))
              case Parsed(q, used) => rc == 0 && request == q && input.Content() == old(input.Content())[used..]
              case Incomplete => rc > 0 && input.Content() == old(input.Content())
              case Malformed => rc < 0 && input.Content() == old(input.Content())
    {
      hide Flat, Rest, Buffer.Stored, NonemptyBut, Parse;
      request := Request([], [], []);
      var it := new BufferIterator(input);
      rc, request := ParseRequest(it, beyond);
      if rc == 0 {
        input.ReadBeforeWrite();
        input.Consume(it.bytesRead);
        input.ReadBeforeWrite();
      }
    }

    /** Parses and consumes requests until there is none, or one stops the connection. */
    method ReadDone(beyond: char) returns (ok: bool)
      requires Valid()
      modifies this, input
      ensures Valid()
      ensures |input.chunks| <= |old(input.chunks)| &&
              input.chunks == old(input.chunks)[|old(input.chunks)| - |input.chunks|..]
      ensures var d := Drain(old(input.Content()), old(PastEnd(input, beyond)));
              && ok == d.ok && input.Content() == d.left && handled == old(handled) + d.handled
    {
      hide Flat, Rest, Drain, Parse, Buffer.Valid, Buffer.Content, PastEnd, Buffer.DrainedFront;
      ghost var past := PastEnd(input, beyond);
      ghost var all := Drain(input.Content(), past);
      ghost var done: seq<Request> := [];
      while true
        invariant Valid() && PastEnd(input, beyond) == past
        invariant |input.chunks| <= |old(input.chunks)| &&
                  input.chunks == old(input.chunks)[|old(input.chunks)| - |input.chunks|..]
        invariant handled == old(handled) + done
        invariant var d := Drain(input.Content(), past); all == Drained(d.ok, done + d.handled, d.left)
        decreases |input.Content()|
      {
        DrainOne(input.Content(), past, done);
        var rc := TakeRequest(beyond);
        if rc < 0 {
          return false;
        } else if rc > 0 {
          return true;
        } else {
          var served := HandleRequest();
          done := done + [request];
          if !served {
            return false;
          }
        }
      }
    }

    /** The bytes that one read gives: put where the buffer says, and handed over. */
    method SocketRead(piece: seq<char>)
      requires Valid() && 0 < |piece| <= input.WriteSize()
      modifies input, input.chunks
      ensures Valid() && input.Content() == old(input.Content()) + piece && input.chunks == old(input.chunks)
    {
      hide Flat, Rest, Buffer.Stored, NonemptyBut, Extends;
      input.CopyIn(piece);
      var _ := input.Advance(|piece|);
    }

    /** Reads a stream in whatever pieces the socket gives it, draining after each; stops
        at its end or when the connection gives up. */
    method DoRead(stream: seq<char>) returns (ok: bool, pieces: seq<seq<char>>, pasts: seq<char>)
      requires Valid() && input.Content() == [] && handled == []
      modifies this, input, input.chunks
      ensures Valid() && |pieces| == |pasts|
      ensures Flat(pieces) <= stream && (ok ==> Flat(pieces) == stream)
      ensures Drained(ok, handled, input.Content()) == Deliver(pieces, pasts)
    {
      hide Flat, Rest, Buffer.Stored, NonemptyBut, Extends, Drain, Buffer.Valid, Buffer.Content, Deliver;
      ok, pieces, pasts := true, [], [];
      EmptyFlat();
      DeliverNothing();
      var n := 0;
      while n < |stream|
        invariant Valid() && n <= |stream| && |pieces| == |pasts|
        invariant forall i :: 0 <= i < |input.chunks| ==> input.chunks[i] in old(input.chunks) || fresh(input.chunks[i])
        invariant Flat(pieces) == stream[..n]
        invariant ok && Drained(true, handled, input.Content()) == Deliver(pieces, pasts)
      {
        var _ := input.Reserve(1024);
        assert 1 <= input.WriteSize() && 1 <= |stream| - n;
        var size: nat :| 1 <= size <= input.WriteSize() && size <= |stream| - n;
        var piece := stream[n..n + size];
        ghost var left := input.Content();
        SocketRead(piece);
        var beyond: char := *;
        DeliverMore(pieces, pasts, piece, PastEnd(input, beyond), handled, left);
        assert stream[..n + size] == stream[..n] + piece;
        pieces, pasts := pieces + [piece], pasts + [PastEnd(input, beyond)];
        ok := ReadDone(beyond);
        n := n + size;
        if !ok { return; }
      }
    }
  }

  /** Requests printed one after another into a fresh buffer, wherever its chunks end,
      come out of the connection's loop as they went in. */
  method PrintAndServe(rs: seq<Request>) returns (ok: bool, c: HTTPServerConnection)
    requires forall i :: 0 <= i < |rs| ==> Printable(rs[i])
    ensures c.Valid() && Drained(ok, c.handled, c.input.Content()) == Served(rs)
  {
    hide Flat, Rest, Buffer.Stored, NonemptyBut, Extends, Printable, Print;
    var b := new Buffer();
    var n := 0;
    while n < |rs|
      invariant n <= |rs| && b.Valid() && !b.DrainedFront() && b.wpos.off < BLOCK
      invariant forall i :: 0 <= i < |b.chunks| ==> fresh(b.chunks[i])
      invariant b.Content() == PrintAll(rs[..n])
    {
      ToBuffer(rs[n], b);
      PrintOneMore(rs, n);
      n := n + 1;
    }
    assert rs[..n] == rs;
    c := new HTTPServerConnection(b);
    var beyond: char := *;
    PipelineRoundTrip(rs, PastEnd(b, beyond));
    ok := c.ReadDone(beyond);
    assert forall d: seq<Request> :: [] + d == d;
  }

  lemma {:induction false} PrintCat(rs: seq<Request>, r: Request)
    ensures PrintAll(rs + [r]) == PrintAll(rs) + Print(r)
  {
    hide Print;
    if rs == [] {
      assert PrintAll([r]) == Print(r) + PrintAll([]);
    } else {
      PrintCat(rs[1..], r);
      assert (rs + [r])[1..] == rs[1..] + [r];
    }
  }

  lemma PrintOneMore(rs: seq<Request>, n: nat)
    requires n < |rs|
    ensures PrintAll(rs[..n + 1]) == PrintAll(rs[..n]) + Print(rs[n])
  {
    PrintCat(rs[..n], rs[n]);
    assert rs[..n + 1] == rs[..n] + [rs[n]];
  }
}
