/**
  The request parser over a buffer's iterator, the printer into a buffer, and the
  loops of a server connection that read, parse and consume.
 */
module HttpParser {
  import opened Buffers
  import opened BufferIterators
  import opened HttpGrammar
  import opened HttpText

  /** How a parsing step ends: normally, or by one of the parser's two exceptions. */
  datatype Signal = Fine | IncompleteInput | ErrorInRequest

  /** The iterator stands at a byte of its buffer or at the end. */
  ghost predicate Ready(it: BufferIterator)
    reads it, it.buffer, it.buffer.chunks
  {
    it.Valid() && it.Settled()
  }

  function Verdict(r: Scan): Signal {
    match r
    case At(_) => Fine
    case More => IncompleteInput
    case Bad => ErrorInRequest
  }

  /** The longest word without a blank or a '\r', neither of which is stepped over. */
  method ParseString(it: BufferIterator, beyond: char) returns (res: seq<char>, signal: Signal)
    requires Ready(it)
    modifies it
    ensures Ready(it)
    ensures var s := it.buffer.Content(); var i := old(it.bytesRead); var j := WordEnd(s, i);
            && res == s[i..j] && it.bytesRead == j
            && signal == (if j < |s| then Fine else IncompleteInput)
    ensures var s := it.buffer.Content(); var i := old(it.bytesRead); var j := i + |res|;
            && j <= |s| && res == s[i..j] && ' ' !in res && '\r' !in res
            && (j < |s| ==> s[j] == ' ' || s[j] == '\r')
  {
    hide Flat, Rest, WordEnd;
    WordIs(it.buffer.Content(), it.bytesRead);
    ghost var s, i := it.buffer.Content(), it.bytesRead;
    res := [];
    if it.Eob() { return res, IncompleteInput; }
    while !it.Eob()
      invariant Ready(it) && i <= it.bytesRead <= |s|
      invariant WordEnd(s, it.bytesRead) == WordEnd(s, i)
      invariant res == s[i..it.bytesRead]
      decreases |s| - it.bytesRead
    {
      WordStep(s, it.bytesRead);
      var c := it.GetChar(beyond);
      if c == ' ' { break; }
      if c == '\r' { break; }
      res := res + [c];
      it.Next();
    }
    if it.Eob() { return res, IncompleteInput; }
    return res, Fine;
  }

  /** Where a word ends, and that it goes on otherwise. */
  lemma WordStep(s: seq<char>, i: nat)
    requires i < |s|
    ensures WordEnd(s, i) == if s[i] == ' ' || s[i] == '\r' then i else WordEnd(s, i + 1)
    ensures WordEnd(s, |s|) == |s|
  {
  }

  lemma WordIs(s: seq<char>, i: nat)
    requires i <= |s|
    ensures ' ' !in s[i..WordEnd(s, i)] && '\r' !in s[i..WordEnd(s, i)]
    ensures WordEnd(s, i) < |s| ==> s[WordEnd(s, i)] == ' ' || s[WordEnd(s, i)] == '\r'
  {
    var j := WordEnd(s, i);
    if j < |s| {
      WordEndIff(s, i, j);
    } else {
      WordEndTail(s, i);
      assert s[i..j] == s[i..];
    }
  }

  /** A line and the two bytes that end it. The byte behind the '\r' is looked at even
      if there is none. */
  method ParseLine(it: BufferIterator, beyond: char) returns (res: seq<char>, signal: Signal)
    requires Ready(it)
    modifies it
    ensures Ready(it)
    ensures var s := it.buffer.Content(); var i := old(it.bytesRead);
            var r := ScanLine(s, i, PastEnd(it.buffer, beyond));
            && res == s[i..LineEnd(s, i)] && signal == Verdict(r)
            && (r.At? ==> it.bytesRead == r.index)
  {
    hide Buffer.Stored, NonemptyBut;
    hide Flat, Rest;
    ghost var s, i := it.buffer.Content(), it.bytesRead;
    res := [];
    if it.Eob() { return res, IncompleteInput; }
    while !it.Eob()
      invariant Ready(it) && i <= it.bytesRead <= |s|
      invariant LineEnd(s, it.bytesRead) == LineEnd(s, i)
      invariant res == s[i..it.bytesRead]
      decreases |s| - it.bytesRead
    {
      var c := it.GetChar(beyond);
      if c == '\r' {
        it.Next();
        if it.GetChar(beyond) == '\n' {
          it.Next();
          return res, Fine;
        } else {
          return res, ErrorInRequest;
        }
      }
      res := res + [c];
      it.Next();
    }
    return res, IncompleteInput;
  }

  method SkipChar(it: BufferIterator, skip: char, beyond: char) returns (signal: Signal)
    requires Ready(it)
    modifies it
    ensures Ready(it)
    ensures var r := ScanChar(it.buffer.Content(), old(it.bytesRead), skip);
            signal == Verdict(r) && (r.At? ==> it.bytesRead == r.index)
  {
    hide Flat, Rest;
    if it.Eob() { return IncompleteInput; }
    var c := it.GetChar(beyond);
    if c != skip { return ErrorInRequest; }
    it.Next();
    return Fine;
  }

  method SkipNewLine(it: BufferIterator, beyond: char) returns (signal: Signal)
    requires Ready(it)
    modifies it
    ensures Ready(it)
    ensures var r := ScanNewLine(it.buffer.Content(), old(it.bytesRead));
            signal == Verdict(r) && (r.At? ==> it.bytesRead == r.index)
  {
    hide Flat, Rest;
    if it.Eob() { return IncompleteInput; }
    var first := it.GetChar(beyond);
    it.Next();
    if it.Eob() { return IncompleteInput; }
    var second := it.GetChar(beyond);
    if first != '\r' || second != '\n' { return ErrorInRequest; }
    it.Next();
    return Fine;
  }

  /** The request line. */
  method ParseHead(it: BufferIterator, beyond: char) returns (request: Request, signal: Signal)
    requires Ready(it) && it.bytesRead == 0
    modifies it
    ensures Ready(it)
    ensures match ScanHead(it.buffer.Content())
            case HeadMore => signal == IncompleteInput
            case HeadBad => signal == ErrorInRequest
            case Head(q, i) => signal == Fine && request == q && it.bytesRead == i
  {
    hide Buffer.Stored, NonemptyBut;
    hide Flat, Rest, WordEnd, ScanTarget;
    request := Request([], [], []);
    var verb, address, version;
    verb, signal := ParseString(it, beyond);
    if !signal.Fine? { return; }
    request := request.(verb := verb);
    signal := SkipChar(it, ' ', beyond);
    if !signal.Fine? { return; }
    signal := SkipChar(it, '/', beyond);
    if !signal.Fine? { return; }
    address, version, signal := ParseTarget(it, beyond, verb);
    request := request.(address := address, version := version);
  }

  /** The request line from behind the slash on. */
  method ParseTarget(it: BufferIterator, beyond: char, ghost verb: seq<char>)
    returns (address: seq<char>, version: seq<char>, signal: Signal)
    requires Ready(it)
    modifies it
    ensures Ready(it)
    ensures match ScanTarget(it.buffer.Content(), verb, old(it.bytesRead))
            case HeadMore => signal == IncompleteInput
            case HeadBad => signal == ErrorInRequest
            case Head(q, i) => signal == Fine && Request(verb, address, version) == q && it.bytesRead == i
  {
    hide Buffer.Stored, NonemptyBut;
    hide Flat, Rest, WordEnd;
    version := [];
    address, signal := ParseString(it, beyond);
    if !signal.Fine? { return; }
    signal := SkipChar(it, ' ', beyond);
    if !signal.Fine? { return; }
    version, signal := ParseString(it, beyond);
    if !signal.Fine? { return; }
    signal := SkipNewLine(it, beyond);
  }

  /** Lines until an empty one. */
  method ParseHeaders(it: BufferIterator, beyond: char) returns (signal: Signal)
    requires Ready(it)
    modifies it
    ensures Ready(it)
    ensures var r := ScanHeaders(it.buffer.Content(), old(it.bytesRead), PastEnd(it.buffer, beyond));
            signal == Verdict(r) && (r.At? ==> it.bytesRead == r.index)
  {
    hide Flat, Rest, LineEnd, ScanLine;
    ghost var s, past := it.buffer.Content(), PastEnd(it.buffer, beyond);
    ghost var r := ScanHeaders(s, it.bytesRead, past);
    while true
      invariant Ready(it) && it.bytesRead <= |s|
      invariant ScanHeaders(s, it.bytesRead, past) == r
      decreases |s| - it.bytesRead
    {
      var dummy;
      dummy, signal := ParseLine(it, beyond);
      if !signal.Fine? { return; }
      if |dummy| == 0 { return; }
    }
  }

  /** 0 with the request, 1 for insufficient input, -1 for a wrong byte. */
  method ParseRequest(it: BufferIterator, beyond: char) returns (rc: int, request: Request)
    requires Ready(it) && it.bytesRead == 0
    modifies it
    ensures Ready(it)
    ensures match Parse(it.buffer.Content(), PastEnd(it.buffer, beyond))
            case Parsed(q, used) => rc == 0 && request == q && it.bytesRead == used
            case Incomplete => rc == 1
            case Malformed => rc == -1
  {
    hide Flat, Rest, ScanHead, ScanHeaders;
    var signal;
    request, signal := ParseHead(it, beyond);
    if signal.Fine? {
      signal := ParseHeaders(it, beyond);
    }
    rc := match signal case Fine => 0 case IncompleteInput => 1 case ErrorInRequest => -1;
  }
}
