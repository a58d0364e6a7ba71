/**
  Requests as text: what the parser accepts at the front of a byte stream, what the
  printer writes, and how requests come out of a stream that arrives in pieces. The
  wire form is a subset of the request line of section 3.1.1 of RFC 7230.
 */
module HttpText {
  import opened Buffers

  datatype Request = Request(verb: seq<char>, address: seq<char>, version: seq<char>)

  /** A scanner's verdict: it got to an index, ran out of input, or saw a wrong byte. */
  datatype Scan = At(index: nat) | More | Bad

  datatype Head = Head(request: Request, index: nat) | HeadMore | HeadBad

  /** The three results of parseRequest: 0 with the bytes used, 1, and -1. */
  datatype Outcome = Parsed(request: Request, used: nat) | Incomplete | Malformed

  // ------------------------------------------------------------------- scanners

  predicate Stops(c: char) { c == ' ' || c == '\r' }

  /** Where a word that starts at i ends. */
  function WordEnd(s: seq<char>, i: nat): (j: nat)
    requires i <= |s|
    ensures i <= j <= |s|
    decreases |s| - i
  {
    if i == |s| || Stops(s[i]) then i else WordEnd(s, i + 1)
  }

  /** Where a line that starts at i ends. */
  function LineEnd(s: seq<char>, i: nat): (j: nat)
    requires i <= |s|
    ensures i <= j <= |s| && (j < |s| ==> s[j] == '\r')
    decreases |s| - i
  {
    if i == |s| || s[i] == '\r' then i else LineEnd(s, i + 1)
  }

  function ScanChar(s: seq<char>, i: nat, c: char): (r: Scan)
    requires i <= |s|
    ensures r.At? ==> r.index == i + 1 <= |s|
  {
    if i == |s| then More else if s[i] == c then At(i + 1) else Bad
  }

  function ScanNewLine(s: seq<char>, i: nat): (r: Scan)
    requires i <= |s|
    ensures r.At? ==> r.index == i + 2 <= |s|
  {
    if i + 1 >= |s| then More else if s[i] == '\r' && s[i + 1] == '\n' then At(i + 2) else Bad
  }

  /** A line and its end. Behind a '\r' that is the last byte, `past` is looked at. */
  function ScanLine(s: seq<char>, i: nat, past: char): (r: Scan)
    requires i <= |s|
    ensures r.At? ==> i < r.index <= |s|
  {
    var j := LineEnd(s, i);
    if j == |s| then More
    else if j + 1 == |s| then if past == '\n' then At(|s|) else Bad
    else if s[j + 1] == '\n' then At(j + 2) else Bad
  }

  /** Lines up to and with the first empty one. */
  function ScanHeaders(s: seq<char>, i: nat, past: char): (r: Scan)
    requires i <= |s|
    ensures r.At? ==> i < r.index <= |s|
    decreases |s| - i
  {
    var r := ScanLine(s, i, past);
    if !r.At? || LineEnd(s, i) == i then r else ScanHeaders(s, r.index, past)
  }

  /** The request line. */
  function ScanHead(s: seq<char>): (r: Head)
    ensures r.Head? ==> r.index <= |s|
  {
    var verb := WordEnd(s, 0);
    if verb == |s| then HeadMore else
    match ScanChar(s, verb, ' ')
    case More => HeadMore
    case Bad => HeadBad
    case At(slash) =>
      match ScanChar(s, slash, '/')
      case More => HeadMore
      case Bad => HeadBad
      case At(start) => ScanTarget(s, s[..verb], start)
  }

  /** The request line from behind the slash on. */
  function ScanTarget(s: seq<char>, verb: seq<char>, start: nat): (r: Head)
    requires start <= |s|
    ensures r.Head? ==> start <= r.index <= |s|
  {
    var address := WordEnd(s, start);
    if address == |s| then HeadMore else
    match ScanChar(s, address, ' ')
    case More => HeadMore
    case Bad => HeadBad
    case At(mid) =>
      var version := WordEnd(s, mid);
      if version == |s| then HeadMore else
      match ScanNewLine(s, version)
      case More => HeadMore
      case Bad => HeadBad
      case At(end) => Head(Request(verb, s[start..address], s[mid..version]), end)
  }

  /** What parseRequest makes of a stream, when the byte behind it happens to be `past`. */
  function Parse(s: seq<char>, past: char): (r: Outcome)
    ensures r.Parsed? ==> 0 < r.used <= |s|
  {
    match ScanHead(s)
    case HeadMore => Incomplete
    case HeadBad => Malformed
    case Head(request, i) =>
      match ScanHeaders(s, i, past)
      case More => Incomplete
      case Bad => Malformed
      case At(j) => Parsed(request, j)
  }

  // ------------------------------------------------------ more input changes nothing

  /** The header scan comes to a '\r' that is the last byte it has. */
  predicate HeadersLookPast(s: seq<char>, i: nat)
    requires i <= |s|
    decreases |s| - i
  {
    var j := LineEnd(s, i);
    if j == |s| then false
    else if j + 1 == |s| then true
    else s[j + 1] == '\n' && j != i && HeadersLookPast(s, j + 2)
  }

  predicate LooksPast(s: seq<char>) {
    ScanHead(s).Head? && HeadersLookPast(s, ScanHead(s).index)
  }

  predicate EndsInCr(s: seq<char>) { s != [] && s[|s| - 1] == '\r' }

  lemma {:induction false} WordEndStable(s: seq<char>, t: seq<char>, i: nat)
    requires i <= |s| && WordEnd(s, i) < |s|
    ensures WordEnd(s + t, i) == WordEnd(s, i)
    decreases |s| - i
  {
    if !Stops(s[i]) {
      WordEndStable(s, t, i + 1);
    }
  }

  lemma {:induction false} LineEndStable(s: seq<char>, t: seq<char>, i: nat)
    requires i <= |s| && LineEnd(s, i) < |s|
    ensures LineEnd(s + t, i) == LineEnd(s, i)
    decreases |s| - i
  {
    if s[i] != '\r' {
      LineEndStable(s, t, i + 1);
    }
  }

  lemma TargetStable(s: seq<char>, t: seq<char>, verb: seq<char>, start: nat)
    requires start <= |s| && !ScanTarget(s, verb, start).HeadMore?
    ensures ScanTarget(s + t, verb, start) == ScanTarget(s, verb, start)
  {
    var address := WordEnd(s, start);
    WordEndStable(s, t, start);
    if ScanChar(s, address, ' ').At? {
      WordEndStable(s, t, address + 1);
    }
  }

  lemma HeadStable(s: seq<char>, t: seq<char>)
    requires !ScanHead(s).HeadMore?
    ensures ScanHead(s + t) == ScanHead(s)
  {
    hide ScanTarget;
    var verb := WordEnd(s, 0);
    WordEndStable(s, t, 0);
    assert (s + t)[..verb] == s[..verb];
    if ScanChar(s, verb, ' ').At? && ScanChar(s, verb + 1, '/').At? {
      TargetStable(s, t, s[..verb], verb + 2);
    }
  }

  lemma {:induction false} HeadersStable(s: seq<char>, t: seq<char>, i: nat, p: char, q: char)
    requires i <= |s| && !HeadersLookPast(s, i) && !ScanHeaders(s, i, p).More?
    ensures ScanHeaders(s + t, i, q) == ScanHeaders(s, i, p)
    decreases |s| - i
  {
    var j := LineEnd(s, i);
    LineEndStable(s, t, i);
    if s[j + 1] == '\n' && j != i {
      HeadersStable(s, t, j + 2, p, q);
    }
  }

  /** A verdict reached without looking past the input stands whatever arrives later. */
  lemma ParseStable(s: seq<char>, t: seq<char>, p: char, q: char)
    requires !LooksPast(s) && !Parse(s, p).Incomplete?
    ensures Parse(s + t, q) == Parse(s, p)
  {
    hide ScanHead, ScanHeaders, HeadersLookPast;
    HeadStable(s, t);
    if ScanHead(s).Head? {
      HeadersStable(s, t, ScanHead(s).index, p, q);
    }
  }

  lemma {:induction false} HeadersPast(s: seq<char>, i: nat, p: char, q: char)
    requires i <= |s|
    ensures !HeadersLookPast(s, i) ==> ScanHeaders(s, i, p) == ScanHeaders(s, i, q)
    ensures HeadersLookPast(s, i) ==> (ScanHeaders(s, i, p).Bad? <==> p != '\n')
    decreases |s| - i
  {
    var j := LineEnd(s, i);
    if j + 1 < |s| && s[j + 1] == '\n' && j != i {
      HeadersPast(s, j + 2, p, q);
    } else if j + 1 == |s| && j != i {
      assert LineEnd(s, |s|) == |s|;
      assert p == '\n' ==> ScanHeaders(s, i, p) == ScanHeaders(s, |s|, p) == More;
    }
  }

  /** The parser's verdict depends on a byte it was not given exactly when it comes to
      a '\r' that is the last byte. */
  lemma PastMatters(s: seq<char>, p: char, q: char)
    requires p == '\n' != q
    ensures LooksPast(s) <==> Parse(s, p) != Parse(s, q)
    ensures LooksPast(s) ==> Parse(s, q) == Malformed && !Parse(s, p).Malformed?
  {
    hide ScanHead, ScanHeaders, HeadersLookPast;
    if ScanHead(s).Head? {
      HeadersPast(s, ScanHead(s).index, p, q);
      HeadersPast(s, ScanHead(s).index, q, p);
    }
  }

  lemma PastFree(s: seq<char>, p: char, q: char)
    requires !LooksPast(s)
    ensures Parse(s, p) == Parse(s, q)
  {
    hide Parse, LooksPast;
    if p != '\n' { PastMatters(s, '\n', p); }
    if q != '\n' { PastMatters(s, '\n', q); }
  }

  lemma {:induction false} NoCrNoPast(s: seq<char>, i: nat)
    requires i <= |s| && !EndsInCr(s)
    ensures !HeadersLookPast(s, i)
    decreases |s| - i
  {
    var j := LineEnd(s, i);
    if j + 1 < |s| && s[j + 1] == '\n' && j != i {
      NoCrNoPast(s, j + 2);
    }
  }

  lemma LooksPastEndsInCr(s: seq<char>)
    requires !EndsInCr(s)
    ensures !LooksPast(s)
  {
    if ScanHead(s).Head? {
      NoCrNoPast(s, ScanHead(s).index);
    }
  }

  // ------------------------------------------------ when the last byte is a '\r'

  lemma {:induction false} WordEndPrefix(s: seq<char>, t: seq<char>, i: nat)
    requires i <= |s| && WordEnd(s + t, i) < |s|
    ensures WordEnd(s, i) == WordEnd(s + t, i)
    decreases |s| - i
  {
    if !Stops(s[i]) {
      WordEndPrefix(s, t, i + 1);
    }
  }

  lemma TargetPrefix(s: seq<char>, t: seq<char>, verb: seq<char>, start: nat)
    requires start <= |s| && ScanTarget(s + t, verb, start).Head? && ScanTarget(s + t, verb, start).index <= |s|
    ensures ScanTarget(s, verb, start) == ScanTarget(s + t, verb, start)
  {
    var address := WordEnd(s + t, start);
    WordEndPrefix(s, t, start);
    WordEndPrefix(s, t, address + 1);
  }

  /** The request line is judged by its own bytes alone. */
  lemma HeadPrefix(s: seq<char>, t: seq<char>)
    requires ScanHead(s + t).Head? && ScanHead(s + t).index <= |s|
    ensures ScanHead(s) == ScanHead(s + t)
  {
    hide ScanTarget;
    var verb := WordEnd(s + t, 0);
    WordEndPrefix(s, t, 0);
    assert (s + t)[..verb] == s[..verb];
    TargetPrefix(s, t, s[..verb], verb + 2);
  }

  lemma {:induction false} LineEndAfter(t: seq<char>, i: nat)
    requires i <= |t|
    ensures LineEnd(t + ['\r'], i) == LineEnd(t, i)
    decreases |t| - i
  {
    if i < |t| && t[i] != '\r' {
      LineEndAfter(t, i + 1);
    }
  }

  lemma {:induction false} HeadersLookPastIff(t: seq<char>, i: nat, p: char)
    requires i <= |t| && p != '\n'
    ensures HeadersLookPast(t + ['\r'], i) <==> ScanHeaders(t, i, p).More?
    decreases |t| - i
  {
    var j := LineEnd(t, i);
    LineEndAfter(t, i);
    if j + 1 < |t| && t[j + 1] == '\n' && j != i {
      HeadersLookPastIff(t, j + 2, p);
    }
  }

  /** The parser comes to look past its input exactly when the last byte is a '\r'
      and what precedes it is a request line with unfinished headers. */
  lemma LooksPastIff(s: seq<char>, p: char)
    requires p != '\n'
    ensures LooksPast(s) <==>
              && EndsInCr(s)
              && ScanHead(s[..|s| - 1]).Head? && Parse(s[..|s| - 1], p).Incomplete?
  {
    if !EndsInCr(s) {
      LooksPastEndsInCr(s);
    } else {
      hide ScanHead, ScanHeaders, HeadersLookPast;
      var t := s[..|s| - 1];
      assert s == t + ['\r'];
      if ScanHead(t).Head? {
        HeadStable(t, ['\r']);
        HeadersLookPastIff(t, ScanHead(t).index, p);
      } else if LooksPast(s) {
        LookPastAhead(s, ScanHead(s).index);
        HeadPrefix(t, ['\r']);
      }
    }
  }

  lemma LookPastAhead(s: seq<char>, i: nat)
    requires i <= |s| && HeadersLookPast(s, i)
    ensures i < |s|
  {
  }

  // -------------------------------------------------- prefixes of a valid request

  /** One whole request and nothing else, judged without looking past it. */
  predicate Whole(v: seq<char>) {
    !LooksPast(v) && Parse(v, ' ').Parsed? && Parse(v, ' ').used == |v|
  }

  lemma {:induction false} HeadersCut(v: seq<char>, n: nat, i: nat, p: char)
    requires i <= n < |v| && HeadersLookPast(v[..n], i) && ScanHeaders(v, i, p) == At(|v|)
    ensures ScanHeaders(v[..n], i, '\n').More? <==> n + 1 < |v|
    decreases n - i
  {
    var w := v[..n];
    var j := LineEnd(w, i);
    LineEndStable(w, v[n..], i);
    assert w + v[n..] == v;
    if j + 1 == n {
      assert LineEnd(w, n) == n;
    } else {
      HeadersCut(v, n, j + 2, p);
    }
  }

  /** A strict prefix of a request is reported as incomplete, exactly unless the parser
      comes to look past it; then it depends on the byte that happens to be there. */
  lemma PrefixIncomplete(v: seq<char>, n: nat, q: char)
    requires Whole(v) && n < |v|
    ensures Parse(v[..n], q).Incomplete? <==> !LooksPast(v[..n]) || (q == '\n' && n + 1 < |v|)
  {
    hide ScanHead, ScanHeaders, HeadersLookPast;
    var w := v[..n];
    assert w + v[n..] == v;
    if !LooksPast(w) {
      if !Parse(w, q).Incomplete? {
        ParseStable(w, v[n..], q, ' ');
      }
    } else {
      PastMatters(w, '\n', if q == '\n' then ' ' else q);
      HeadStable(w, v[n..]);
      if q == '\n' {
        LookPastAhead(w, ScanHead(w).index);
        HeadersCut(v, n, ScanHead(w).index, ' ');
      }
    }
  }

  // ------------------------------------------------------------------- delivery

  /** What readDone does: whether to go on reading, the requests handled, and the
      bytes not consumed. A request for "quit" stops the server. */
  datatype Drained = Drained(ok: bool, handled: seq<Request>, left: seq<char>)

  function Drain(s: seq<char>, past: char): (d: Drained)
    decreases |s|
  {
    match Parse(s, past)
    case Malformed => Drained(false, [], s)
    case Incomplete => Drained(true, [], s)
    case Parsed(request, used) =>
      if request.address == "quit" then Drained(false, [request], s[used..])
      else Prepend(request, Drain(s[used..], past))
  }

  function Prepend(request: Request, d: Drained): Drained {
    d.(handled := [request] + d.handled)
  }

  /** Bytes drained in two goes. */
  function Continue(d: Drained, more: seq<char>, past: char): Drained {
    if !d.ok then d.(left := d.left + more)
    else var e := Drain(d.left + more, past); Drained(e.ok, d.handled + e.handled, e.left)
  }

  /** The pieces of a stream, each drained as it comes. What comes after the connection
      gave up is counted as not consumed. */
  function Deliver(pieces: seq<seq<char>>, pasts: seq<char>): Drained
    requires |pieces| == |pasts|
  {
    var n := |pieces|;
    if n == 0 then Drained(true, [], [])
    else Continue(Deliver(pieces[..n - 1], pasts[..n - 1]), pieces[n - 1], pasts[n - 1])
  }

  lemma EndsInCrSuffix(s: seq<char>, n: nat)
    requires n <= |s| && !EndsInCr(s)
    ensures !EndsInCr(s[n..])
  {
  }

  /** Draining can be interrupted anywhere but behind a '\r'. */
  lemma {:induction false} DrainContinues(s: seq<char>, t: seq<char>, p: char, q: char)
    requires !EndsInCr(s)
    ensures Drain(s + t, q) == Continue(Drain(s, p), t, q)
    decreases |s|
  {
    hide Parse, LooksPast;
    LooksPastEndsInCr(s);
    match Parse(s, p)
    case Malformed =>
      ParseStable(s, t, p, q);
    case Incomplete =>
      assert Continue(Drain(s, p), t, q) == Drain(s + t, q);
    case Parsed(request, used) =>
      ParseStable(s, t, p, q);
      assert (s + t)[used..] == s[used..] + t;
      if request.address != "quit" {
        EndsInCrSuffix(s, used);
        DrainContinues(s[used..], t, p, q);
        PrependContinue(request, Drain(s[used..], p), t, q);
      }
  }

  lemma PrependContinue(request: Request, d: Drained, t: seq<char>, q: char)
    ensures Prepend(request, Continue(d, t, q)) == Continue(Prepend(request, d), t, q)
  {
    hide Drain;
    assert forall e: seq<Request> :: [request] + (d.handled + e) == ([request] + d.handled) + e;
  }

  /** The byte behind a stream that does not end in '\r' plays no part. */
  lemma {:induction false} DrainPast(s: seq<char>, p: char, q: char)
    requires !EndsInCr(s)
    ensures Drain(s, p) == Drain(s, q)
    decreases |s|
  {
    hide Parse, LooksPast;
    LooksPastEndsInCr(s);
    PastFree(s, p, q);
    if Parse(s, p).Parsed? {
      EndsInCrSuffix(s, Parse(s, p).used);
      DrainPast(s[Parse(s, p).used..], p, q);
    }
  }

  lemma {:induction false} FlatEnd(pieces: seq<seq<char>>)
    requires forall i :: 0 <= i < |pieces| ==> !EndsInCr(pieces[i])
    ensures !EndsInCr(Flat(pieces))
  {
    if pieces != [] {
      FlatEnd(pieces[1..]);
    }
  }

  /** A stream that arrives in pieces, none ending in '\r', is handled as if it had
      arrived at once, whatever bytes the parser may have looked at past each piece. */
  lemma {:induction false} DeliveryIndependence(pieces: seq<seq<char>>, pasts: seq<char>, q: char)
    requires |pieces| == |pasts|
    requires forall i :: 0 <= i < |pieces| ==> !EndsInCr(pieces[i])
    ensures Deliver(pieces, pasts) == Drain(Flat(pieces), q)
    decreases |pieces|
  {
    var n := |pieces|;
    if n == 0 {
      EmptyFlat();
    } else {
      hide Drain, Flat, Continue;
      var init := pieces[..n - 1];
      assert pieces == init + [pieces[n - 1]];
      FlatCat(init, [pieces[n - 1]]);
      FlatOne(pieces[n - 1]);
      FlatEnd(init);
      var p := pasts[n - 1];
      DeliveryIndependence(init, pasts[..n - 1], p);
      DrainContinues(Flat(init), pieces[n - 1], p, p);
      FlatEnd(pieces);
      DrainPast(Flat(pieces), p, q);
    }
  }

  /** A request cut in two comes out whole, with nothing left, exactly unless the
      first part makes the parser look past it; then it depends on the byte there. */
  lemma CutRequest(v: seq<char>, n: nat, q: char)
    requires Whole(v) && n < |v| && Parse(v, ' ').request.address != "quit"
    ensures Deliver([v[..n], v[n..]], [q, ' ']) == Drained(true, [Parse(v, ' ').request], [])
       <==> !LooksPast(v[..n]) || (q == '\n' && n + 1 < |v|)
  {
    hide Parse, LooksPast, Whole, Drain;
    var w := v[..n];
    var d := Drain(w, q);
    PrefixIncomplete(v, n, q);
    assert w + v[n..] == v && [w, v[n..]][..1] == [w] && [q, ' '][..1] == [q] && [w][..0] == [];
    DeliverTwo(w, v[n..], q);
    if Parse(w, q).Incomplete? {
      DrainWhole(v);
      DrainIncomplete(w, q);
    } else {
      CutBadly(v, n, q);
    }
  }

  lemma DeliverTwo(a: seq<char>, b: seq<char>, q: char)
    ensures Deliver([a, b], [q, ' ']) == Continue(Drain(a, q), b, ' ')
  {
    hide Drain;
    assert [a, b][..1] == [a] && [q, ' '][..1] == [q] && [a][..0] == [] && [q][..0] == [];
    assert [] + a == a;
    assert Deliver([a], [q]) == Continue(Drained(true, [], []), a, q) == Drain(a, q);
  }

  lemma DrainIncomplete(s: seq<char>, q: char)
    requires Parse(s, q).Incomplete?
    ensures Drain(s, q) == Drained(true, [], s)
  {
  }

  lemma DrainWhole(v: seq<char>)
    requires Whole(v) && Parse(v, ' ').request.address != "quit"
    ensures Drain(v, ' ') == Drained(true, [Parse(v, ' ').request], [])
  {
    hide LooksPast;
    DrainEmpty(' ');
  }

  lemma DrainEmpty(p: char)
    ensures Drain([], p) == Drained(true, [], [])
  {
  }

  lemma {:induction false} HeadersTaken(s: seq<char>, i: nat)
    requires i <= |s| && HeadersLookPast(s, i)
    ensures ScanHeaders(s, i, '\n').At? ==> ScanHeaders(s, i, '\n').index == |s|
    decreases |s| - i
  {
    var j := LineEnd(s, i);
    if j + 1 < |s| {
      HeadersTaken(s, j + 2);
    } else if j != i {
      assert LineEnd(s, |s|) == |s|;
      assert ScanHeaders(s, |s|, '\n').More?;
    }
  }

  lemma OneByte(c: char, p: char)
    ensures Drain([c], p).left == [c]
  {
    assert WordEnd([c], 0) == if Stops(c) then 0 else WordEnd([c], 1);
    assert !ScanHead([c]).Head?;
  }

  /** The parser gives up on a prefix, or takes it for all of the request and leaves the
      last byte to the next one. */
  lemma CutBadly(v: seq<char>, n: nat, q: char)
    requires Whole(v) && n < |v| && Parse(v, ' ').request.address != "quit"
    requires LooksPast(v[..n]) && !Parse(v[..n], q).Incomplete?
    ensures Continue(Drain(v[..n], q), v[n..], ' ') != Drained(true, [Parse(v, ' ').request], [])
  {
    hide ScanHead, ScanHeaders, HeadersLookPast;
    var w := v[..n];
    PrefixIncomplete(v, n, q);
    if q == '\n' {
      PastMatters(w, '\n', ' ');
      HeadersTaken(w, ScanHead(w).index);
      assert w + v[n..] == v;
      HeadStable(w, v[n..]);
      DrainEmpty(q);
      OneByte(v[n], ' ');
      assert w[n..] + v[n..] == [v[n]];
    } else {
      PastMatters(w, '\n', q);
    }
  }
}
