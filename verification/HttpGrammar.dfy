/**
  The language of requests, written out: which texts the parser accepts, which it
  takes for the beginning of one, and how a stream falls apart into requests.
 */
module HttpGrammar {
  import opened Buffers
  import opened HttpText

  // -------------------------------------------------------------------- the grammar

  /** Bytes that the parser takes for one word. */
  predicate Plain(w: seq<char>) { ' ' !in w && '\r' !in w }

  predicate PlainRequest(r: Request) { Plain(r.verb) && Plain(r.address) && Plain(r.version) }

  function RequestLine(r: Request): seq<char> {
    r.verb + (" /" + (r.address + (" " + (r.version + "\r\n"))))
  }

  /** Header lines, each with its end. */
  function Lines(ls: seq<seq<char>>): seq<char> {
    if ls == [] then [] else ls[0] + ("\r\n" + Lines(ls[1..]))
  }

  predicate HeaderLines(ls: seq<seq<char>>) {
    forall i :: 0 <= i < |ls| ==> ls[i] != [] && '\r' !in ls[i]
  }

  /** A whole request: the request line, the header lines and an empty line. */
  function Text(r: Request, ls: seq<seq<char>>): seq<char> {
    RequestLine(r) + (Lines(ls) + "\r\n")
  }

  // ------------------------------------------------------------------ words and lines

  lemma {:induction false} WordEndIff(s: seq<char>, i: nat, k: nat)
    requires i <= k < |s|
    ensures WordEnd(s, i) == k <==> Plain(s[i..k]) && (s[k] == ' ' || s[k] == '\r')
    decreases k - i
  {
    if i < k {
      assert s[i..k] == [s[i]] + s[i + 1..k];
      if s[i] != ' ' && s[i] != '\r' {
        WordEndIff(s, i + 1, k);
      }
    }
  }

  lemma {:induction false} WordEndTail(s: seq<char>, i: nat)
    requires i <= |s|
    ensures WordEnd(s, i) == |s| <==> Plain(s[i..])
    decreases |s| - i
  {
    if i < |s| {
      assert s[i..] == [s[i]] + s[i + 1..];
      if s[i] != ' ' && s[i] != '\r' {
        WordEndTail(s, i + 1);
      }
    }
  }

  lemma {:induction false} LineEndIff(s: seq<char>, i: nat, k: nat)
    requires i <= k < |s|
    ensures LineEnd(s, i) == k <==> '\r' !in s[i..k] && s[k] == '\r'
    decreases k - i
  {
    if i < k {
      assert s[i..k] == [s[i]] + s[i + 1..k];
      if s[i] != '\r' {
        LineEndIff(s, i + 1, k);
      }
    }
  }

  lemma {:induction false} LineEndTail(s: seq<char>, i: nat)
    requires i <= |s|
    ensures LineEnd(s, i) == |s| <==> '\r' !in s[i..]
    decreases |s| - i
  {
    if i < |s| {
      assert s[i..] == [s[i]] + s[i + 1..];
      if s[i] != '\r' {
        LineEndTail(s, i + 1);
      }
    }
  }

  // ----------------------------------------------------------------- the request line

  /** What begins with w goes on behind it. */
  lemma Behind(s: seq<char>, i: nat, w: seq<char>, z: seq<char>)
    requires i <= |s|
    ensures w + z <= s[i..] <==> i + |w| <= |s| && s[i..i + |w|] == w && z <= s[i + |w|..]
  {
    if i + |w| <= |s| {
      assert s[i..][|w|..] == s[i + |w|..] && s[i..][..|w|] == s[i..i + |w|];
      if s[i..i + |w|] == w && z <= s[i + |w|..] {
        assert s[i..] == w + s[i + |w|..];
      }
    }
  }

  lemma Two(s: seq<char>, i: nat, c: char, d: char)
    requires i + 2 <= |s|
    ensures s[i..i + 2] == [c, d] <==> s[i] == c && s[i + 1] == d
  {
  }

  lemma One(s: seq<char>, i: nat, c: char)
    requires i + 1 <= |s|
    ensures s[i..i + 1] == [c] <==> s[i] == c
  {
  }

  /** Where the part of a request line behind the slash lies. */
  predicate TargetAt(s: seq<char>, i: nat, address: seq<char>, version: seq<char>) {
    var b := i + |address|;
    var c := b + 1 + |version|;
    && c + 2 <= |s| && s[i..b] == address && s[b] == ' '
    && s[b + 1..c] == version && s[c] == '\r' && s[c + 1] == '\n'
  }

  lemma TargetIff(s: seq<char>, i: nat, address: seq<char>, version: seq<char>)
    requires i <= |s|
    ensures address + (" " + (version + "\r\n")) <= s[i..] <==> TargetAt(s, i, address, version)
  {
    var z := version + "\r\n";
    Behind(s, i, address, " " + z);
    var b := i + |address|;
    if b <= |s| {
      Behind(s, b, " ", z);
      if b < |s| {
        One(s, b, ' ');
        Behind(s, b + 1, version, "\r\n");
        EndsLine(s, b + 1 + |version|);
      }
    }
  }

  lemma EndsLine(s: seq<char>, c: nat)
    ensures c <= |s| && "\r\n" <= s[c..] <==> c + 2 <= |s| && s[c] == '\r' && s[c + 1] == '\n'
  {
    if c + 2 <= |s| {
      Two(s, c, '\r', '\n');
      assert s[c..][..2] == s[c..c + 2];
    }
  }

  /** Where the parts of a request line lie. */
  predicate LineAt(s: seq<char>, r: Request) {
    var a := |r.verb|;
    && a + 2 <= |s| && s[..a] == r.verb && s[a] == ' ' && s[a + 1] == '/'
    && TargetAt(s, a + 2, r.address, r.version)
  }

  lemma LineIff(s: seq<char>, r: Request)
    ensures RequestLine(r) <= s <==> LineAt(s, r)
  {
    hide TargetAt;
    var y := r.address + (" " + (r.version + "\r\n"));
    var a := |r.verb|;
    assert s[0..] == s;
    Behind(s, 0, r.verb, " /" + y);
    if a <= |s| {
      assert s[0..a] == s[..a];
      Behind(s, a, " /", y);
      if a + 2 <= |s| {
        Two(s, a, ' ', '/');
        TargetIff(s, a + 2, r.address, r.version);
      }
    }
  }

  lemma TargetScan(s: seq<char>, verb: seq<char>, i: nat, r: Request)
    requires i <= |s| && r.verb == verb
    ensures (exists e :: ScanTarget(s, verb, i) == Head(r, e)) <==>
              Plain(r.address) && Plain(r.version) && TargetAt(s, i, r.address, r.version)
    ensures ScanTarget(s, verb, i).Head? ==>
              ScanTarget(s, verb, i).index == i + |ScanTarget(s, verb, i).request.address| +
                  |ScanTarget(s, verb, i).request.version| + 3
  {
    hide WordEnd, Plain;
    var b, c := i + |r.address|, i + |r.address| + 1 + |r.version|;
    if TargetAt(s, i, r.address, r.version) {
      WordEndIff(s, i, b);
      WordEndIff(s, b + 1, c);
    }
    if ScanTarget(s, verb, i).Head? {
      WordEndIff(s, i, WordEnd(s, i));
      WordEndIff(s, WordEnd(s, i) + 1, WordEnd(s, WordEnd(s, i) + 1));
    }
  }

  /** The request line is taken exactly if the text begins with one, in plain words. */
  lemma HeadIff(s: seq<char>, r: Request, e: nat)
    ensures ScanHead(s) == Head(r, e) <==> PlainRequest(r) && RequestLine(r) <= s && e == |RequestLine(r)|
  {
    hide WordEnd, Plain, ScanTarget, TargetAt;
    LineIff(s, r);
    assert |RequestLine(r)| == |r.verb| + 2 + |r.address| + 1 + |r.version| + 2;
    var a := |r.verb|;
    if a + 2 <= |s| {
      assert s[0..a] == s[..a];
      TargetScan(s, r.verb, a + 2, r);
      WordEndIff(s, 0, a);
    }
    if ScanHead(s) == Head(r, e) {
      HeadFound(s, r, e);
    }
  }

  lemma HeadFound(s: seq<char>, r: Request, e: nat)
    requires ScanHead(s) == Head(r, e)
    ensures |r.verb| + 2 <= |s| && WordEnd(s, 0) == |r.verb| && s[..|r.verb|] == r.verb
    ensures s[|r.verb|] == ' ' && s[|r.verb| + 1] == '/' && ScanTarget(s, r.verb, |r.verb| + 2) == Head(r, e)
  {
    hide WordEnd;
  }

  // ----------------------------------------------------------------- the header lines

  /** A line that is not empty is stepped over. */
  lemma NextLine(s: seq<char>, i: nat, j: nat, past: char)
    requires i < j && j + 2 <= |s| && LineEnd(s, i) == j && s[j + 1] == '\n'
    ensures ScanHeaders(s, i, past) == ScanHeaders(s, j + 2, past)
    ensures HeadersLookPast(s, i) == HeadersLookPast(s, j + 2)
  {
    hide LineEnd;
  }

  /** Where the scan of header lines stops otherwise. */
  lemma LastLine(s: seq<char>, i: nat, j: nat, past: char)
    requires i <= j <= |s| && LineEnd(s, i) == j && (i == j || j + 2 > |s| || s[j + 1] != '\n')
    ensures ScanHeaders(s, i, past) ==
              if j == |s| then More
              else if j + 1 == |s| then
                if past != '\n' then Bad else if i == j then At(|s|) else More
              else if s[j + 1] == '\n' then At(j + 2) else Bad
    ensures HeadersLookPast(s, i) <==> j + 1 == |s|
  {
    hide LineEnd;
    LineEndTail(s, |s|);
  }

  /** The header lines are t up to k; a line feed that is not there may have been seen. */
  predicate Ends(t: seq<char>, ls: seq<seq<char>>, k: nat, past: char) {
    || (k <= |t| && t[..k] == Lines(ls) + "\r\n")
    || (past == '\n' && k == |t| && t + "\n" == Lines(ls) + "\r\n")
  }

  lemma NoLines(t: seq<char>, k: nat, past: char)
    ensures Ends(t, [], k, past) <==>
              (k == 2 <= |t| && t[0] == '\r' && t[1] == '\n') || (past == '\n' && k == |t| == 1 && t[0] == '\r')
  {
    assert Lines([]) + "\r\n" == "\r\n";
    if 2 <= |t| {
      Two(t, 0, '\r', '\n');
      assert t[0..2] == t[..2];
    }
    assert t + "\n" == "\r\n" <==> |t| == 1 && t[0] == '\r' by {
      if |t| == 1 {
        Two(t + "\n", 0, '\r', '\n');
        assert (t + "\n")[0..2] == t + "\n";
      }
    }
  }

  lemma Cancel(x: seq<char>, a: seq<char>, b: seq<char>)
    ensures x + a == x + b <==> a == b
  {
    assert (x + a)[|x|..] == a && (x + b)[|x|..] == b;
  }

  /** A line and its end come off the front. */
  lemma OneLine(t: seq<char>, l: seq<char>, ls: seq<seq<char>>, k: nat, past: char)
    requires |l| + 2 <= |t| && t[..|l|] == l && t[|l|] == '\r' && t[|l| + 1] == '\n'
    ensures Ends(t, [l] + ls, |l| + 2 + k, past) <==> Ends(t[|l| + 2..], ls, k, past)
  {
    var u := t[|l| + 2..];
    var x := l + "\r\n";
    assert ([l] + ls)[1..] == ls;
    assert Lines([l] + ls) + "\r\n" == x + (Lines(ls) + "\r\n");
    var rest := Lines(ls) + "\r\n";
    assert t == x + u;
    assert t + "\n" == x + (u + "\n");
    Cancel(x, u + "\n", rest);
    if k <= |u| {
      assert t[..|l| + 2 + k] == x + u[..k];
      Cancel(x, u[..k], rest);
    }
  }

  lemma {:induction false} HeadersFrom(s: seq<char>, i: nat, ls: seq<seq<char>>, k: nat, past: char)
    requires i <= |s| && HeaderLines(ls) && Ends(s[i..], ls, k, past)
    ensures ScanHeaders(s, i, past) == At(i + k)
    decreases |ls|
  {
    hide Ends, LineEnd, ScanHeaders;
    var t := s[i..];
    if ls == [] {
      NoLines(t, k, past);
      LineEndIff(s, i, i);
      LastLine(s, i, i, past);
    } else {
      var l := ls[0];
      assert ls == [l] + ls[1..];
      BeginsWith(t, ls, k, past);
      assert s[i..i + |l|] == t[..|l|];
      LineEndIff(s, i, i + |l|);
      NextLine(s, i, i + |l|, past);
      OneLine(t, l, ls[1..], k - |l| - 2, past);
      assert t[|l| + 2..] == s[i + |l| + 2..];
      HeadersFrom(s, i + |l| + 2, ls[1..], k - |l| - 2, past);
    }
  }

  lemma BeginsWith(t: seq<char>, ls: seq<seq<char>>, k: nat, past: char)
    requires ls != [] && Ends(t, ls, k, past)
    ensures |ls[0]| + 2 <= k && |ls[0]| + 2 <= |t|
    ensures t[..|ls[0]|] == ls[0] && t[|ls[0]|] == '\r' && t[|ls[0]| + 1] == '\n'
  {
    var x := ls[0] + "\r\n";
    var all := Lines(ls) + "\r\n";
    assert all == x + (Lines(ls[1..]) + "\r\n");
    var n := |ls[0]|;
    assert all[..n] == ls[0] && all[n] == '\r' && all[n + 1] == '\n';
    if k <= |t| && t[..k] == all {
      assert t[..n] == t[..k][..n] && t[n] == t[..k][n] && t[n + 1] == t[..k][n + 1];
    } else {
      assert t[..n] == (t + "\n")[..n] && t[n] == (t + "\n")[n] && t[n + 1] == (t + "\n")[n + 1];
    }
  }

  lemma {:induction false} HeadersAt(s: seq<char>, i: nat, past: char) returns (ls: seq<seq<char>>)
    requires i <= |s| && ScanHeaders(s, i, past).At?
    ensures HeaderLines(ls) && Ends(s[i..], ls, ScanHeaders(s, i, past).index - i, past)
    decreases |s| - i
  {
    hide Ends, LineEnd, ScanHeaders, HeadersLookPast;
    var t, j := s[i..], LineEnd(s, i);
    var k := ScanHeaders(s, i, past).index - i;
    if j + 2 <= |s| && s[j + 1] == '\n' && i < j {
      NextLine(s, i, j, past);
    } else {
      LastLine(s, i, j, past);
    }
    LineEndIff(s, i, j);
    if j == i {
      ls := [];
      NoLines(t, k, past);
    } else {
      var l := s[i..j];
      assert l == t[..|l|] && s[j] == t[|l|];
      assert s[j + 1] == t[|l| + 1];
      var rest := HeadersAt(s, j + 2, past);
      assert t[|l| + 2..] == s[j + 2..];
      OneLine(t, l, rest, k - |l| - 2, past);
      ls := [l] + rest;
    }
  }

  // ------------------------------------------------------------------- what is accepted

  /** The request with these header lines is the text up to `used`, or all of the text
      and one more line feed that the parser happened to find behind it. */
  predicate Accepts(s: seq<char>, r: Request, ls: seq<seq<char>>, used: nat, past: char) {
    || (used <= |s| && s[..used] == Text(r, ls))
    || (past == '\n' && used == |s| && s + "\n" == Text(r, ls))
  }

  lemma AcceptsIff(s: seq<char>, r: Request, ls: seq<seq<char>>, used: nat, past: char)
    ensures var e := |RequestLine(r)|;
            Accepts(s, r, ls, used, past) <==>
              RequestLine(r) <= s && e <= used && Ends(s[e..], ls, used - e, past)
  {
    hide RequestLine;
    var x, rest := RequestLine(r), Lines(ls) + "\r\n";
    if x <= s {
      var u := s[|x|..];
      assert s == x + u && s + "\n" == x + (u + "\n");
      Cancel(x, u + "\n", rest);
      if |x| <= used <= |s| {
        assert s[..used] == x + u[..used - |x|];
        Cancel(x, u[..used - |x|], rest);
      }
    }
    if Accepts(s, r, ls, used, past) {
      LineFirst(s, x, rest, used);
    }
  }

  lemma LineFirst(s: seq<char>, x: seq<char>, rest: seq<char>, used: nat)
    requires (used <= |s| && s[..used] == x + rest) || (used == |s| && s + "\n" == x + rest)
    requires |rest| >= 2
    ensures x <= s && |x| <= used
  {
    if used <= |s| && s[..used] == x + rest {
      assert s[..|x|] == s[..used][..|x|] == x;
    } else {
      assert s[..|x|] == (s + "\n")[..|x|] == x;
    }
  }

  /** The parser accepts exactly the requests of the grammar, with any number of header
      lines, and uses exactly their text. */
  lemma ParsedIff(s: seq<char>, r: Request, used: nat, past: char)
    ensures Parse(s, past) == Parsed(r, used) <==>
              PlainRequest(r) && exists ls :: HeaderLines(ls) && Accepts(s, r, ls, used, past)
  {
    hide ScanHead, ScanHeaders, PlainRequest, RequestLine, HeaderLines, Accepts, Ends, Text;
    var e := |RequestLine(r)|;
    HeadIff(s, r, e);
    if Parse(s, past) == Parsed(r, used) {
      HeadIff(s, r, ScanHead(s).index);
      var ls := HeadersAt(s, e, past);
      AcceptsIff(s, r, ls, used, past);
    }
    if PlainRequest(r) {
      forall ls | HeaderLines(ls) && Accepts(s, r, ls, used, past)
        ensures Parse(s, past) == Parsed(r, used)
      {
        AcceptsIff(s, r, ls, used, past);
        HeadersFrom(s, e, ls, used - e, past);
      }
    }
  }

  // ----------------------------------------------------------- what is only the beginning

  lemma LinesOne(l: seq<char>, ls: seq<seq<char>>, more: seq<char>)
    ensures Lines([l] + ls) + more == l + ("\r\n" + (Lines(ls) + more))
  {
    assert ([l] + ls)[1..] == ls;
    var x := Lines(ls);
    assert "\r\n" + (x + more) == ("\r\n" + x) + more;
    assert l + (("\r\n" + x) + more) == (l + ("\r\n" + x)) + more;
  }

  lemma InParts(s: seq<char>, i: nat, j: nat, k: nat)
    requires i <= j <= k <= |s|
    ensures s[i..] == s[i..j] + (s[j..k] + s[k..])
  {
    assert s[j..] == s[j..k] + s[k..];
    assert s[i..] == s[i..j] + s[j..];
  }

  lemma LineFront(s: seq<char>, i: nat, l: seq<char>, more: seq<char>)
    requires i <= |s|
    ensures s[i..] == l + ("\r\n" + more) <==>
            var j := i + |l|;
            j + 2 <= |s| && s[i..j] == l && s[j] == '\r' && s[j + 1] == '\n' && s[j + 2..] == more
  {
    var j := i + |l|;
    if j + 2 <= |s| {
      Two(s, j, '\r', '\n');
      InParts(s, i, j, j + 2);
      if s[i..] == l + ("\r\n" + more) {
        Behind(s, i, l, "\r\n" + more);
        Behind(s, j, "\r\n", more);
        assert |s[j + 2..]| == |more|;
      }
    }
  }

  /** Whole lines and a part of one without its end. */
  lemma {:induction false} HeadersOpen(s: seq<char>, i: nat, ls: seq<seq<char>>, last: seq<char>, past: char)
    requires i <= |s| && HeaderLines(ls) && '\r' !in last && s[i..] == Lines(ls) + last
    ensures ScanHeaders(s, i, past).More?
    decreases |ls|
  {
    hide LineEnd, ScanHeaders;
    if ls == [] {
      assert Lines([]) + last == last;
      LineEndTail(s, i);
      LastLine(s, i, |s|, past);
    } else {
      hide Lines;
      var l := ls[0];
      assert ls == [l] + ls[1..];
      LinesOne(l, ls[1..], last);
      LineFront(s, i, l, Lines(ls[1..]) + last);
      LineEndIff(s, i, i + |l|);
      NextLine(s, i, i + |l|, past);
      HeadersOpen(s, i + |l| + 2, ls[1..], last, past);
    }
  }

  lemma {:induction false} HeadersMore(s: seq<char>, i: nat, past: char) returns (ls: seq<seq<char>>, last: seq<char>)
    requires i <= |s| && ScanHeaders(s, i, past).More? && !HeadersLookPast(s, i)
    ensures HeaderLines(ls) && '\r' !in last && s[i..] == Lines(ls) + last
    decreases |s| - i
  {
    hide LineEnd, ScanHeaders, HeadersLookPast;
    var j := LineEnd(s, i);
    LineEndTail(s, i);
    if j == |s| {
      ls, last := [], s[i..];
      assert Lines([]) + last == last;
    } else {
      hide Lines;
      LineEndIff(s, i, j);
      if j + 2 <= |s| && s[j + 1] == '\n' && i < j {
        NextLine(s, i, j, past);
      } else {
        LastLine(s, i, j, past);
      }
      ls, last := HeadersMore(s, j + 2, past);
      LinesOne(s[i..j], ls, last);
      LineFront(s, i, s[i..j], Lines(ls) + last);
      ls := [s[i..j]] + ls;
    }
  }

  lemma NoCrAtEnd(r: Request, ls: seq<seq<char>>)
    ensures !EndsInCr(Text(r, ls))
  {
    hide RequestLine, Lines;
    var t := Text(r, ls);
    assert t[|t| - 1] == '\n' by { assert t == (RequestLine(r) + Lines(ls)) + "\r\n"; }
  }

  lemma WholeText(r: Request, ls: seq<seq<char>>, past: char)
    requires PlainRequest(r) && HeaderLines(ls)
    ensures Whole(Text(r, ls)) && Parse(Text(r, ls), past) == Parsed(r, |Text(r, ls)|)
  {
    hide Parse, PlainRequest, HeaderLines, Text, LooksPast;
    var t := Text(r, ls);
    NoCrAtEnd(r, ls);
    LooksPastEndsInCr(t);
    assert t[..|t|] == t;
    assert Accepts(t, r, ls, |t|, past) && Accepts(t, r, ls, |t|, ' ');
    ParsedIff(t, r, |t|, past);
    ParsedIff(t, r, |t|, ' ');
  }

  /** The text begins a request. */
  ghost predicate Begins(s: seq<char>) {
    exists r, ls :: PlainRequest(r) && HeaderLines(ls) && s < Text(r, ls)
  }

  /** A request line up to a version that a blank ends: too short for the parser to
      have seen that no line end follows. */
  ghost predicate BlankBehindVersion(s: seq<char>) {
    exists r :: PlainRequest(r) && s == r.verb + (" /" + (r.address + (" " + (r.version + " "))))
  }

  /** Unless it looks past its input, the parser asks for more exactly if the text is
      the beginning of a request, or ends with a blank behind the version. */
  lemma IncompleteIff(s: seq<char>, past: char)
    requires !LooksPast(s)
    ensures Parse(s, past).Incomplete? <==> Begins(s) || BlankBehindVersion(s)
  {
    hide ScanHead, ScanHeaders, HeadersLookPast, PlainRequest, HeaderLines, Text, Begins, BlankBehindVersion;
    if Parse(s, past).Incomplete? {
      if ScanHead(s).HeadMore? {
        HeadOpen(s);
      } else {
        LinesOpen(s, past);
      }
    }
    if Begins(s) {
      BeginsIncomplete(s, past);
    }
    if BlankBehindVersion(s) {
      BlankIncomplete(s, past);
    }
  }

  lemma BeginsIncomplete(s: seq<char>, past: char)
    requires !LooksPast(s) && Begins(s)
    ensures Parse(s, past).Incomplete?
  {
    hide Parse, LooksPast, PlainRequest, HeaderLines, Text;
    var r, ls :| PlainRequest(r) && HeaderLines(ls) && s < Text(r, ls);
    var v := Text(r, ls);
    WholeText(r, ls, ' ');
    PrefixIncomplete(v, |s|, past);
    assert v[..|s|] == s;
  }

  lemma LinesOpen(s: seq<char>, past: char)
    requires !LooksPast(s) && Parse(s, past).Incomplete? && ScanHead(s).Head?
    ensures Begins(s)
  {
    hide ScanHead, ScanHeaders, HeadersLookPast, PlainRequest, RequestLine;
    var r, e := ScanHead(s).request, ScanHead(s).index;
    HeadIff(s, r, e);
    var ls, last := HeadersMore(s, e, past);
    assert s == RequestLine(r) + (Lines(ls) + last);
    BeginsWithLines(s, r, ls, last);
  }

  lemma BeginsWithLines(s: seq<char>, r: Request, ls: seq<seq<char>>, last: seq<char>)
    requires PlainRequest(r) && HeaderLines(ls) && '\r' !in last && s == RequestLine(r) + (Lines(ls) + last)
    ensures Begins(s)
  {
    hide PlainRequest, RequestLine, Lines;
    if last == [] {
      assert s + "\r\n" == Text(r, ls);
    } else {
      var more := ls + [last];
      LinesMore(ls, last);
      assert s + "\r\n\r\n" == Text(r, more);
      assert HeaderLines(more);
    }
  }

  lemma {:induction false} LinesMore(ls: seq<seq<char>>, last: seq<char>)
    ensures Lines(ls + [last]) == Lines(ls) + (last + "\r\n")
  {
    if ls == [] {
      assert Lines([last]) == last + ("\r\n" + Lines([]));
    } else {
      LinesMore(ls[1..], last);
      assert (ls + [last])[1..] == ls[1..] + [last];
      LinesOne(ls[0], ls[1..], last + "\r\n");
    }
  }

  // the beginnings of a request line

  lemma BeginsLine(s: seq<char>, r: Request)
    requires PlainRequest(r) && s <= RequestLine(r)
    ensures Begins(s)
  {
    hide PlainRequest, RequestLine;
    assert s < Text(r, []);
  }

  lemma LineLeft(r: Request, end: seq<char>)
    ensures r.verb + (" /" + (r.address + (" " + (r.version + end)))) ==
            r.verb + " /" + r.address + " " + r.version + end
  {
    var x := r.version + end;
    assert r.address + (" " + x) == r.address + " " + x;
    var y := r.address + " ";
    assert y + x == y + r.version + end;
    var z := y + r.version;
    assert " /" + (z + end) == (" /" + z) + end;
    assert r.verb + ((" /" + z) + end) == (r.verb + (" /" + z)) + end;
    assert " /" + z == " /" + r.address + " " + r.version;
    assert r.verb + (" /" + r.address + " " + r.version) == r.verb + " /" + r.address + " " + r.version;
  }

  lemma BlankTarget(s: seq<char>, i: nat, address: seq<char>, version: seq<char>)
    requires i <= |s| && s[i..] == address + (" " + (version + " "))
    ensures var b := i + |address|; var c := b + 1 + |version|;
            && c + 1 == |s| && s[i..b] == address && s[b] == ' ' && s[b + 1..c] == version && s[c] == ' '
  {
    var b := i + |address|;
    Behind(s, i, address, " " + (version + " "));
    Behind(s, b, " ", version + " ");
    One(s, b, ' ');
    Behind(s, b + 1, version, " ");
    var c := b + 1 + |version|;
    assert |s| == c + 1;
    assert s[c] == s[c..][0] == ' ';
  }

  lemma BlankLine(s: seq<char>, verb: seq<char>, more: seq<char>)
    requires s == verb + (" /" + more)
    ensures var a := |verb|;
            && a + 2 <= |s| && s[..a] == verb && s[a] == ' ' && s[a + 1] == '/' && s[a + 2..] == more
  {
    var a := |verb|;
    assert s[a] == (" /" + more)[0] && s[a + 1] == (" /" + more)[1];
  }

  lemma BlankScan(s: seq<char>, i: nat, address: seq<char>, version: seq<char>, verb: seq<char>)
    requires i <= |s| && s[i..] == address + (" " + (version + " ")) && Plain(address) && Plain(version)
    ensures ScanTarget(s, verb, i).HeadMore?
  {
    hide WordEnd, Plain;
    BlankTarget(s, i, address, version);
    var b := i + |address|;
    WordEndIff(s, i, b);
    WordEndIff(s, b + 1, b + 1 + |version|);
  }

  lemma BlankIncomplete(s: seq<char>, past: char)
    requires BlankBehindVersion(s)
    ensures Parse(s, past).Incomplete?
  {
    hide WordEnd, Plain, ScanTarget;
    var r :| PlainRequest(r) && s == r.verb + (" /" + (r.address + (" " + (r.version + " "))));
    var a := |r.verb|;
    BlankLine(s, r.verb, r.address + (" " + (r.version + " ")));
    assert s[0..a] == s[..a];
    WordEndIff(s, 0, a);
    BlankScan(s, a + 2, r.address, r.version, s[..a]);
  }

  lemma HeadOpen(s: seq<char>)
    requires ScanHead(s).HeadMore?
    ensures Begins(s) || BlankBehindVersion(s)
  {
    hide WordEnd, Plain, ScanTarget, Begins, BlankBehindVersion;
    var i := WordEnd(s, 0);
    assert s[..i] == s[0..i] && s[0..] == s && Plain([]) by { PlainNothing(); }
    WordEndTail(s, 0);
    if i == |s| {
      var r := Request(s, [], []);
      LineLeft(r, "\r\n");
      BeginsLine(s, r);
    } else {
      WordEndIff(s, 0, i);
      var r := Request(s[..i], [], []);
      if i + 1 == |s| {
        LineLeft(r, "\r\n");
        assert s == s[..i] + " ";
        assert s[..i] + " /" == s + "/";
        BeginsLine(s, r);
      } else {
        TargetOpen(s, i + 2);
      }
    }
  }

  lemma PlainNothing()
    ensures Plain([])
  {
  }

  lemma TargetOpen(s: seq<char>, i: nat)
    requires 2 <= i <= |s| && Plain(s[..i - 2]) && s[i - 2] == ' ' && s[i - 1] == '/'
    requires ScanTarget(s, s[..i - 2], i).HeadMore?
    ensures Begins(s) || BlankBehindVersion(s)
  {
    hide WordEnd, Plain, Begins;
    var v := s[..i - 2];
    PlainNothing();
    Two(s, i - 2, ' ', '/');
    assert s[..i] == v + " /";
    var b := WordEnd(s, i);
    WordEndTail(s, i);
    if b == |s| {
      var r := Request(v, s[i..], []);
      LineLeft(r, "\r\n");
      assert s == v + " /" + s[i..];
      BeginsLine(s, r);
    } else {
      WordEndIff(s, i, b);
      assert s[..b] == v + " /" + s[i..b];
      assert s[..b + 1] == s[..b] + " ";
      VersionOpen(s, v, s[i..b], b + 1);
    }
  }

  lemma VersionOpen(s: seq<char>, v: seq<char>, a: seq<char>, i: nat)
    requires i <= |s| && Plain(v) && Plain(a) && s[..i] == v + " /" + a + " "
    requires WordEnd(s, i) + 1 >= |s|
    ensures Begins(s) || BlankBehindVersion(s)
  {
    hide WordEnd, Plain, Begins, RequestLine;
    var c := WordEnd(s, i);
    WordEndTail(s, i);
    if c == |s| {
      var r := Request(v, a, s[i..]);
      LineEnds(r);
      assert s == s[..i] + s[i..];
      BeginsLine(s, r);
    } else {
      WordEndIff(s, i, c);
      var r := Request(v, a, s[i..c]);
      LineEnds(r);
      assert s[..c] == s[..i] + s[i..c];
      assert s == s[..c] + [s[c]];
      if s[c] == '\r' {
        assert RequestLine(r) == s + "\n";
        BeginsLine(s, r);
      } else {
        LineLeft(r, " ");
      }
    }
  }

  lemma LineEnds(r: Request)
    ensures RequestLine(r) == r.verb + " /" + r.address + " " + r.version + "\r\n"
  {
    LineLeft(r, "\r\n");
  }

  /** The parser comes to look past its input exactly behind a request line and header
      lines, the last of them cut behind its '\r'. */
  lemma LooksPastText(s: seq<char>)
    ensures LooksPast(s) <==>
            exists r, ls, last :: PlainRequest(r) && HeaderLines(ls) && '\r' !in last &&
                                  s == RequestLine(r) + (Lines(ls) + last) + "\r"
  {
    hide PlainRequest, HeaderLines, RequestLine, Lines, LooksPast, ScanHead, ScanHeaders, HeadersLookPast;
    LooksPastIff(s, ' ');
    if LooksPast(s) {
      var t := s[..|s| - 1];
      var r, e := ScanHead(t).request, ScanHead(t).index;
      HeadIff(t, r, e);
      HeadersPast(t, e, ' ', ' ');
      var ls, last := HeadersMore(t, e, ' ');
      assert t == RequestLine(r) + (Lines(ls) + last) && s == t + "\r";
    }
    forall r, ls, last | PlainRequest(r) && HeaderLines(ls) && '\r' !in last &&
                         s == RequestLine(r) + (Lines(ls) + last) + "\r"
      ensures LooksPast(s)
    {
      var t := RequestLine(r) + (Lines(ls) + last);
      assert s[..|s| - 1] == t;
      HeadIff(t, r, |RequestLine(r)|);
      assert t[|RequestLine(r)|..] == Lines(ls) + last;
      HeadersOpen(t, |RequestLine(r)|, ls, last, ' ');
    }
  }

  // ----------------------------------------------------------------- a stream of requests

  /** A request at the front of a stream is handed over, and draining goes on behind it
      unless it asks to quit. */
  lemma ServeText(r: Request, ls: seq<seq<char>>, more: seq<char>, past: char)
    requires PlainRequest(r) && HeaderLines(ls)
    ensures Drain(Text(r, ls) + more, past) ==
              if r.address == "quit" then Drained(false, [r], more)
              else var d := Drain(more, past); Drained(d.ok, [r] + d.handled, d.left)
  {
    hide Parse, LooksPast, PlainRequest, HeaderLines, Text;
    var t := Text(r, ls);
    WholeText(r, ls, past);
    ParseStable(t, more, past, past);
    assert (t + more)[|t|..] == more;
  }

  /** The texts of requests with their header lines, one after another. */
  function Texts(rs: seq<Request>, lss: seq<seq<seq<char>>>): seq<char>
    requires |rs| == |lss|
  {
    if rs == [] then [] else Text(rs[0], lss[0]) + Texts(rs[1..], lss[1..])
  }

  ghost predicate AllPlain(rs: seq<Request>, lss: seq<seq<seq<char>>>)
    requires |rs| == |lss|
  {
    forall i :: 0 <= i < |rs| ==> PlainRequest(rs[i]) && HeaderLines(lss[i])
  }

  /** There is no whole request at the front. */
  ghost predicate NoRequest(s: seq<char>) {
    forall r, ls :: PlainRequest(r) && HeaderLines(ls) ==> !(Text(r, ls) <= s)
  }

  /** A stream handled as the requests `rs`, and where and why it stops there. */
  ghost predicate Splits(s: seq<char>, rs: seq<Request>, lss: seq<seq<seq<char>>>, left: seq<char>, ok: bool) {
    && |rs| == |lss| && AllPlain(rs, lss) && s == Texts(rs, lss) + left
    && (forall i :: 0 <= i < |rs| - 1 ==> rs[i].address != "quit")
    && if rs != [] && rs[|rs| - 1].address == "quit" then !ok
       else NoRequest(left) && (ok <==> Begins(left) || BlankBehindVersion(left))
  }

  lemma SplitsOff(s: seq<char>, r: Request, ls: seq<seq<char>>, rs: seq<Request>, lss: seq<seq<seq<char>>>,
                  left: seq<char>, ok: bool)
    requires PlainRequest(r) && HeaderLines(ls) && r.address != "quit" && Splits(s, rs, lss, left, ok)
    ensures Splits(Text(r, ls) + s, [r] + rs, [ls] + lss, left, ok)
  {
    hide PlainRequest, HeaderLines, Text, NoRequest, Begins, BlankBehindVersion;
    assert ([r] + rs)[1..] == rs && ([ls] + lss)[1..] == lss;
    assert Text(r, ls) + (Texts(rs, lss) + left) == (Text(r, ls) + Texts(rs, lss)) + left;
  }

  lemma NoneParsed(s: seq<char>, past: char)
    requires !EndsInCr(s) && !Parse(s, past).Parsed?
    ensures NoRequest(s)
  {
    hide Parse, PlainRequest, HeaderLines, Text;
    forall r, ls | PlainRequest(r) && HeaderLines(ls)
      ensures !(Text(r, ls) <= s)
    {
      ParsedIff(s, r, |Text(r, ls)|, past);
      assert Text(r, ls) <= s ==> Accepts(s, r, ls, |Text(r, ls)|, past);
    }
  }

  /** Draining takes whole requests off the front as long as there are any and none asks
      to quit; it ends well exactly if what is left may still become a request. */
  lemma {:induction false} DrainSplits(s: seq<char>, past: char) returns (lss: seq<seq<seq<char>>>)
    requires !EndsInCr(s)
    ensures var d := Drain(s, past); Splits(s, d.handled, lss, d.left, d.ok)
    decreases |s|
  {
    hide Parse, LooksPast, PlainRequest, HeaderLines, Text, NoRequest, Begins, BlankBehindVersion, Accepts;
    LooksPastEndsInCr(s);
    if Parse(s, past).Parsed? {
      var r, used := Parse(s, past).request, Parse(s, past).used;
      ParsedIff(s, r, used, past);
      var ls :| HeaderLines(ls) && Accepts(s, r, ls, used, past);
      AcceptedText(s, r, ls, used, past);
      ServeText(r, ls, s[used..], past);
      if r.address == "quit" {
        lss := [ls];
        OneText(r, ls);
      } else {
        EndsInCrSuffix(s, used);
        var rest := DrainSplits(s[used..], past);
        var d := Drain(s[used..], past);
        SplitsOff(s[used..], r, ls, d.handled, rest, d.left, d.ok);
        lss := [ls] + rest;
      }
    } else {
      lss := [];
      IncompleteIff(s, past);
      NoneParsed(s, past);
      assert Texts([], []) + s == s;
    }
  }

  lemma AcceptedText(s: seq<char>, r: Request, ls: seq<seq<char>>, used: nat, past: char)
    requires !EndsInCr(s) && Accepts(s, r, ls, used, past)
    ensures used <= |s| && s == Text(r, ls) + s[used..]
  {
    hide Text;
    CrBefore(s, r, ls);
  }

  lemma CrBefore(s: seq<char>, r: Request, ls: seq<seq<char>>)
    ensures s + "\n" == Text(r, ls) ==> EndsInCr(s)
  {
    hide RequestLine, Lines;
    var x := RequestLine(r) + Lines(ls);
    assert Text(r, ls) == x + "\r\n";
    if s + "\n" == x + "\r\n" {
      assert s[|s| - 1] == (x + "\r\n")[|x|];
    }
  }

  lemma OneText(r: Request, ls: seq<seq<char>>)
    ensures Texts([r], [ls]) == Text(r, ls)
  {
    assert Texts([], []) == [];
  }

  // -------------------------------------------------------------------- printing

  /** A C string ends at its first NUL. */
  function CStr(s: seq<char>): (t: seq<char>)
    ensures t <= s && '\0' !in t && (|t| < |s| ==> s[|t|] == '\0')
  {
    if s == [] || s[0] == '\0' then [] else [s[0]] + CStr(s[1..])
  }

  /** What toBuffer writes. */
  function Print(r: Request): seq<char> {
    CStr(r.verb) + " " + CStr(r.address) + " " + CStr(r.version) + "\r\n\r\n"
  }

  function PrintAll(rs: seq<Request>): seq<char> {
    if rs == [] then [] else Print(rs[0]) + PrintAll(rs[1..])
  }

  predicate Word(w: seq<char>) { ' ' !in w && '\r' !in w && '\0' !in w }

  predicate Printable(r: Request) {
    Word(r.verb) && Word(r.address) && Word(r.version) && r.address != [] && r.address[0] == '/'
  }

  /** The request as the parser gives it: without the slash. */
  function Stripped(r: Request): Request {
    r.(address := if r.address == [] then [] else r.address[1..])
  }

  lemma CStrSame(s: seq<char>)
    ensures CStr(s) == s <==> '\0' !in s
    ensures |CStr(s)| == |s| ==> CStr(s) == s
  {
    hide CStr;
  }

  /** A printed request is the text of the request without its slash, with no header
      lines, exactly if it is printable. */
  lemma PrintText(r: Request)
    requires Printable(r)
    ensures PlainRequest(Stripped(r)) && Print(r) == Text(Stripped(r), [])
  {
    var q := Stripped(r);
    CStrSame(r.verb);
    CStrSame(r.address);
    CStrSame(r.version);
    assert r.address == "/" + q.address;
    LineEnds(q);
    assert r.verb + " " + ("/" + q.address) == r.verb + " /" + q.address;
    assert Print(r) == RequestLine(q) + "\r\n";
    assert Lines([]) + "\r\n" == "\r\n";
  }

  /** A printed request is parsed back, without its slash. */
  lemma PrintParse(r: Request, past: char)
    requires Printable(r)
    ensures Parse(Print(r), past) == Parsed(Stripped(r), |Print(r)|)
  {
    hide Parse, Print, Text, Printable;
    PrintText(r);
    WholeText(Stripped(r), [], past);
  }

  /** Exactly the printable requests survive printing and parsing. */
  lemma PrintParseIff(r: Request, a: seq<char>, past: char)
    requires r.address == "/" + a
    ensures Parse(Print(r), past) == Parsed(Request(r.verb, a, r.version), |Print(r)|) <==> Printable(r)
  {
    hide Parse, Accepts;
    var q, s := Request(r.verb, a, r.version), Print(r);
    if Printable(r) {
      PrintParse(r, past);
    } else if Parse(s, past) == Parsed(q, |s|) {
      ParsedIff(s, q, |s|, past);
      var ls :| HeaderLines(ls) && Accepts(s, q, ls, |s|, past);
      PrintNoCr(r);
      AcceptedText(s, q, ls, |s|, past);
      PrintedWhole(r, a, ls);
    }
  }

  lemma PrintNoCr(r: Request)
    ensures !EndsInCr(Print(r))
  {
  }

  lemma PrintedWhole(r: Request, a: seq<char>, ls: seq<seq<char>>)
    requires r.address == "/" + a && |Print(r)| >= |Text(Request(r.verb, a, r.version), ls)|
    ensures '\0' !in r.verb && '\0' !in r.address && '\0' !in r.version
  {
    hide CStr, Lines;
    CStrSame(r.verb);
    CStrSame(r.address);
    CStrSame(r.version);
  }

  /** The shortest request, cut before its last byte, is refused unless that byte
      happens to lie there already. */
  lemma LateNewLine(q: char)
    requires q != '\n'
    ensures var v := Print(Request("", "/", ""));
            Whole(v) && !Deliver([v[..|v| - 1], v[|v| - 1..]], [q, ' ']).ok
  {
    hide Parse, LooksPast, Whole;
    var r := Request("", "", "");
    var v := Print(Request("", "/", ""));
    assert v == " / \r\n\r\n";
    PrintText(Request("", "/", ""));
    WholeText(r, [], ' ');
    var w := v[..|v| - 1];
    assert RequestLine(r) == " / \r\n" && Lines([]) == [];
    assert w == RequestLine(r) + (Lines([]) + []) + "\r";
    LooksPastText(w);
    PastMatters(w, '\n', q);
    DeliverTwo(w, v[|v| - 1..], q);
  }

  // ---------------------------------------------------------- pipelined requests

  function StrippedAll(rs: seq<Request>): seq<Request> {
    if rs == [] then [] else [Stripped(rs[0])] + StrippedAll(rs[1..])
  }

  /** The requests up to the first that stops the server, and the printed rest. */
  function Served(rs: seq<Request>): Drained {
    if rs == [] then Drained(true, [], [])
    else if rs[0].address == "/quit" then Drained(false, [Stripped(rs[0])], PrintAll(rs[1..]))
    else Prepend(Stripped(rs[0]), Served(rs[1..]))
  }

  /** A printed request at the front of a stream is handed over without its slash, and
      the one for "/quit" stops the server. */
  lemma ServePrinted(r: Request, more: seq<char>, past: char)
    requires Printable(r)
    ensures Drain(Print(r) + more, past) ==
              if r.address == "/quit" then Drained(false, [Stripped(r)], more)
              else var d := Drain(more, past); Drained(d.ok, [Stripped(r)] + d.handled, d.left)
  {
    hide Print, Text, Drain;
    PrintText(r);
    ServeText(Stripped(r), [], more, past);
    assert r.address == "/" + r.address[1..];
  }

  /** Printing any number of requests and draining the text gives exactly those
      requests and leaves nothing, but for what follows a request to quit. */
  lemma {:induction false} PipelineRoundTrip(rs: seq<Request>, past: char)
    requires forall i :: 0 <= i < |rs| ==> Printable(rs[i])
    ensures Drain(PrintAll(rs), past) == Served(rs)
  {
    if rs == [] {
      DrainEmpty(past);
    } else {
      hide Print, Drain, Printable, Stripped;
      ServePrinted(rs[0], PrintAll(rs[1..]), past);
      PipelineRoundTrip(rs[1..], past);
    }
  }

  lemma {:induction false} ServedAll(rs: seq<Request>)
    requires forall i :: 0 <= i < |rs| ==> rs[i].address != "/quit"
    ensures Served(rs) == Drained(true, StrippedAll(rs), [])
  {
    if rs != [] {
      ServedAll(rs[1..]);
    }
  }
}
