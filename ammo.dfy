/**
 * Phantom "ammo" framing, and the header rewriting applied to a captured
 * HTTP request before it is framed. The HAR and the pcap converter have
 * the same code for these functions; both use this module.
 */
module Ammo {
  import opened Wrappers
  import opened Text

  // ---------------------------------------------------------------------
  // make_ammo, and a reader for what it writes
  // ---------------------------------------------------------------------

  /** `make_ammo(request, case)`: the request's length, a space, the mark, a newline, the request. */
  function MakeAmmo(request: string, mark: string): (ammo: string)
    ensures |ammo| == |Decimal(|request|)| + |mark| + 2 + |request|
    ensures ammo[|ammo| - |request|..] == request
  {
    Decimal(|request|) + " " + mark + "\n" + request
  }

  /** Index of the first `c` in `s`, or `|s|` when there is none. */
  function Find(s: string, c: char): (k: nat)
    ensures k <= |s|
    ensures k < |s| ==> s[k] == c
    ensures forall i :: 0 <= i < k ==> s[i] != c
  {
    if s == [] then 0
    else if s[0] == c then 0
    else 1 + Find(s[1..], c)
  }

  lemma FindFirst(p: string, c: char, t: string)
    requires c !in p
    ensures Find(p + [c] + t, c) == |p|
  {
    var s := p + [c] + t;
    assert s[|p|] == c;
  }

  /** One frame read back from the front of a text: the request, its mark, and what follows. */
  datatype Frame = Frame(request: string, mark: string, rest: string)

  /** Reads "<length> <mark>\n" and then `length` characters of request. */
  function ReadAmmo(s: string): (r: Option<Frame>)
    ensures r.Some? ==> |r.value.rest| < |s|
  {
    var sp := Find(s, ' ');
    if sp == 0 || sp == |s| || !AllDigits(s[..sp]) then None
    else ReadMarked(DigitsValue(s[..sp]), s[sp + 1..])
  }

  /** What follows the length and its space: the mark line, then `n` characters of request. */
  function ReadMarked(n: nat, tail: string): (r: Option<Frame>)
    ensures r.Some? ==> |r.value.rest| < |tail|
  {
    var nl := Find(tail, '\n');
    if nl == |tail| then None
    else
      var body := tail[nl + 1..];
      if |body| < n then None
      else Some(Frame(body[..n], tail[..nl], body[n..]))
  }

  /** Reading a frame gives back the request and the mark verbatim, and leaves what followed it. */
  lemma MakeAmmoRoundTrip(request: string, mark: string, rest: string)
    requires '\n' !in mark
    ensures ReadAmmo(MakeAmmo(request, mark) + rest) == Some(Frame(request, mark, rest))
  {
    var tail := mark + "\n" + request + rest;
    assert MakeAmmo(request, mark) + rest == Decimal(|request|) + [' '] + tail;
    ReadLength(|request|, tail);
    ReadMarkedRoundTrip(request, mark, rest);
  }

  /** The length field is the decimal rendering of `n`, ended by the first space. */
  lemma ReadLength(n: nat, tail: string)
    ensures ReadAmmo(Decimal(n) + [' '] + tail) == ReadMarked(n, tail)
  {
    var d := Decimal(n);
    var s := d + [' '] + tail;
    assert ' ' !in d by {
      forall i | 0 <= i < |d| ensures d[i] != ' ' {
        assert IsDigit(d[i]);
      }
    }
    FindFirst(d, ' ', tail);
    assert s[..|d|] == d;
    DecimalValue(n);
    assert s[|d| + 1..] == tail;
  }

  lemma ReadMarkedRoundTrip(request: string, mark: string, rest: string)
    requires '\n' !in mark
    ensures ReadMarked(|request|, mark + "\n" + request + rest) == Some(Frame(request, mark, rest))
  {
    ReadMarkLine(mark, request + rest);
    assert mark + "\n" + request + rest == mark + "\n" + (request + rest);
    assert (request + rest)[..|request|] == request;
    assert (request + rest)[|request|..] == rest;
  }

  /** The mark line ends at the first newline; what follows it is left intact. */
  lemma ReadMarkLine(mark: string, body: string)
    requires '\n' !in mark
    ensures var tail := mark + "\n" + body;
      Find(tail, '\n') == |mark| && tail[..|mark|] == mark && tail[|mark| + 1..] == body
  {
    var tail := mark + "\n" + body;
    FindFirst(mark, '\n', body);
    assert tail[..|mark|] == mark;
    assert tail[|mark| + 1..] == body;
  }

  /** One written frame, as read back. */
  datatype Shot = Shot(request: string, mark: string)

  /** Reads frames until the text is used up, or fails. */
  function ReadAll(s: string): Option<seq<Shot>>
    decreases |s|
  {
    if s == [] then Some([])
    else
      match ReadAmmo(s)
      case None => None
      case Some(f) =>
        match ReadAll(f.rest)
        case None => None
        case Some(more) => Some([Shot(f.request, f.mark)] + more)
  }

  /** What the converters write for a sequence of requests: one frame each, with an empty mark. */
  function Frames(requests: seq<string>): string {
    if requests == [] then [] else MakeAmmo(requests[0], "") + Frames(requests[1..])
  }

  lemma {:induction false} FramesAppend(requests: seq<string>, r: string)
    ensures Frames(requests + [r]) == Frames(requests) + MakeAmmo(r, "")
  {
    if requests == [] {
      assert [] + [r] == [r];
      assert [r][1..] == [];
    } else {
      assert (requests + [r])[1..] == requests[1..] + [r];
      FramesAppend(requests[1..], r);
    }
  }

  function Unmarked(requests: seq<string>): (shots: seq<Shot>)
    ensures |shots| == |requests|
    ensures forall k :: 0 <= k < |requests| ==> shots[k] == Shot(requests[k], "")
  {
    seq(|requests|, k requires 0 <= k < |requests| => Shot(requests[k], ""))
  }

  /** The frames written for a sequence of requests read back as exactly those requests, in order. */
  lemma {:induction false} ReadAllFrames(requests: seq<string>)
    ensures ReadAll(Frames(requests)) == Some(Unmarked(requests))
  {
    if requests != [] {
      var first := MakeAmmo(requests[0], "");
      var rest := Frames(requests[1..]);
      assert Frames(requests) == first + rest;
      MakeAmmoRoundTrip(requests[0], "", rest);
      ReadAllFrames(requests[1..]);
      ReadAllStep(first + rest, Frame(requests[0], "", rest), Unmarked(requests[1..]));
      UnmarkedCons(requests);
    }
  }

  lemma UnmarkedCons(requests: seq<string>)
    requires requests != []
    ensures Unmarked(requests) == [Shot(requests[0], "")] + Unmarked(requests[1..])
  {
    assert Unmarked(requests)[1..] == Unmarked(requests[1..]);
  }

  lemma ReadAllStep(s: string, f: Frame, more: seq<Shot>)
    requires s != [] && ReadAmmo(s) == Some(f) && ReadAll(f.rest) == Some(more)
    ensures ReadAll(s) == Some([Shot(f.request, f.mark)] + more)
  {
  }

  // ---------------------------------------------------------------------
  // Request messages
  // ---------------------------------------------------------------------

  /** A captured request: its raw text and its header table. */
  datatype Message = Message(origin: string, headers: map<string, string>)

  const CRLF: string := "\r\n"

  /** The end of the header block. */
  const BlankLine: string := "\r\n\r\n"

  /**
   * `re.MULTILINE` (the number 8) is passed in the position of `re.sub`'s
   * `count`, so at most eight blank lines receive the new header.
   */
  const ReplaceCount: nat := 8

  const WrongHeaderFormat: string := "Wrong header format, expected \"<header_name>: <header_value>\""

  // ---------------------------------------------------------------------
  // add_headers
  // ---------------------------------------------------------------------

  /** The name part of `re.split(": *", header, 1)`: the text before the first ':', if there is one. */
  function HeaderName(spec: string): (r: Option<string>)
    ensures r.None? <==> ':' !in spec
    ensures r.Some? ==> (':' !in r.value && |r.value| < |spec| &&
      spec[..|r.value|] == r.value && spec[|r.value|] == ':')
  {
    var k := Find(spec, ':');
    if k == |spec| then None else Some(spec[..k])
  }

  /** `re.sub(pat, rep, s, count)` for a plain-text pattern and replacement: the first `count` matches, left to right. */
  function ReplaceUpTo(s: string, pat: string, rep: string, count: nat): string
    requires pat != []
    decreases |s|
  {
    if count == 0 || |s| < |pat| then s
    else if StartsWith(s, pat) then rep + ReplaceUpTo(s[|pat|..], pat, rep, count - 1)
    else [s[0]] + ReplaceUpTo(s[1..], pat, rep, count)
  }

  predicate StartsWith(s: string, pat: string) {
    |pat| <= |s| && s[..|pat|] == pat
  }

  /** `pat` occurs in `s` at none of the positions before `upTo`. */
  predicate NoMatchBefore(s: string, pat: string, upTo: int) {
    forall i :: 0 <= i < upTo && i <= |s| ==> !StartsWith(s[i..], pat)
  }

  /** Without matches there is nothing to replace. */
  lemma {:induction false} ReplaceNothing(s: string, pat: string, rep: string, count: nat)
    requires pat != [] && NoMatchBefore(s, pat, |s|)
    ensures ReplaceUpTo(s, pat, rep, count) == s
    decreases |s|
  {
    if count > 0 && |s| >= |pat| {
      assert s[0..] == s;
      assert NoMatchBefore(s[1..], pat, |s| - 1) by {
        forall i | 0 <= i < |s| - 1 ensures !StartsWith(s[1..][i..], pat) {
          assert s[1..][i..] == s[i + 1..];
        }
      }
      ReplaceNothing(s[1..], pat, rep, count);
      assert s == [s[0]] + s[1..];
    }
  }

  /** The first match is replaced, and the scan goes on after it with one replacement fewer. */
  lemma {:induction false} ReplaceFirst(head: string, pat: string, body: string, rep: string, count: nat)
    requires pat != [] && count > 0
    requires NoMatchBefore(head + pat + body, pat, |head|)
    ensures ReplaceUpTo(head + pat + body, pat, rep, count) == head + rep + ReplaceUpTo(body, pat, rep, count - 1)
    decreases |head|
  {
    var s := head + pat + body;
    if head == [] {
      assert s == pat + body;
      assert s[..|pat|] == pat;
      assert s[|pat|..] == body;
    } else {
      assert s[0..] == s;
      SplitHead(head, pat, body);
      assert NoMatchBefore(s[1..], pat, |head| - 1) by {
        forall i | 0 <= i < |head| - 1 ensures !StartsWith(s[1..][i..], pat) {
          assert s[1..][i..] == s[i + 1..];
        }
      }
      ReplaceFirst(head[1..], pat, body, rep, count);
      SplitHead(head, rep, ReplaceUpTo(body, pat, rep, count - 1));
    }
  }

  /** A non-empty head followed by a tail is its first character followed by the rest. */
  lemma SplitHead(head: string, mid: string, tail: string)
    requires head != []
    ensures (head + mid + tail)[0] == head[0] && (head + mid + tail)[1..] == head[1..] + mid + tail
    ensures [head[0]] + (head[1..] + mid + tail) == head + mid + tail
  {
    assert head == [head[0]] + head[1..];
  }

  function Repeat(s: string, n: nat): string {
    if n == 0 then [] else s + Repeat(s, n - 1)
  }

  function Min(a: nat, b: nat): nat {
    if a <= b then a else b
  }

  /** Of `n` back-to-back matches, only the first `count` are replaced. */
  lemma {:induction false} ReplaceAtMost(pat: string, rep: string, n: nat, count: nat)
    requires pat != []
    ensures ReplaceUpTo(Repeat(pat, n), pat, rep, count)
         == Repeat(rep, Min(n, count)) + Repeat(pat, n - Min(n, count))
  {
    if n == 0 {
    } else if count == 0 {
    } else {
      var s := Repeat(pat, n);
      assert s[..|pat|] == pat;
      assert s[|pat|..] == Repeat(pat, n - 1);
      ReplaceAtMost(pat, rep, n - 1, count - 1);
    }
  }

  /** The text of the request after `re.sub("\r\n\r\n", "\r\n" + header + "\r\n\r\n", origin, 8)`. */
  function InsertHeaderLine(origin: string, spec: string): string {
    ReplaceUpTo(origin, BlankLine, CRLF + spec + BlankLine, ReplaceCount)
  }

  /**
   * With a single blank line ending the headers, the new header line goes
   * just before it and everything else is kept.
   */
  lemma InsertBeforeBlankLine(head: string, body: string, spec: string)
    requires NoMatchBefore(head + BlankLine + body, BlankLine, |head|)
    requires NoMatchBefore(body, BlankLine, |body|)
    ensures InsertHeaderLine(head + BlankLine + body, spec) == head + CRLF + spec + BlankLine + body
  {
    ReplaceFirst(head, BlankLine, body, CRLF + spec + BlankLine, ReplaceCount);
    ReplaceNothing(body, BlankLine, CRLF + spec + BlankLine, ReplaceCount - 1);
  }

  /** A request with three header lines, as the converters' header tests use it. */
  const SampleRequest: string := RequestLine + CRLF + HostLine + CRLF + LengthLine + BlankLine

  const RequestLine: string := "GET https://rambler.ru/ HTTP/1.1"
  const HostLine: string := "Host: rambler.ru"
  const LengthLine: string := "Content-Length: 0"

  /** Text without a carriage return holds no match of the blank line and is copied through. */
  lemma {:induction false} ReplaceSkipText(text: string, rest: string, rep: string, count: nat)
    requires '\r' !in text
    ensures ReplaceUpTo(text + rest, BlankLine, rep, count) == text + ReplaceUpTo(rest, BlankLine, rep, count)
    decreases |text|
  {
    var s := text + rest;
    if text == [] {
      assert s == rest;
    } else if count == 0 || |s| < |BlankLine| {
      if count > 0 {
        assert |rest| < |BlankLine|;
      }
    } else {
      assert s[..|BlankLine|][0] == text[0];
      assert !StartsWith(s, BlankLine);
      assert s[1..] == text[1..] + rest;
      ReplaceSkipText(text[1..], rest, rep, count);
    }
  }

  /** A line break not followed by another carriage return is copied through. */
  lemma ReplaceSkipLineBreak(rest: string, rep: string, count: nat)
    requires rest == [] || rest[0] != '\r'
    ensures ReplaceUpTo(CRLF + rest, BlankLine, rep, count) == CRLF + ReplaceUpTo(rest, BlankLine, rep, count)
  {
    var s := CRLF + rest;
    if count > 0 && |s| >= |BlankLine| {
      assert s[..|BlankLine|][2] == rest[0];
      assert !StartsWith(s, BlankLine);
      assert s[1..] == "\n" + rest;
      ReplaceSkipText("\n", rest, rep, count);
    } else if count > 0 {
      assert ReplaceUpTo(rest, BlankLine, rep, count) == rest;
    }
  }

  /** Non-empty lines without carriage returns, each but the last followed by a CRLF. */
  function HeaderText(lines: seq<string>): (r: string)
    requires |lines| > 0
    ensures |lines[0]| <= |r| && r[..|lines[0]|] == lines[0]
  {
    if |lines| == 1 then lines[0] else lines[0] + CRLF + HeaderText(lines[1..])
  }

  predicate PlainLines(lines: seq<string>) {
    forall k :: 0 <= k < |lines| ==> lines[k] != [] && '\r' !in lines[k]
  }

  /**
   * For a request line and header lines, then the blank line, then a body
   * without carriage returns, the new header becomes the last header line and
   * nothing else changes.
   */
  lemma {:induction false} InsertAfterHeaderLines(lines: seq<string>, body: string, spec: string)
    requires |lines| > 0 && PlainLines(lines) && '\r' !in body
    ensures InsertHeaderLine(HeaderText(lines) + BlankLine + body, spec)
         == HeaderText(lines) + CRLF + spec + BlankLine + body
  {
    var rep := CRLF + spec + BlankLine;
    InsertAfter(lines, body, rep, ReplaceCount);
  }

  lemma {:induction false} InsertAfter(lines: seq<string>, body: string, rep: string, count: nat)
    requires |lines| > 0 && PlainLines(lines) && '\r' !in body && count > 0
    ensures ReplaceUpTo(HeaderText(lines) + BlankLine + body, BlankLine, rep, count)
         == HeaderText(lines) + rep + body
    decreases |lines|
  {
    if |lines| == 1 {
      InsertAfterLastLine(lines[0], body, rep, count);
    } else {
      var more := lines[1..];
      assert PlainLines(more) by {
        forall k | 0 <= k < |more| ensures more[k] != [] && '\r' !in more[k] {
          assert more[k] == lines[k + 1];
        }
      }
      InsertAfter(more, body, rep, count);
      InsertAfterFirstLine(lines[0], HeaderText(more), body, rep, count);
    }
  }

  lemma InsertAfterLastLine(line: string, body: string, rep: string, count: nat)
    requires '\r' !in line && '\r' !in body && count > 0
    ensures ReplaceUpTo(line + BlankLine + body, BlankLine, rep, count) == line + rep + body
  {
    Associate(line, BlankLine, body);
    ReplaceSkipText(line, BlankLine + body, rep, count);
    ReplaceAtBlankLine(body, rep, count);
    ReplaceSkipText(body, [], rep, count - 1);
    assert body + [] == body;
    Associate(line, rep, body);
  }

  /** A text starting with the blank line has it replaced first. */
  lemma ReplaceAtBlankLine(body: string, rep: string, count: nat)
    requires count > 0
    ensures ReplaceUpTo(BlankLine + body, BlankLine, rep, count) == rep + ReplaceUpTo(body, BlankLine, rep, count - 1)
  {
    var s := BlankLine + body;
    assert s[..|BlankLine|] == BlankLine;
    assert s[|BlankLine|..] == body;
  }

  lemma Associate(a: string, b: string, c: string)
    ensures a + b + c == a + (b + c)
  {
  }

  lemma InsertAfterFirstLine(line: string, more: string, body: string, rep: string, count: nat)
    requires '\r' !in line && more != [] && more[0] != '\r' && count > 0
    requires ReplaceUpTo(more + BlankLine + body, BlankLine, rep, count) == more + rep + body
    ensures ReplaceUpTo(line + CRLF + more + BlankLine + body, BlankLine, rep, count)
         == line + CRLF + more + rep + body
  {
    var r := more + BlankLine + body;
    Regroup(line, CRLF, more, BlankLine, body);
    ReplaceSkipText(line, CRLF + r, rep, count);
    assert r[0] == more[0];
    ReplaceSkipLineBreak(r, rep, count);
    Regroup(line, CRLF, more, rep, body);
  }

  lemma Regroup(a: string, b: string, c: string, d: string, e: string)
    ensures a + b + c + d + e == a + (b + (c + d + e))
  {
  }

  /** A `Referer` header goes in as the last header line. */
  lemma AddRefererExample(s: string, spec: string)
    requires s == SampleRequest
    requires spec == "Referer: http://domain.com/"
    ensures InsertHeaderLine(s, spec)
         == RequestLine + CRLF + HostLine + CRLF + LengthLine + CRLF + spec + BlankLine
  {
    var lines := [RequestLine, HostLine, LengthLine];
    SampleLines(lines);
    assert s == HeaderText(lines) + BlankLine + [];
    InsertAfterHeaderLines(lines, [], spec);
  }

  lemma SampleLines(lines: seq<string>)
    requires lines == [RequestLine, HostLine, LengthLine]
    ensures PlainLines(lines)
    ensures HeaderText(lines) == RequestLine + CRLF + (HostLine + CRLF + LengthLine)
  {
    assert '\r' !in RequestLine && '\r' !in HostLine && '\r' !in LengthLine;
    PlainThree(RequestLine, HostLine, LengthLine);
    HeaderThree(RequestLine, HostLine, LengthLine);
  }

  lemma HeaderThree(a: string, b: string, c: string)
    ensures HeaderText([a, b, c]) == a + CRLF + (b + CRLF + c)
  {
    assert [a, b, c][1..] == [b, c];
    assert [b, c][1..] == [c];
    assert HeaderText([c]) == c;
    assert HeaderText([b, c]) == b + CRLF + c;
  }



  lemma PlainThree(a: string, b: string, c: string)
    requires a != [] && b != [] && c != []
    requires '\r' !in a && '\r' !in b && '\r' !in c
    ensures PlainLines([a, b, c])
  {
    var lines := [a, b, c];
    forall k | 0 <= k < 3 ensures lines[k] != [] && '\r' !in lines[k] {
      if k == 0 { assert lines[k] == a; }
      else if k == 1 { assert lines[k] == b; }
      else { assert lines[k] == c; }
    }
  }

  /** Nine pipelined blank lines: only the first eight receive the header. */
  lemma InsertIntoNineBlankLines(spec: string)
    ensures InsertHeaderLine(Repeat(BlankLine, 9), spec) == Repeat(CRLF + spec + BlankLine, 8) + BlankLine
  {
    ReplaceAtMost(BlankLine, CRLF + spec + BlankLine, 9, 8);
    assert Repeat(BlankLine, 1) == BlankLine + Repeat(BlankLine, 0);
  }

  /**
   * One header of `add_headers`: a spec without ':' is an error; a name
   * already known leaves the request as it is; otherwise the line goes in and
   * the whole lower-cased line becomes a key.
   */
  function AddHeader(m: Message, spec: string): Result<Message, string> {
    match HeaderName(spec)
    case None => Err(WrongHeaderFormat)
    case Some(name) =>
      if Lower(name) in m.headers then Ok(m)
      else Ok(Message(InsertHeaderLine(m.origin, spec), m.headers[Lower(spec) := spec]))
  }

  /** Where `add_headers` leaves a request, and the error it raised if it did. */
  datatype Outcome = Outcome(message: Message, error: Option<string>)

  /** `add_headers(request, headers)`: one spec after another, stopping at the first malformed one. */
  function AddAll(m: Message, specs: seq<string>): Outcome
    decreases |specs|
  {
    if specs == [] then Outcome(m, None)
    else
      match AddHeader(m, specs[0])
      case Err(e) => Outcome(m, Some(e))
      case Ok(next) => AddAll(next, specs[1..])
  }

  /** A spec is malformed exactly when it has no ':'; the error is the format message. */
  lemma AddHeaderCases(m: Message, spec: string)
    ensures AddHeader(m, spec).Err? <==> ':' !in spec
    ensures AddHeader(m, spec).Err? ==> AddHeader(m, spec).error == WrongHeaderFormat
    ensures HeaderName(spec).Some? && Lower(HeaderName(spec).value) in m.headers ==>
      AddHeader(m, spec) == Ok(m)
  {
  }

  /**
   * `add_headers` raises exactly when some spec has no ':', and then the
   * request holds the headers of the specs before the first such spec.
   */
  lemma {:induction false} AddAllError(m: Message, specs: seq<string>)
    ensures AddAll(m, specs).error.Some? <==> exists k :: 0 <= k < |specs| && ':' !in specs[k]
    ensures AddAll(m, specs).error.Some? ==> AddAll(m, specs).error.value == WrongHeaderFormat
    ensures forall k :: 0 <= k < |specs| && ':' !in specs[k] && (forall j :: 0 <= j < k ==> ':' in specs[j]) ==>
      AddAll(m, specs).message == AddAll(m, specs[..k]).message
    decreases |specs|
  {
    if specs != [] {
      match AddHeader(m, specs[0])
      case Err(e) =>
      case Ok(next) =>
        AddAllError(next, specs[1..]);
        assert forall k :: 1 <= k < |specs| ==> specs[k] == specs[1..][k - 1];
    }
    forall k | 0 <= k < |specs| && ':' !in specs[k] && (forall j :: 0 <= j < k ==> ':' in specs[j])
      ensures AddAll(m, specs).message == AddAll(m, specs[..k]).message
    {
      AddAllKeepsPrefix(m, specs, k);
    }
  }

  /** Stopped at the first malformed spec `specs[k]`, the request is where the specs before it take it. */
  lemma {:induction false} AddAllKeepsPrefix(m: Message, specs: seq<string>, k: int)
    requires 0 <= k < |specs| && ':' !in specs[k]
    requires forall j :: 0 <= j < k ==> ':' in specs[j]
    ensures AddAll(m, specs).message == AddAll(m, specs[..k]).message
    decreases k
  {
    AddHeaderCases(m, specs[0]);
    if k > 0 {
      assert specs[1..][..k - 1] == specs[..k][1..];
      AddAllKeepsPrefix(AddHeader(m, specs[0]).value, specs[1..], k - 1);
    }
  }

  /**
   * A header whose name is not known is inserted before the blank line and
   * filed under its whole lower-cased line; the key that was tested, the
   * lower-cased name, is still not a key afterwards.
   */
  lemma AddNewHeader(head: string, body: string, headers: map<string, string>, spec: string)
    requires HeaderName(spec).Some? && Lower(HeaderName(spec).value) !in headers
    requires NoMatchBefore(head + BlankLine + body, BlankLine, |head|)
    requires NoMatchBefore(body, BlankLine, |body|)
    ensures var r := AddHeader(Message(head + BlankLine + body, headers), spec);
      r.Ok? &&
      r.value.origin == head + CRLF + spec + BlankLine + body &&
      r.value.headers == headers[Lower(spec) := spec] &&
      Lower(HeaderName(spec).value) !in r.value.headers
  {
    InsertBeforeBlankLine(head, body, spec);
    NameKeyDiffers(spec);
  }

  /** The key added (the lower-cased whole line, which holds a ':') is never the key tested (the lower-cased name, which does not). */
  lemma NameKeyDiffers(spec: string)
    requires HeaderName(spec).Some?
    ensures Lower(HeaderName(spec).value) != Lower(spec)
  {
    var name := HeaderName(spec).value;
    assert |Lower(name)| < |Lower(spec)|;
  }

  /**
   * Adding the same new header twice inserts its line twice: the first
   * addition does not make the name known.
   */
  lemma AddSameHeaderTwice(m: Message, spec: string)
    requires HeaderName(spec).Some? && Lower(HeaderName(spec).value) !in m.headers
    ensures var once := AddHeader(m, spec).value;
      AddHeader(once, spec).Ok? &&
      AddHeader(once, spec).value.origin == InsertHeaderLine(InsertHeaderLine(m.origin, spec), spec)
  {
    NameKeyDiffers(spec);
  }

  // ---------------------------------------------------------------------
  // delete_headers
  // ---------------------------------------------------------------------

  /** The length of the first line of `s`, its '\n' included. */
  function LineEnd(s: string): (k: nat)
    requires s != []
    ensures 0 < k <= |s|
    ensures forall i :: 0 <= i < k - 1 ==> s[i] != '\n'
    ensures k < |s| ==> s[k - 1] == '\n'
  {
    var i := Find(s, '\n');
    if i == |s| then |s| else i + 1
  }

  /**
   * A line (ending at its only '\n', or at the end of the text) matches
   * `^name.+?\r\n` under `re.IGNORECASE`: it starts with `name` apart from
   * letter case, and at least one character stands between the name and the
   * CRLF ending it.
   */
  predicate MatchesHeaderLine(line: string, name: string) {
    |line| >= |name| + 3 && SameIgnoringCase(line[..|name|], name) && line[|line| - 2..] == CRLF
  }

  /**
   * `re.sub('^' + name + ".+?\r\n", '', origin, flags=re.IGNORECASE | re.MULTILINE)`:
   * every matching line goes, and every other line stays.
   */
  function DeleteHeaderLines(s: string, name: string): (r: string)
    ensures |r| <= |s|
    decreases |s|
  {
    if s == [] then []
    else
      var k := LineEnd(s);
      (if MatchesHeaderLine(s[..k], name) then [] else s[..k]) + DeleteHeaderLines(s[k..], name)
  }

  /** The first line of `line + t` is `line` when `line` is a whole line, ending at its only '\n'. */
  lemma LineEndOfWholeLine(line: string, t: string)
    requires line != [] && line[|line| - 1] == '\n' && '\n' !in line[..|line| - 1]
    ensures LineEnd(line + t) == |line|
    ensures (line + t)[..|line|] == line && (line + t)[|line|..] == t
  {
    var s := line + t;
    assert s == line[..|line| - 1] + ['\n'] + t;
    FindFirst(line[..|line| - 1], '\n', t);
  }

  /** Deleting from a text that starts with a whole line: that line is judged alone, then the rest. */
  lemma DeleteWholeLine(line: string, t: string, name: string)
    requires line != [] && line[|line| - 1] == '\n' && '\n' !in line[..|line| - 1]
    ensures DeleteHeaderLines(line + t, name)
         == (if MatchesHeaderLine(line, name) then [] else line) + DeleteHeaderLines(t, name)
  {
    LineEndOfWholeLine(line, t);
  }

  lemma DeleteKeptLine(line: string, t: string, name: string)
    requires line != [] && line[|line| - 1] == '\n' && '\n' !in line[..|line| - 1]
    requires !MatchesHeaderLine(line, name)
    ensures DeleteHeaderLines(line + t, name) == line + DeleteHeaderLines(t, name)
  {
    DeleteWholeLine(line, t, name);
  }

  lemma DeleteMatchedLine(line: string, t: string, name: string)
    requires line != [] && line[|line| - 1] == '\n' && '\n' !in line[..|line| - 1]
    requires MatchesHeaderLine(line, name)
    ensures DeleteHeaderLines(line + t, name) == DeleteHeaderLines(t, name)
  {
    DeleteWholeLine(line, t, name);
  }

  /** Deleting the same header's lines a second time changes nothing. */
  lemma {:induction false} DeleteHeaderLinesIdempotent(s: string, name: string)
    ensures DeleteHeaderLines(DeleteHeaderLines(s, name), name) == DeleteHeaderLines(s, name)
    decreases |s|
  {
    if s != [] {
      var k := LineEnd(s);
      var line := s[..k];
      var t := s[k..];
      assert DeleteHeaderLines(s, name)
          == (if MatchesHeaderLine(line, name) then [] else line) + DeleteHeaderLines(t, name);
      var dt := DeleteHeaderLines(t, name);
      DeleteHeaderLinesIdempotent(t, name);
      if MatchesHeaderLine(line, name) {
        assert DeleteHeaderLines(s, name) == dt;
      } else if k < |s| {
        assert DeleteHeaderLines(s, name) == line + dt;
        DeleteWholeLine(line, dt, name);
      } else {
        assert t == [] && line == s;
        assert dt == [];
        assert DeleteHeaderLines(s, name) == s;
      }
    }
  }

  /** No line of `s` is a line the deletion pattern matches. */
  predicate NoHeaderLine(s: string, name: string)
    decreases |s|
  {
    s == [] || (!MatchesHeaderLine(s[..LineEnd(s)], name) && NoHeaderLine(s[LineEnd(s)..], name))
  }

  /** After deleting a header's lines, no line of the text matches the deletion pattern. */
  lemma {:induction false} DeleteHeaderLinesMatchesNone(s: string, name: string)
    ensures NoHeaderLine(DeleteHeaderLines(s, name), name)
    decreases |s|
  {
    if s != [] {
      var k := LineEnd(s);
      var line := s[..k];
      var t := s[k..];
      var dt := DeleteHeaderLines(t, name);
      DeleteHeaderLinesMatchesNone(t, name);
      if MatchesHeaderLine(line, name) {
        assert DeleteHeaderLines(s, name) == dt;
      } else if k < |s| {
        assert DeleteHeaderLines(s, name) == line + dt;
        LineEndOfWholeLine(line, dt);
      } else {
        assert t == [] && line == s;
        assert DeleteHeaderLines(s, name) == s;
        assert s[..LineEnd(s)] == s && s[LineEnd(s)..] == [];
      }
    }
  }

  /** `s` starts with `name`, apart from letter case. */
  predicate StartsWithName(s: string, name: string) {
    |name| <= |s| && SameIgnoringCase(s[..|name|], name)
  }

  /** No line of `s` starts with the name. */
  predicate NoLineStartsWith(s: string, name: string) {
    forall i :: 0 <= i < |s| && (i == 0 || s[i - 1] == '\n') ==> !StartsWithName(s[i..], name)
  }

  lemma FirstLineKept(s: string, name: string)
    requires s != [] && !StartsWithName(s, name)
    ensures !MatchesHeaderLine(s[..LineEnd(s)], name)
  {
    var line := s[..LineEnd(s)];
    if |name| + 3 <= |line| {
      assert line[..|name|] == s[..|name|];
    }
  }

  lemma LaterLines(s: string, name: string)
    requires s != [] && NoLineStartsWith(s, name)
    ensures NoLineStartsWith(s[LineEnd(s)..], name)
  {
    var k := LineEnd(s);
    var t := s[k..];
    forall i | 0 <= i < |t| && (i == 0 || t[i - 1] == '\n')
      ensures !StartsWithName(t[i..], name)
    {
      assert t[i..] == s[k + i..];
      if i > 0 {
        assert t[i - 1] == s[k + i - 1];
      }
    }
  }

  lemma AbsentFirstLine(s: string, name: string)
    requires s != [] && NoLineStartsWith(s, name)
    ensures DeleteHeaderLines(s, name) == s[..LineEnd(s)] + DeleteHeaderLines(s[LineEnd(s)..], name)
    ensures NoLineStartsWith(s[LineEnd(s)..], name)
  {
    assert s[0..] == s;
    FirstLineKept(s, name);
    LaterLines(s, name);
  }

  /** A text none of whose lines starts with the name keeps all of its lines. */
  lemma {:induction false} DeleteHeaderLinesAbsent(s: string, name: string)
    requires NoLineStartsWith(s, name)
    ensures DeleteHeaderLines(s, name) == s
    decreases |s|
  {
    if s != [] {
      var k := LineEnd(s);
      AbsentFirstLine(s, name);
      DeleteHeaderLinesAbsent(s[k..], name);
      SplitRejoin(s, k);
    }
  }

  lemma SplitRejoin(s: string, k: nat)
    requires k <= |s|
    ensures s[..k] + s[k..] == s
  {
  }

  /** Deleting `content-length` removes that line and keeps the others. */
  lemma DeleteContentLengthExample(s: string, name: string)
    requires s == SampleRequest && name == "content-length"
    ensures DeleteHeaderLines(s, name) == (RequestLine + CRLF) + ((HostLine + CRLF) + CRLF)
  {
    var l1, l2, l3 := RequestLine + CRLF, HostLine + CRLF, LengthLine + CRLF;
    assert s == l1 + (l2 + (l3 + CRLF)) by {
      SampleRequestLines();
    }
    KeptLine(l1, name, 'G', 'g');
    KeptLine(l2, name, 'H', 'h');
    DeletedLine(l3, name);
    DeleteThirdLine(l1, l2, l3, name);
  }

  lemma DeleteBeforeBlankLine(line: string, name: string)
    requires line != [] && line[|line| - 1] == '\n' && '\n' !in line[..|line| - 1] && MatchesHeaderLine(line, name)
    ensures DeleteHeaderLines(line + CRLF, name) == CRLF
  {
    assert CRLF[..|CRLF| - 1] == "\r";
    assert !MatchesHeaderLine(CRLF, name);
    DeleteKeptLine(CRLF, [], name);
    assert CRLF + [] == CRLF;
    DeleteMatchedLine(line, CRLF, name);
  }

  lemma DeleteThirdLine(l1: string, l2: string, l3: string, name: string)
    requires l1 != [] && l1[|l1| - 1] == '\n' && '\n' !in l1[..|l1| - 1] && !MatchesHeaderLine(l1, name)
    requires l2 != [] && l2[|l2| - 1] == '\n' && '\n' !in l2[..|l2| - 1] && !MatchesHeaderLine(l2, name)
    requires l3 != [] && l3[|l3| - 1] == '\n' && '\n' !in l3[..|l3| - 1] && MatchesHeaderLine(l3, name)
    requires |name| > 0
    ensures DeleteHeaderLines(l1 + (l2 + (l3 + CRLF)), name) == l1 + (l2 + CRLF)
  {
    DeleteBeforeBlankLine(l3, name);
    DeleteKeptLine(l2, l3 + CRLF, name);
    DeleteKeptLine(l1, l2 + (l3 + CRLF), name);
  }

  lemma SampleRequestLines()
    ensures SampleRequest == (RequestLine + CRLF) + ((HostLine + CRLF) + ((LengthLine + CRLF) + CRLF))
  {
  }

  lemma KeptLine(line: string, name: string, first: char, lower: char)
    requires name == "content-length"
    requires (line == RequestLine + CRLF && first == 'G' && lower == 'g') ||
             (line == HostLine + CRLF && first == 'H' && lower == 'h')
    ensures line != [] && line[|line| - 1] == '\n' && '\n' !in line[..|line| - 1]
    ensures !MatchesHeaderLine(line, name)
  {
    assert Lower(name)[0] == LowerChar('c') == 'c';
    assert RequestLine[0] == 'G' && HostLine[0] == 'H';
    assert line[0] == first;
    assert line[..|name|][0] == first;
    assert Lower(line[..|name|])[0] == LowerChar(first) == lower;
  }

  lemma DeletedLine(line: string, name: string)
    requires name == "content-length" && line == LengthLine + CRLF
    ensures line != [] && line[|line| - 1] == '\n' && '\n' !in line[..|line| - 1]
    ensures MatchesHeaderLine(line, name)
  {
    assert line[..|name|] == "Content-Length";
  }



  /** One name of `delete_headers`: only a known name has its lines removed and its key dropped. */
  function DeleteHeader(m: Message, name: string): Message {
    if Lower(name) in m.headers then
      Message(DeleteHeaderLines(m.origin, name), m.headers - {Lower(name)})
    else m
  }

  /** `delete_headers(request, headers)`: one name after another. */
  function DeleteAll(m: Message, names: seq<string>): Message
    decreases |names|
  {
    if names == [] then m else DeleteAll(DeleteHeader(m, names[0]), names[1..])
  }

  /**
   * An unknown name changes nothing; a known one loses its key (and only
   * that key), and deleting it again changes nothing.
   */
  lemma DeleteHeaderCases(m: Message, name: string)
    ensures Lower(name) !in m.headers ==> DeleteHeader(m, name) == m
    ensures Lower(name) !in DeleteHeader(m, name).headers
    ensures forall key :: key in m.headers && key != Lower(name) ==>
      key in DeleteHeader(m, name).headers && DeleteHeader(m, name).headers[key] == m.headers[key]
    ensures DeleteHeader(DeleteHeader(m, name), name) == DeleteHeader(m, name)
  {
  }

  /** After `delete_headers`, none of the deleted names is a key. */
  lemma {:induction false} DeleteAllDropsKeys(m: Message, names: seq<string>)
    ensures forall k :: 0 <= k < |names| ==> Lower(names[k]) !in DeleteAll(m, names).headers
    decreases |names|
  {
    if names != [] {
      var next := DeleteHeader(m, names[0]);
      DeleteAllDropsKeys(next, names[1..]);
      DeleteAllKeepsAbsent(next, names[1..], Lower(names[0]));
      assert forall k :: 1 <= k < |names| ==> names[k] == names[1..][k - 1];
    }
  }

  lemma {:induction false} DeleteAllKeepsAbsent(m: Message, names: seq<string>, key: string)
    requires key !in m.headers
    ensures key !in DeleteAll(m, names).headers
    decreases |names|
  {
    if names != [] {
      DeleteAllKeepsAbsent(DeleteHeader(m, names[0]), names[1..], key);
    }
  }

  // ---------------------------------------------------------------------
  // The request object both converters rewrite in place
  // ---------------------------------------------------------------------

  class Request {
    var origin: string
    var headers: map<string, string>

    constructor(m: Message)
      ensures origin == m.origin && headers == m.headers
    {
      origin := m.origin;
      headers := m.headers;
    }

    function Snapshot(): Message
      reads this
    {
      Message(origin, headers)
    }

    /** `delete_headers(request, headers)` */
    method DeleteHeaders(names: seq<string>)
      modifies this
      ensures Snapshot() == DeleteAll(old(Snapshot()), names)
    {
      for i := 0 to |names|
        invariant DeleteAll(Snapshot(), names[i..]) == DeleteAll(old(Snapshot()), names)
      {
        assert names[i..][0] == names[i] && names[i..][1..] == names[i + 1..];
        var header := names[i];
        if Lower(header) in headers {
          origin := DeleteHeaderLines(origin, header);
          headers := headers - {Lower(header)};
        }
      }
    }

    /** `add_headers(request, headers)`; the error it raises is returned. */
    method AddHeaders(specs: seq<string>) returns (error: Option<string>)
      modifies this
      ensures Outcome(Snapshot(), error) == AddAll(old(Snapshot()), specs)
    {
      for i := 0 to |specs|
        invariant AddAll(Snapshot(), specs[i..]) == AddAll(old(Snapshot()), specs)
      {
        assert specs[i..][0] == specs[i] && specs[i..][1..] == specs[i + 1..];
        var header := specs[i];
        var name := HeaderName(header);
        if name.Some? {
          if Lower(name.value) !in headers {
            origin := InsertHeaderLine(origin, header);
            headers := headers[Lower(header) := header];
          }
        } else {
          return Some(WrongHeaderFormat);
        }
      }
      return None;
    }
  }

  // ---------------------------------------------------------------------
  // The per-request step both converters share
  // ---------------------------------------------------------------------

  /** The command-line lists a run uses: `--delete-header` names and `--add-header` specs. */
  datatype Options = Options(deleteHeader: seq<string>, addHeader: seq<string>)

  /** One request through the converter loop: delete first, then add, each only when its list is non-empty. */
  function Prepare(m: Message, opts: Options): Outcome {
    var cleaned := if opts.deleteHeader != [] then DeleteAll(m, opts.deleteHeader) else m;
    if opts.addHeader != [] then AddAll(cleaned, opts.addHeader) else Outcome(cleaned, None)
  }

  /** Some spec has no ':'. */
  predicate Malformed(specs: seq<string>) {
    exists k :: 0 <= k < |specs| && ':' !in specs[k]
  }

  /** Whether a request fails depends on the specs alone, never on the request. */
  lemma PrepareError(m: Message, opts: Options)
    ensures Prepare(m, opts).error.Some? <==> Malformed(opts.addHeader)
    ensures Prepare(m, opts).error.Some? ==> Prepare(m, opts).error.value == WrongHeaderFormat
  {
    if opts.addHeader != [] {
      var cleaned := if opts.deleteHeader != [] then DeleteAll(m, opts.deleteHeader) else m;
      AddAllError(cleaned, opts.addHeader);
    }
  }

  /**
   * A header named both for deletion and for addition is replaced: its old
   * lines go, and the new line is inserted into what is left.
   */
  lemma DeleteThenAdd(m: Message, name: string, spec: string)
    requires HeaderName(spec).Some? && Lower(HeaderName(spec).value) == Lower(name)
    ensures var o := Prepare(m, Options([name], [spec]));
      o.error.None? &&
      o.message.origin == InsertHeaderLine(DeleteHeader(m, name).origin, spec) &&
      o.message.headers == DeleteHeader(m, name).headers[Lower(spec) := spec]
  {
    var cleaned := DeleteHeader(m, name);
    assert DeleteAll(m, [name]) == DeleteAll(cleaned, []);
    assert AddAll(cleaned, [spec]) == AddAll(AddHeader(cleaned, spec).value, []);
  }

  /** The request texts the converter loop writes, one per request, when no error stops it. */
  function Prepared(requests: seq<Message>, opts: Options): (origins: seq<string>)
    ensures |origins| == |requests|
  {
    seq(|requests|, k requires 0 <= k < |requests| => Prepare(requests[k], opts).message.origin)
  }

  /** Where the converter loop stands: what it has written, and the error that stopped it, if one did. */
  datatype Written = Written(output: string, error: Option<string>)

  /**
   * The converter loop run on the requests after `written`: each prepared
   * request is framed and appended; the first error stops the loop, keeping
   * what was written before it.
   */
  function Convert(written: string, requests: seq<Message>, opts: Options): Written
    decreases |requests|
  {
    if requests == [] then Written(written, None)
    else
      var o := Prepare(requests[0], opts);
      if o.error.Some? then Written(written, o.error)
      else Convert(written + MakeAmmo(o.message.origin, ""), requests[1..], opts)
  }

  /** With well-formed specs every request is written, in order, one frame each. */
  lemma {:induction false} ConvertAll(written: string, requests: seq<Message>, opts: Options)
    requires !Malformed(opts.addHeader)
    ensures Convert(written, requests, opts) == Written(written + Frames(Prepared(requests, opts)), None)
    decreases |requests|
  {
    if requests == [] {
      assert Prepared(requests, opts) == [];
    } else {
      var first := Prepare(requests[0], opts).message.origin;
      PrepareError(requests[0], opts);
      ConvertAll(written + MakeAmmo(first, ""), requests[1..], opts);
      assert Prepared(requests, opts) == [first] + Prepared(requests[1..], opts);
      assert Prepared(requests, opts)[1..] == Prepared(requests[1..], opts);
      assert written + MakeAmmo(first, "") + Frames(Prepared(requests[1..], opts))
          == written + Frames(Prepared(requests, opts));
    }
  }

  /** A malformed spec fails on the very first request, so nothing further is written. */
  lemma ConvertFails(written: string, requests: seq<Message>, opts: Options)
    requires requests != [] && Malformed(opts.addHeader)
    ensures Convert(written, requests, opts) == Written(written, Some(WrongHeaderFormat))
  {
    PrepareError(requests[0], opts);
  }

  /** The ammo written for well-formed specs reads back as the prepared requests, in order, with empty marks. */
  lemma ConvertRoundTrip(requests: seq<Message>, opts: Options)
    requires !Malformed(opts.addHeader)
    ensures Convert("", requests, opts).error.None?
    ensures ReadAll(Convert("", requests, opts).output) == Some(Unmarked(Prepared(requests, opts)))
  {
    ConvertAll("", requests, opts);
    assert "" + Frames(Prepared(requests, opts)) == Frames(Prepared(requests, opts));
    ReadAllFrames(Prepared(requests, opts));
  }
}
