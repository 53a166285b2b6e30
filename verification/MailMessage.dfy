/**
 * The message on the wire (`src/billing/email.rs`): header checks, line endings, dot-stuffing, and
 * the receiver of section 4.5.2 of RFC 5321 that undoes it. Everything is bytes.
 */
module MailMessage {
  import opened Prelude

  type Bytes = seq<byte>

  const CR: byte := 13
  const LF: byte := 10
  const DOT: byte := 46
  const AT: byte := 64
  const COLON: byte := 58
  const SPACE: byte := 32
  const TAB: byte := 9
  const CRLF: Bytes := [CR, LF]

  function Ascii(text: string): (r: Bytes)
    ensures |r| == |text|
  {
    seq(|text|, i requires 0 <= i < |text| => if text[i] as int < 128 then text[i] as int else 63)
  }

  // ---------------------------------------------------------------------
  // Building a message
  // ---------------------------------------------------------------------

  datatype Message = Message(from: Bytes, to: Bytes, subject: Bytes, body: Bytes)

  datatype Field = From | To | Subject

  datatype Flaw = Empty | LineBreak | Control | NoAt

  datatype HeaderError = HeaderError(field: Field, flaw: Flaw)

  predicate HasLineBreak(value: Bytes) {
    CR in value || LF in value
  }

  /** A control character, in UTF-8: C0 and DEL are one byte, C1 is 0xC2 and a byte below 0xA0. */
  predicate HasControl(value: Bytes) {
    || (exists i :: 0 <= i < |value| && (value[i] < 32 || value[i] == 127))
    || (exists i :: 0 <= i < |value| - 1 && value[i] == 0xC2 && 0x80 <= value[i + 1] < 0xA0)
  }

  function CheckHeader(field: Field, value: Bytes): Option<HeaderError> {
    if value == [] then Some(HeaderError(field, Empty))
    else if HasLineBreak(value) then Some(HeaderError(field, LineBreak))
    else if HasControl(value) then Some(HeaderError(field, Control))
    else None
  }

  /** `Message::new`: the first flaw found, in the order the source looks for them. */
  function NewMessage(from: Bytes, to: Bytes, subject: Bytes, body: Bytes): Result<Message, HeaderError> {
    if CheckHeader(From, from).Some? then Err(CheckHeader(From, from).value)
    else if CheckHeader(To, to).Some? then Err(CheckHeader(To, to).value)
    else if CheckHeader(Subject, subject).Some? then Err(CheckHeader(Subject, subject).value)
    else if AT !in to then Err(HeaderError(To, NoAt))
    else if AT !in from then Err(HeaderError(From, NoAt))
    else Ok(Message(from, to, subject, body))
  }

  /** What may stand in a header: something, and no control character, line ends among them. */
  ghost predicate Usable(value: Bytes) {
    && value != []
    && (forall i :: 0 <= i < |value| ==> 32 <= value[i] != 127)
    && (forall i :: 0 < i < |value| && value[i - 1] == 0xC2 ==> value[i] < 0x80 || 0xA0 <= value[i])
  }

  /** Accepted exactly when its headers are usable and both addresses have an `@`; else a field is named. */
  lemma AcceptedExactlyWhen(from: Bytes, to: Bytes, subject: Bytes, body: Bytes)
    ensures var r := NewMessage(from, to, subject, body);
      && (r.Ok? <==> Usable(from) && Usable(to) && Usable(subject) && AT in to && AT in from)
      && (r.Ok? ==> r.value == Message(from, to, subject, body))
      && (r.Err? ==> r.error.field == if !Usable(from) then From
                                      else if !Usable(to) then To
                                      else if !Usable(subject) then Subject
                                      else if AT !in to then To else From)
  {
    UsableExactlyWhen(From, from);
    UsableExactlyWhen(To, to);
    UsableExactlyWhen(Subject, subject);
  }

  /** The flaw named is the first of: nothing there, a line end, another control character. */
  lemma UsableExactlyWhen(field: Field, value: Bytes)
    ensures CheckHeader(field, value).None? <==> Usable(value)
    ensures CheckHeader(field, value).Some? ==>
      var e := CheckHeader(field, value).value;
      && e.field == field && (e.flaw == Empty <==> value == [])
      && (e.flaw == LineBreak <==> CR in value || LF in value)
      && e.flaw != NoAt
  {
    if CheckHeader(field, value).None? {
      forall i | 0 <= i < |value| ensures 32 <= value[i] != 127 {
        assert !(value[i] < 32 || value[i] == 127);
      }
      forall i | 0 < i < |value| && value[i - 1] == 0xC2 ensures value[i] < 0x80 || 0xA0 <= value[i] {
        assert !(value[i - 1] == 0xC2 && 0x80 <= value[i - 1 + 1] < 0xA0);
      }
    }
  }

  /** A line's own text: no line ending inside. */
  predicate Plain(line: Bytes) {
    CR !in line && LF !in line
  }

  // ---------------------------------------------------------------------
  // Line endings
  // ---------------------------------------------------------------------

  /** `replace("\r\n", "\n")`. */
  function ReplaceCrLf(s: Bytes): Bytes {
    if s == [] then []
    else if |s| >= 2 && s[0] == CR && s[1] == LF then [LF] + ReplaceCrLf(s[2..])
    else [s[0]] + ReplaceCrLf(s[1..])
  }

  /** `replace('\r', "\n")`. */
  function ReplaceCr(s: Bytes): Bytes {
    if s == [] then [] else [if s[0] == CR then LF else s[0]] + ReplaceCr(s[1..])
  }

  /** `split('\n')`: always at least one piece. */
  function SplitLf(s: Bytes): (r: seq<Bytes>)
    ensures r != []
  {
    if s == [] then [[]]
    else if s[0] == LF then [[]] + SplitLf(s[1..])
    else
      var rest := SplitLf(s[1..]);
      [[s[0]] + rest[0]] + rest[1..]
  }

  function NormalisedLines(body: Bytes): seq<Bytes> {
    SplitLf(ReplaceCr(ReplaceCrLf(body)))
  }

  /** The lines of a text in which CRLF, CR and LF each end a line. */
  function LinesOf(s: Bytes): (r: seq<Bytes>)
    ensures r != []
  {
    if s == [] then [[]]
    else if |s| >= 2 && s[0] == CR && s[1] == LF then [[]] + LinesOf(s[2..])
    else if s[0] == CR || s[0] == LF then [[]] + LinesOf(s[1..])
    else
      var rest := LinesOf(s[1..]);
      [[s[0]] + rest[0]] + rest[1..]
  }

  /** The three passes find exactly the lines. */
  lemma {:induction false} NormalisedLinesAreTheLines(body: Bytes)
    ensures NormalisedLines(body) == LinesOf(body)
  {
    if body == [] {
    } else if |body| >= 2 && body[0] == CR && body[1] == LF {
      NormalisedLinesAreTheLines(body[2..]);
      assert ReplaceCr([LF] + ReplaceCrLf(body[2..])) == [LF] + ReplaceCr(ReplaceCrLf(body[2..])) by {
        assert ([LF] + ReplaceCrLf(body[2..]))[1..] == ReplaceCrLf(body[2..]);
      }
      SplitCons(LF, ReplaceCr(ReplaceCrLf(body[2..])));
    } else {
      NormalisedLinesAreTheLines(body[1..]);
      var c := if body[0] == CR then LF else body[0];
      assert ReplaceCr([body[0]] + ReplaceCrLf(body[1..])) == [c] + ReplaceCr(ReplaceCrLf(body[1..])) by {
        assert ([body[0]] + ReplaceCrLf(body[1..]))[1..] == ReplaceCrLf(body[1..]);
      }
      SplitCons(c, ReplaceCr(ReplaceCrLf(body[1..])));
    }
  }

  lemma SplitCons(c: byte, s: Bytes)
    ensures SplitLf([c] + s) == if c == LF then [[]] + SplitLf(s) else [[c] + SplitLf(s)[0]] + SplitLf(s)[1..]
  {
    assert ([c] + s)[1..] == s;
  }

  ghost predicate AllPlain(lines: seq<Bytes>) {
    forall i :: 0 <= i < |lines| ==> Plain(lines[i])
  }

  lemma {:induction false} LinesArePlain(s: Bytes)
    ensures AllPlain(LinesOf(s))
  {
    if s == [] {
    } else if |s| >= 2 && s[0] == CR && s[1] == LF {
      LinesArePlain(s[2..]);
    } else {
      LinesArePlain(s[1..]);
    }
  }

  // ---------------------------------------------------------------------
  // The message's bytes
  // ---------------------------------------------------------------------

  /** Lines, each ended by CRLF. */
  function Join(lines: seq<Bytes>): Bytes {
    if lines == [] then [] else lines[0] + CRLF + Join(lines[1..])
  }

  function Header(name: string, value: Bytes): Bytes {
    Ascii(name) + [COLON, SPACE] + value
  }

  /** The headers, with the clock's date already rendered. */
  function Headers(m: Message, date: Bytes): seq<(string, Bytes)> {
    [("From", m.from), ("To", m.to), ("Subject", m.subject), ("Date", date), ("MIME-Version", Ascii("1.0")),
     ("Content-Type", Ascii("text/plain; charset=utf-8")), ("Content-Transfer-Encoding", Ascii("8bit")),
     ("Auto-Submitted", Ascii("auto-generated"))]
  }

  function HeaderLines(headers: seq<(string, Bytes)>): (r: seq<Bytes>)
    ensures |r| == |headers|
  {
    seq(|headers|, i requires 0 <= i < |headers| => Header(headers[i].0, headers[i].1))
  }

  function WireLines(m: Message, date: Bytes): seq<Bytes> {
    HeaderLines(Headers(m, date)) + [[]] + NormalisedLines(m.body)
  }

  method WriteHeaders(headers: seq<(string, Bytes)>) returns (out: Bytes)
    ensures out == Join(HeaderLines(headers))
  {
    out := [];
    for i := 0 to |headers|
      invariant out == Join(HeaderLines(headers[..i]))
    {
      HeaderLinesSnoc(headers, i);
      JoinSnoc(HeaderLines(headers[..i]), Header(headers[i].0, headers[i].1));
      out := out + Ascii(headers[i].0) + [COLON, SPACE] + headers[i].1 + CRLF;
    }
    assert headers[..|headers|] == headers;
  }

  method WriteLines(lines: seq<Bytes>) returns (out: Bytes)
    ensures out == Join(lines)
  {
    out := [];
    for i := 0 to |lines|
      invariant out == Join(lines[..i])
    {
      JoinSnoc(lines[..i], lines[i]);
      assert lines[..i + 1] == lines[..i] + [lines[i]];
      out := out + lines[i] + CRLF;
    }
    assert lines[..|lines|] == lines;
  }

  method WireBytes(m: Message, date: Bytes) returns (out: Bytes)
    ensures out == Join(WireLines(m, date))
  {
    var headers := WriteHeaders(Headers(m, date));
    var body := WriteLines(NormalisedLines(m.body));
    JoinSnoc(HeaderLines(Headers(m, date)), []);
    JoinConcat(HeaderLines(Headers(m, date)) + [[]], NormalisedLines(m.body));
    out := headers + CRLF + body;
  }

  lemma Assoc(x: Bytes, y: Bytes, z: Bytes)
    ensures x + (y + z) == x + y + z
  {
  }

  lemma {:induction false} JoinConcat(a: seq<Bytes>, b: seq<Bytes>)
    ensures Join(a + b) == Join(a) + Join(b)
  {
    if a == [] {
      assert a + b == b;
    } else {
      var rest := a[1..];
      JoinConcat(rest, b);
      assert (a + b)[1..] == rest + b;
      Assoc(a[0] + CRLF, Join(rest), Join(b));
    }
  }

  lemma JoinSnoc(a: seq<Bytes>, line: Bytes)
    ensures Join(a + [line]) == Join(a) + line + CRLF
  {
    JoinConcat(a, [line]);
    assert [line][1..] == [];
    assert Join([line]) == line + CRLF;
  }

  lemma HeaderLinesSnoc(headers: seq<(string, Bytes)>, i: nat)
    requires i < |headers|
    ensures HeaderLines(headers[..i + 1]) == HeaderLines(headers[..i]) + [Header(headers[i].0, headers[i].1)]
  {
  }

  // ---------------------------------------------------------------------
  // Dot-stuffing
  // ---------------------------------------------------------------------

  /** Doubles a dot that starts a line; a line starts at the beginning and after every LF. */
  function StuffFrom(bytes: Bytes, atLineStart: bool): Bytes {
    if bytes == [] then []
    else
      var doubled := if atLineStart && bytes[0] == DOT then [DOT] else [];
      doubled + [bytes[0]] + StuffFrom(bytes[1..], bytes[0] == LF)
  }

  method Stuffed(bytes: Bytes) returns (out: Bytes)
    ensures out == StuffFrom(bytes, true)
  {
    out := [];
    var atLineStart := true;
    for i := 0 to |bytes|
      invariant out + StuffFrom(bytes[i..], atLineStart) == StuffFrom(bytes, true)
    {
      var doubled := if atLineStart && bytes[i] == DOT then [DOT] else [];
      assert bytes[i..][1..] == bytes[i + 1..];
      Assoc(out, doubled + [bytes[i]], StuffFrom(bytes[i + 1..], bytes[i] == LF));
      out := out + (doubled + [bytes[i]]);
      atLineStart := bytes[i] == LF;
    }
    assert bytes[|bytes|..] == [];
  }

  /** Section 4.5.2 of RFC 5321, the sender's half, on one line. */
  function StuffLine(line: Bytes): Bytes {
    if line != [] && line[0] == DOT then [DOT] + line else line
  }

  function StuffLines(lines: seq<Bytes>): seq<Bytes> {
    if lines == [] then [] else [StuffLine(lines[0])] + StuffLines(lines[1..])
  }

  lemma {:induction false} StuffRest(line: Bytes, rest: Bytes)
    requires Plain(line)
    ensures StuffFrom(line + CRLF + rest, false) == line + CRLF + StuffFrom(rest, true)
  {
    if line == [] {
      assert [] + CRLF + rest == [CR] + ([LF] + rest);
      assert ([CR] + ([LF] + rest))[1..] == [LF] + rest;
      assert ([LF] + rest)[1..] == rest;
    } else {
      assert Plain(line[1..]);
      StuffRest(line[1..], rest);
      assert line == [line[0]] + line[1..];
      assert (line + CRLF + rest)[1..] == line[1..] + CRLF + rest;
    }
  }

  lemma StuffOneLine(line: Bytes, rest: Bytes)
    requires Plain(line)
    ensures StuffFrom(line + CRLF + rest, true) == StuffLine(line) + CRLF + StuffFrom(rest, true)
  {
    StuffRest(line, rest);
    var whole := line + CRLF + rest;
    assert StuffFrom(whole, true) == (if whole[0] == DOT then [DOT] else []) + StuffFrom(whole, false);
    if line != [] && line[0] == DOT {
      Assoc([DOT], line, CRLF);
      Assoc([DOT], line + CRLF, StuffFrom(rest, true));
    } else {
      assert whole[0] != DOT;
    }
  }

  /** Byte by byte, the loop stuffs every line and nothing else. */
  lemma {:induction false} StuffingIsByLine(lines: seq<Bytes>)
    requires AllPlain(lines)
    ensures StuffFrom(Join(lines), true) == Join(StuffLines(lines))
  {
    if lines != [] {
      StuffingIsByLine(lines[1..]);
      StuffOneLine(lines[0], Join(lines[1..]));
      assert StuffLines(lines)[1..] == StuffLines(lines[1..]);
    }
  }

  // ---------------------------------------------------------------------
  // The receiver
  // ---------------------------------------------------------------------

  /** Where the first CRLF is. */
  function LineEnd(s: Bytes): (r: Option<nat>)
    ensures r.Some? ==> r.value + 2 <= |s|
  {
    if |s| < 2 then None
    else if s[0] == CR && s[1] == LF then Some(0)
    else
      var rest := LineEnd(s[1..]);
      if rest.None? then None else Some(rest.value + 1)
  }

  /**
   * Section 4.5.2 of RFC 5321, the receiver's half: a lone dot ends the data, another leading dot is
   * dropped. Gives the data and what follows it, or nothing when the data does not end.
   */
  function Receive(s: Bytes): Option<(Bytes, Bytes)>
    decreases |s|
  {
    match LineEnd(s)
    case None => None
    case Some(k) =>
      var line, rest := s[..k], s[k + 2..];
      if line == [DOT] then Some(([], rest))
      else
        match Receive(rest)
        case None => None
        case Some(more) => Some(((if line != [] && line[0] == DOT then line[1..] else line) + CRLF + more.0, more.1))
  }

  lemma {:induction false} FirstLine(line: Bytes, rest: Bytes)
    requires Plain(line)
    ensures LineEnd(line + CRLF + rest) == Some(|line|)
    ensures (line + CRLF + rest)[..|line|] == line && (line + CRLF + rest)[|line| + 2..] == rest
  {
    if line != [] {
      FirstLine(line[1..], rest);
      assert (line + CRLF + rest)[1..] == line[1..] + CRLF + rest;
    }
  }

  lemma ReceiveOneLine(line: Bytes, rest: Bytes)
    requires Plain(line)
    ensures Receive(StuffLine(line) + CRLF + rest)
         == match Receive(rest) case None => None case Some(more) => Some((line + CRLF + more.0, more.1))
  {
    FirstLine(StuffLine(line), rest);
    assert ([DOT] + line)[1..] == line;
  }

  lemma {:induction false} ReceiveLines(lines: seq<Bytes>, rest: Bytes)
    requires AllPlain(lines)
    ensures Receive(Join(StuffLines(lines)) + ([DOT] + CRLF + rest)) == Some((Join(lines), rest))
  {
    var tail := [DOT] + CRLF + rest;
    if lines == [] {
      FirstLine([DOT], rest);
      assert [] + tail == tail;
    } else {
      var more := Join(StuffLines(lines[1..]));
      ReceiveLines(lines[1..], rest);
      assert StuffLines(lines)[1..] == StuffLines(lines[1..]);
      Assoc(StuffLine(lines[0]) + CRLF, more, tail);
      ReceiveOneLine(lines[0], more + tail);
    }
  }

  // ---------------------------------------------------------------------
  // What a receiver makes of an accepted message
  // ---------------------------------------------------------------------

  lemma AcceptedHeadersArePlain(from: Bytes, to: Bytes, subject: Bytes, body: Bytes)
    requires NewMessage(from, to, subject, body).Ok?
    ensures Plain(from) && Plain(to) && Plain(subject)
    ensures NewMessage(from, to, subject, body).value == Message(from, to, subject, body)
  {
  }

  lemma AsciiIsPlain(text: string)
    requires forall i :: 0 <= i < |text| ==> text[i] != '\r' && text[i] != '\n'
    ensures Plain(Ascii(text))
  {
    assert forall i :: 0 <= i < |text| ==> Ascii(text)[i] != CR && Ascii(text)[i] != LF;
  }

  ghost predicate PlainHeaders(headers: seq<(string, Bytes)>) {
    forall i :: 0 <= i < |headers| ==> Plain(Ascii(headers[i].0)) && Plain(headers[i].1)
  }

  lemma HeaderLinesPlain(headers: seq<(string, Bytes)>)
    requires PlainHeaders(headers)
    ensures AllPlain(HeaderLines(headers))
  {
  }

  lemma OurHeadersArePlain(m: Message, date: Bytes)
    requires Plain(m.from) && Plain(m.to) && Plain(m.subject) && Plain(date)
    ensures PlainHeaders(Headers(m, date))
  {
    AsciiIsPlain("From");
    AsciiIsPlain("To");
    AsciiIsPlain("Subject");
    AsciiIsPlain("Date");
    AsciiIsPlain("MIME-Version");
    AsciiIsPlain("Content-Type");
    AsciiIsPlain("Content-Transfer-Encoding");
    AsciiIsPlain("Auto-Submitted");
    AsciiIsPlain("1.0");
    AsciiIsPlain("text/plain; charset=utf-8");
    AsciiIsPlain("8bit");
    AsciiIsPlain("auto-generated");
  }

  lemma WireLinesArePlain(m: Message, date: Bytes)
    requires Plain(m.from) && Plain(m.to) && Plain(m.subject) && Plain(date)
    ensures AllPlain(WireLines(m, date))
  {
    OurHeadersArePlain(m, date);
    HeaderLinesPlain(Headers(m, date));
    NormalisedLinesAreTheLines(m.body);
    LinesArePlain(m.body);
  }

  /**
   * For every message `Message::new` accepts, the receiver reads the stuffed data and its final
   * dot line back to exactly the message's bytes, and is left with exactly what follows.
   */
  lemma ReceiverReadsItBack(from: Bytes, to: Bytes, subject: Bytes, body: Bytes, date: Bytes, rest: Bytes)
    requires NewMessage(from, to, subject, body).Ok? && Plain(date)
    ensures var wire := Join(WireLines(NewMessage(from, to, subject, body).value, date));
      Receive(StuffFrom(wire, true) + ([DOT] + CRLF + rest)) == Some((wire, rest))
  {
    AcceptedHeadersArePlain(from, to, subject, body);
    var m := Message(from, to, subject, body);
    WireLinesArePlain(m, date);
    StuffingIsByLine(WireLines(m, date));
    ReceiveLines(WireLines(m, date), rest);
  }

  /** Every LF follows a CR and every CR precedes an LF. */
  ghost predicate ProperLineEnds(s: Bytes) {
    && (forall i :: 0 <= i < |s| && s[i] == LF ==> i > 0 && s[i - 1] == CR)
    && (forall i :: 0 <= i < |s| && s[i] == CR ==> i + 1 < |s| && s[i + 1] == LF)
  }

  lemma {:induction false} JoinEndsProperly(lines: seq<Bytes>)
    requires AllPlain(lines)
    ensures ProperLineEnds(Join(lines))
  {
    if lines != [] {
      JoinEndsProperly(lines[1..]);
      LineThenProper(lines[0], Join(lines[1..]));
    }
  }

  lemma LineThenProper(line: Bytes, rest: Bytes)
    requires Plain(line) && ProperLineEnds(rest)
    ensures ProperLineEnds(line + CRLF + rest)
  {
    var s, n := line + CRLF + rest, |line| + 2;
    forall i | 0 <= i < |s| && s[i] == LF ensures i > 0 && s[i - 1] == CR {
      if i >= n {
        assert s[i] == rest[i - n];
      }
    }
    forall i | 0 <= i < |s| && s[i] == CR ensures i + 1 < |s| && s[i + 1] == LF {
      if i >= n {
        assert s[i] == rest[i - n];
      }
    }
  }

  /** No line ending of an accepted message is anything but CRLF, whatever its body held. */
  lemma WireEndsProperly(from: Bytes, to: Bytes, subject: Bytes, body: Bytes, date: Bytes)
    requires NewMessage(from, to, subject, body).Ok? && Plain(date)
    ensures ProperLineEnds(Join(WireLines(NewMessage(from, to, subject, body).value, date)))
  {
    AcceptedHeadersArePlain(from, to, subject, body);
    WireLinesArePlain(Message(from, to, subject, body), date);
    JoinEndsProperly(WireLines(Message(from, to, subject, body), date));
  }

  // ---------------------------------------------------------------------
  // Reading the header block back
  // ---------------------------------------------------------------------

  /** Splits a text at its CRLFs; what follows the last one must be empty. */
  function ReadLines(s: Bytes): Option<seq<Bytes>>
    decreases |s|
  {
    if s == [] then Some([])
    else
      match LineEnd(s)
      case None => None
      case Some(k) =>
        match ReadLines(s[k + 2..])
        case None => None
        case Some(rest) => Some([s[..k]] + rest)
  }

  lemma {:induction false} LinesReadBack(lines: seq<Bytes>)
    requires AllPlain(lines)
    ensures ReadLines(Join(lines)) == Some(lines)
  {
    if lines != [] {
      LinesReadBack(lines[1..]);
      FirstLine(lines[0], Join(lines[1..]));
      assert lines == [lines[0]] + lines[1..];
    }
  }

  function ColonAt(line: Bytes): (r: Option<nat>)
    ensures r.Some? ==> r.value < |line| && line[r.value] == COLON
  {
    if line == [] then None
    else if line[0] == COLON then Some(0)
    else
      var rest := ColonAt(line[1..]);
      if rest.None? then None else Some(rest.value + 1)
  }

  /** Name and value of a header line; a folded line, one that starts with white space, is refused. */
  function ParseHeader(line: Bytes): Option<(Bytes, Bytes)> {
    match ColonAt(line)
    case None => None
    case Some(k) =>
      if k == 0 || line[0] == SPACE || line[0] == TAB || k + 1 >= |line| || line[k + 1] != SPACE then None
      else Some((line[..k], line[k + 2..]))
  }

  /** The headers up to the first blank line, and the lines after it. */
  function ParseBlock(lines: seq<Bytes>): Option<(seq<(Bytes, Bytes)>, seq<Bytes>)> {
    if lines == [] then None
    else if lines[0] == [] then Some(([], lines[1..]))
    else
      match (ParseHeader(lines[0]), ParseBlock(lines[1..]))
      case (Some(h), Some(more)) => Some(([h] + more.0, more.1))
      case _ => None
  }

  ghost predicate IsName(name: Bytes) {
    name != [] && COLON !in name && name[0] != SPACE && name[0] != TAB
  }

  lemma {:induction false} ColonAfterName(name: Bytes, rest: Bytes)
    requires COLON !in name
    ensures ColonAt(name + [COLON] + rest) == Some(|name|)
  {
    if name != [] {
      ColonAfterName(name[1..], rest);
      assert (name + [COLON] + rest)[1..] == name[1..] + [COLON] + rest;
    }
  }

  lemma HeaderReadsBack(name: string, value: Bytes)
    requires IsName(Ascii(name))
    ensures Header(name, value) != [] && ParseHeader(Header(name, value)) == Some((Ascii(name), value))
  {
    var line := Header(name, value);
    ColonAfterName(Ascii(name), [SPACE] + value);
    assert line == Ascii(name) + [COLON] + ([SPACE] + value);
    assert line[..|name|] == Ascii(name) && line[|name| + 2..] == value;
  }

  function AsRead(headers: seq<(string, Bytes)>): seq<(Bytes, Bytes)> {
    seq(|headers|, i requires 0 <= i < |headers| => (Ascii(headers[i].0), headers[i].1))
  }

  lemma {:induction false} BlockReadsBack(headers: seq<(string, Bytes)>, body: seq<Bytes>)
    requires forall i :: 0 <= i < |headers| ==> IsName(Ascii(headers[i].0))
    ensures ParseBlock(HeaderLines(headers) + [[]] + body) == Some((AsRead(headers), body))
  {
    var lines := HeaderLines(headers) + [[]] + body;
    if headers == [] {
      assert lines == [[]] + body;
      assert lines[1..] == body;
    } else {
      HeaderReadsBack(headers[0].0, headers[0].1);
      BlockReadsBack(headers[1..], body);
      assert HeaderLines(headers)[1..] == HeaderLines(headers[1..]);
      assert lines[1..] == HeaderLines(headers[1..]) + [[]] + body;
      assert AsRead(headers) == [(Ascii(headers[0].0), headers[0].1)] + AsRead(headers[1..]);
    }
  }

  /**
   * Read as a mail reader would, an accepted message is from the given sender, to the given
   * recipient and about the given subject, with five more headers and no others, each once; its
   * body starts at the first blank line and has the given body's lines.
   */
  lemma MessageReadsBack(from: Bytes, to: Bytes, subject: Bytes, body: Bytes, date: Bytes)
    requires NewMessage(from, to, subject, body).Ok? && Plain(date)
    ensures var m := NewMessage(from, to, subject, body).value;
      var lines := ReadLines(Join(WireLines(m, date)));
      lines.Some? && ParseBlock(lines.value) == Some((
        [(Ascii("From"), from), (Ascii("To"), to), (Ascii("Subject"), subject), (Ascii("Date"), date),
         (Ascii("MIME-Version"), Ascii("1.0")), (Ascii("Content-Type"), Ascii("text/plain; charset=utf-8")),
         (Ascii("Content-Transfer-Encoding"), Ascii("8bit")), (Ascii("Auto-Submitted"), Ascii("auto-generated"))],
        LinesOf(body)))
  {
    AcceptedHeadersArePlain(from, to, subject, body);
    var m := Message(from, to, subject, body);
    WireLinesArePlain(m, date);
    LinesReadBack(WireLines(m, date));
    NormalisedLinesAreTheLines(body);
    OurNames(m, date);
    BlockReadsBack(Headers(m, date), NormalisedLines(body));
    OurHeaders(m, date);
  }

  lemma OurHeaders(m: Message, date: Bytes)
    ensures AsRead(Headers(m, date)) == [
      (Ascii("From"), m.from), (Ascii("To"), m.to), (Ascii("Subject"), m.subject), (Ascii("Date"), date),
      (Ascii("MIME-Version"), Ascii("1.0")), (Ascii("Content-Type"), Ascii("text/plain; charset=utf-8")),
      (Ascii("Content-Transfer-Encoding"), Ascii("8bit")), (Ascii("Auto-Submitted"), Ascii("auto-generated"))]
  {
  }

  lemma PlainName(name: string)
    requires name != "" && name[0] != '\t'
    requires forall j :: 0 <= j < |name| ==> name[j] != ':' && name[j] != ' ' && name[j] as int < 128
    ensures IsName(Ascii(name))
  {
    assert forall j :: 0 <= j < |name| ==> Ascii(name)[j] == name[j] as int;
  }

  lemma OurNames(m: Message, date: Bytes)
    ensures forall i :: 0 <= i < |Headers(m, date)| ==> IsName(Ascii(Headers(m, date)[i].0))
  {
    PlainName("From");
    PlainName("To");
    PlainName("Subject");
    PlainName("Date");
    PlainName("MIME-Version");
    PlainName("Content-Type");
    PlainName("Content-Transfer-Encoding");
    PlainName("Auto-Submitted");
  }
}
