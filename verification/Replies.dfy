/**
 * Reading a relay's replies (`src/billing/email.rs`): lines cut out of arbitrary chunks, and
 * multi-line replies of section 4.2.1 of RFC 5321.
 */
module Replies {
  import opened Prelude
  import opened MailMessage

  const MAX_REPLY_BYTES := 8192
  const CHUNK := 1024
  const MAX_ERROR_CHARS := 500

  /** U+2026. */
  const ELLIPSIS: Bytes := [0xE2, 0x80, 0xA6]

  /** What one read of the socket gives; no bytes means the peer closed it. */
  datatype Event = Data(bytes: Bytes) | Fails

  predicate ChunksFit(chunks: seq<Event>) {
    forall i :: 0 <= i < |chunks| && chunks[i].Data? ==> |chunks[i].bytes| <= CHUNK
  }

  datatype ReadError = LineTooLong | Closed | Broken | NotAReply | CodeChanged | Unseparated

  /** Bytes read and not consumed, and the chunks still to come. */
  datatype Input = Input(buffer: Bytes, chunks: seq<Event>)

  /** Everything the peer sends before the stream ends or fails. */
  function Content(chunks: seq<Event>): Bytes {
    if chunks == [] || chunks[0].Fails? || chunks[0].bytes == [] then [] else chunks[0].bytes + Content(chunks[1..])
  }

  function All(i: Input): Bytes {
    i.buffer + Content(i.chunks)
  }

  function FirstLf(s: Bytes): (r: Option<nat>)
    ensures r.Some? ==> r.value < |s| && s[r.value] == LF
    ensures r.None? <==> LF !in s
  {
    if s == [] then None
    else if s[0] == LF then Some(0)
    else
      var rest := FirstLf(s[1..]);
      if rest.None? then None else Some(rest.value + 1)
  }

  // ---------------------------------------------------------------------
  // One line
  // ---------------------------------------------------------------------

  /** The line with its LF, or why there is none; and the input left. */
  function NextLine(i: Input): (Result<Bytes, ReadError>, Input)
    decreases |i.chunks|
  {
    match FirstLf(i.buffer)
    case Some(k) => (Ok(i.buffer[..k + 1]), i.(buffer := i.buffer[k + 1..]))
    case None =>
      if |i.buffer| > MAX_REPLY_BYTES then (Err(LineTooLong), i)
      else if i.chunks == [] then (Err(Closed), i)
      else if i.chunks[0].Fails? then (Err(Broken), i.(chunks := i.chunks[1..]))
      else if i.chunks[0].bytes == [] then (Err(Closed), i.(chunks := i.chunks[1..]))
      else NextLine(Input(i.buffer + i.chunks[0].bytes, i.chunks[1..]))
  }

  lemma {:induction false} FirstLfOf(s: Bytes, rest: Bytes)
    ensures FirstLf(s + rest)
         == if FirstLf(s).Some? then FirstLf(s)
            else if FirstLf(rest).Some? then Some(|s| + FirstLf(rest).value)
            else None
  {
    var all := s + rest;
    if s == [] {
      assert all == rest;
    } else {
      FirstLfOf(s[1..], rest);
      assert all[0] == s[0] && all[1..] == s[1..] + rest;
    }
  }

  /** The first line of a text, its LF included. */
  function HeadLine(s: Bytes): Bytes
    requires FirstLf(s).Some?
  {
    s[..FirstLf(s).value + 1]
  }

  /** What follows the first line. */
  function Tail(s: Bytes): Bytes
    requires FirstLf(s).Some?
  {
    s[FirstLf(s).value + 1..]
  }

  /**
   * A line of at most 8192 bytes before its LF is read whole, and leaves exactly what follows it,
   * however the stream is cut into chunks.
   */
  lemma {:induction false} ShortLineIsRead(i: Input)
    requires FirstLf(All(i)).Some? && FirstLf(All(i)).value <= MAX_REPLY_BYTES
    ensures NextLine(i).0 == Ok(HeadLine(All(i))) && All(NextLine(i).1) == Tail(All(i))
    decreases |i.chunks|
  {
    FirstLfOf(i.buffer, Content(i.chunks));
    if FirstLf(i.buffer).Some? {
      BufferedLine(i.buffer, Content(i.chunks));
    } else {
      LineStillToCome(i);
      ShortLineIsRead(Input(i.buffer + i.chunks[0].bytes, i.chunks[1..]));
    }
  }

  lemma BufferedLine(buffer: Bytes, rest: Bytes)
    requires FirstLf(buffer).Some?
    ensures FirstLf(buffer + rest) == FirstLf(buffer)
    ensures HeadLine(buffer + rest) == HeadLine(buffer) && Tail(buffer + rest) == Tail(buffer) + rest
  {
    FirstLfOf(buffer, rest);
  }

  lemma LineStillToCome(i: Input)
    requires FirstLf(i.buffer).None? && FirstLf(Content(i.chunks)).Some? && |i.buffer| <= MAX_REPLY_BYTES
    ensures i.chunks != [] && i.chunks[0].Data? && i.chunks[0].bytes != []
    ensures All(Input(i.buffer + i.chunks[0].bytes, i.chunks[1..])) == All(i)
    ensures NextLine(i) == NextLine(Input(i.buffer + i.chunks[0].bytes, i.chunks[1..]))
  {
    Assoc(i.buffer, i.chunks[0].bytes, Content(i.chunks[1..]));
  }

  /** A stream sent one byte at a time. */
  function OneByOne(s: Bytes): (chunks: seq<Event>)
    ensures |chunks| == |s|
    ensures forall i :: 0 <= i < |chunks| ==> chunks[i].Data? && |chunks[i].bytes| == 1
  {
    if s == [] then [] else [Data([s[0]])] + OneByOne(s[1..])
  }

  lemma {:induction false} OneByOneContent(s: Bytes)
    ensures Content(OneByOne(s)) == s
  {
    if s != [] {
      OneByOneContent(s[1..]);
      assert OneByOne(s)[1..] == OneByOne(s[1..]);
      assert s == [s[0]] + s[1..];
    }
  }

  lemma {:induction false} LongLineIsRefused(buffer: Bytes, rest: Bytes)
    requires LF !in buffer && |buffer| <= MAX_REPLY_BYTES + 1
    requires FirstLf(rest).Some? && |buffer| + FirstLf(rest).value > MAX_REPLY_BYTES
    ensures NextLine(Input(buffer, OneByOne(rest))).0 == Err(LineTooLong)
    decreases |rest|
  {
    if |buffer| <= MAX_REPLY_BYTES {
      assert rest[0] != LF;
      LongLineIsRefused(buffer + [rest[0]], rest[1..]);
      assert OneByOne(rest)[1..] == OneByOne(rest[1..]);
    }
  }

  /** Whatever the chunks, the first line of this stream is read. */
  ghost predicate ReadHoweverCut(s: Bytes) {
    forall chunks :: ChunksFit(chunks) && Content(chunks) == s ==> NextLine(Input([], chunks)).0.Ok?
  }

  /** Reading a line does not depend on the chunks exactly when 8192 bytes or fewer come before its LF. */
  lemma ChunksDoNotMatterExactlyWhen(s: Bytes)
    requires FirstLf(s).Some?
    ensures ReadHoweverCut(s) <==> FirstLf(s).value <= MAX_REPLY_BYTES
  {
    if FirstLf(s).value <= MAX_REPLY_BYTES {
      forall chunks | ChunksFit(chunks) && Content(chunks) == s ensures NextLine(Input([], chunks)).0.Ok? {
        assert All(Input([], chunks)) == s;
        ShortLineIsRead(Input([], chunks));
      }
    } else {
      OneByOneContent(s);
      LongLineIsRefused([], s);
      assert ChunksFit(OneByOne(s));
    }
  }

  /** The buffer never outgrows its bound by more than one chunk, whatever the peer does. */
  lemma {:induction false} BufferStaysBounded(i: Input)
    requires |i.buffer| <= MAX_REPLY_BYTES + CHUNK && ChunksFit(i.chunks)
    ensures |NextLine(i).1.buffer| <= MAX_REPLY_BYTES + CHUNK && ChunksFit(NextLine(i).1.chunks)
    decreases |i.chunks|
  {
    if FirstLf(i.buffer).None? && |i.buffer| <= MAX_REPLY_BYTES
       && i.chunks != [] && i.chunks[0].Data? && i.chunks[0].bytes != [] {
      BufferStaysBounded(Input(i.buffer + i.chunks[0].bytes, i.chunks[1..]));
    }
  }

  /** What a read line leaves is less than there was. */
  lemma {:induction false} LineConsumes(i: Input)
    requires NextLine(i).0.Ok?
    ensures NextLine(i).0.value != [] && All(i) == NextLine(i).0.value + All(NextLine(i).1)
    decreases |i.chunks|
  {
    if FirstLf(i.buffer).Some? {
      var k := FirstLf(i.buffer).value;
      Assoc(i.buffer[..k + 1], i.buffer[k + 1..], Content(i.chunks));
      assert i.buffer == i.buffer[..k + 1] + i.buffer[k + 1..];
    } else {
      Assoc(i.buffer, i.chunks[0].bytes, Content(i.chunks[1..]));
      LineConsumes(Input(i.buffer + i.chunks[0].bytes, i.chunks[1..]));
    }
  }

  // ---------------------------------------------------------------------
  // One reply
  // ---------------------------------------------------------------------

  datatype Reply = Reply(code: nat, text: Bytes)

  const HYPHEN: byte := 45

  /** `trim_end_matches(['\\r', '\\n'])`. */
  function TrimEnd(line: Bytes): Bytes {
    if line != [] && (line[|line| - 1] == CR || line[|line| - 1] == LF) then TrimEnd(line[..|line| - 1]) else line
  }

  predicate StartsWithCode(line: Bytes) {
    |line| >= 3 && forall i :: 0 <= i < 3 ==> 48 <= line[i] < 58
  }

  function CodeOf(line: Bytes): nat
    requires StartsWithCode(line)
  {
    (line[0] as int - 48) * 100 + (line[1] as int - 48) * 10 + (line[2] as int - 48)
  }

  /** In UTF-8, a byte that goes on with the character before it. */
  predicate IsContinuation(b: byte) {
    0x80 <= b < 0xC0
  }

  /** How many characters a text has. */
  function Chars(text: Bytes): (n: nat)
    ensures n <= |text|
  {
    if text == [] then 0 else (if IsContinuation(text[0]) then 0 else 1) + Chars(text[1..])
  }

  /** How many bytes its first `n` characters take. */
  function CharsEnd(text: Bytes, n: nat): (end: nat)
    ensures end <= |text|
  {
    if text == [] then 0
    else if IsContinuation(text[0]) then 1 + CharsEnd(text[1..], n)
    else if n == 0 then 0
    else 1 + CharsEnd(text[1..], n - 1)
  }

  /** Keeps 500 characters and an ellipsis. */
  function Bounded(text: Bytes): Bytes {
    if Chars(text) <= MAX_ERROR_CHARS then text else text[..CharsEnd(text, MAX_ERROR_CHARS)] + ELLIPSIS
  }

  /** What one line of a reply makes of the code and text so far. */
  datatype Progress = More(code: Bytes, text: Bytes) | Done(reply: Reply) | Bad(error: ReadError)

  function TakeLine(code: Bytes, text: Bytes, line: Bytes): Progress {
    var t := TrimEnd(line);
    if !StartsWithCode(t) then Bad(NotAReply)
    else if code != [] && t[..3] != code then Bad(CodeChanged)
    else if |t| == 3 then Bad(Unseparated)
    else if t[3] == HYPHEN then More(t[..3], text + t[4..] + [LF])
    else if t[3] == SPACE then Done(Reply(CodeOf(t), Bounded(text + t[4..])))
    else Bad(Unseparated)
  }

  lemma TrimOne(line: Bytes, mark: byte)
    requires mark == CR || mark == LF
    ensures TrimEnd(line + [mark]) == TrimEnd(line)
  {
    assert (line + [mark])[..|line|] == line;
  }

  /**
   * A line goes on or ends a reply exactly when it has three digits, the ones before it if there were
   * any, and behind them a hyphen or a space; and the complaint about any other line.
   */
  lemma LineIsTakenExactlyWhen(code: Bytes, text: Bytes, line: Bytes)
    requires line == [] || (line[|line| - 1] != CR && line[|line| - 1] != LF)
    ensures var p, digits := TakeLine(code, text, line + CRLF), |line| >= 3 && AreDigits(line[..3]);
      && (p.More? <==> digits && (code == [] || line[..3] == code) && |line| > 3 && line[3] == HYPHEN)
      && (p.Done? <==> digits && (code == [] || line[..3] == code) && |line| > 3 && line[3] == SPACE)
      && (p == Bad(NotAReply) <==> !digits)
      && (p == Bad(CodeChanged) <==> digits && code != [] && line[..3] != code)
  {
    assert line + CRLF == line + [CR] + [LF];
    TrimOne(line + [CR], LF);
    TrimOne(line, CR);
  }

  ghost predicate AreDigits(s: Bytes) {
    forall i :: 0 <= i < |s| ==> 48 <= s[i] <= 57
  }

  /** The reply at the head of the input, given the lines of it already read. */
  function NextReply(code: Bytes, text: Bytes, i: Input): (Result<Reply, ReadError>, Input)
    decreases |All(i)|
  {
    var (line, left) := NextLine(i);
    if line.Err? then (Err(line.error), left)
    else
      match TakeLine(code, text, line.value)
      case Bad(e) => (Err(e), left)
      case Done(reply) => (Ok(reply), left)
      case More(c, t) => (LineConsumes(i); NextReply(c, t, left))
  }

  /** The same, read off the bytes: nothing when a line is cut off, or longer than the bound. */
  function ReplyOf(code: Bytes, text: Bytes, s: Bytes): Option<(Result<Reply, ReadError>, Bytes)>
    decreases |s|
  {
    match FirstLf(s)
    case None => None
    case Some(k) =>
      if k > MAX_REPLY_BYTES then None
      else
        match TakeLine(code, text, s[..k + 1])
        case Bad(e) => Some((Err(e), s[k + 1..]))
        case Done(reply) => Some((Ok(reply), s[k + 1..]))
        case More(c, t) => ReplyOf(c, t, s[k + 1..])
  }

  /** A reply does not depend on the chunks it came in: it is what its bytes say, and leaves what follows them. */
  lemma {:induction false} RepliesDoNotDependOnChunks(code: Bytes, text: Bytes, i: Input)
    requires ReplyOf(code, text, All(i)).Some?
    ensures NextReply(code, text, i).0 == ReplyOf(code, text, All(i)).value.0
    ensures All(NextReply(code, text, i).1) == ReplyOf(code, text, All(i)).value.1
    decreases |All(i)|
  {
    ShortLineIsRead(i);
    LineConsumes(i);
    var progress := TakeLine(code, text, NextLine(i).0.value);
    if progress.More? {
      RepliesDoNotDependOnChunks(progress.code, progress.text, NextLine(i).1);
    }
  }

  // ---------------------------------------------------------------------
  // What a relay prints
  // ---------------------------------------------------------------------

  function CodeText(code: nat): (r: Bytes)
    requires 100 <= code <= 999
    ensures |r| == 3
  {
    [48 + code / 100, 48 + code / 10 % 10, 48 + code % 10]
  }

  function ReplyLine(code: nat, text: Bytes, last: bool): Bytes
    requires 100 <= code <= 999
  {
    CodeText(code) + [if last then SPACE else HYPHEN] + text
  }

  /** `write_reply`: every line but the last is marked as continued. */
  function Printed(code: nat, texts: seq<Bytes>): Bytes
    requires 100 <= code <= 999
  {
    if texts == [] then [] else ReplyLine(code, texts[0], |texts| == 1) + CRLF + Printed(code, texts[1..])
  }

  function JoinLf(texts: seq<Bytes>): Bytes {
    if texts == [] then [] else if |texts| == 1 then texts[0] else texts[0] + [LF] + JoinLf(texts[1..])
  }

  /** Texts one line each, none too long to read. */
  ghost predicate Printable(texts: seq<Bytes>) {
    texts != [] && forall i :: 0 <= i < |texts| ==> Plain(texts[i]) && |texts[i]| + 5 <= MAX_REPLY_BYTES
  }

  lemma CodeDigits(code: nat)
    requires 100 <= code <= 999
    ensures 1 <= code / 100 < 10 && code == code / 100 * 100 + code / 10 % 10 * 10 + code % 10
  {
    var tens := code / 10;
    assert code == 10 * tens + code % 10 && tens == 10 * (tens / 10) + tens % 10;
    DivModUnique(code, 100, tens / 10, 10 * (tens % 10) + code % 10);
  }

  lemma CodeReads(code: nat)
    requires 100 <= code <= 999
    ensures StartsWithCode(CodeText(code)) && CodeOf(CodeText(code)) == code && Plain(CodeText(code))
  {
    CodeDigits(code);
    var text := CodeText(code);
    assert 48 <= text[0] < 58 && 48 <= text[1] < 58 && 48 <= text[2] < 58;
    assert text == [text[0], text[1], text[2]];
  }

  lemma NothingToTrim(line: Bytes)
    requires Plain(line)
    ensures TrimEnd(line) == line
  {
    assert line != [] ==> line[|line| - 1] in line;
  }

  lemma TrimPlain(line: Bytes)
    requires Plain(line)
    ensures TrimEnd(line + CRLF) == line
  {
    assert line + CRLF == line + [CR] + [LF];
    TrimOne(line + [CR], LF);
    TrimOne(line, CR);
    NothingToTrim(line);
  }

  lemma PrintedLine(code: nat, text: Bytes, last: bool, rest: Bytes)
    requires 100 <= code <= 999 && Plain(text)
    ensures var line := ReplyLine(code, text, last);
      && FirstLf(line + CRLF + rest) == Some(|text| + 5)
      && (line + CRLF + rest)[..|text| + 6] == line + CRLF && (line + CRLF + rest)[|text| + 6..] == rest
      && Plain(line)
  {
    var line := ReplyLine(code, text, last);
    CodeReads(code);
    PlainThenLf(line + [CR], rest);
    assert line + CRLF + rest == (line + [CR]) + ([LF] + rest);
  }

  lemma {:induction false} PlainThenLf(line: Bytes, rest: Bytes)
    requires LF !in line
    ensures FirstLf(line + ([LF] + rest)) == Some(|line|)
  {
    if line == [] {
      assert line + ([LF] + rest) == [LF] + rest;
    } else {
      PlainThenLf(line[1..], rest);
      assert (line + ([LF] + rest))[1..] == line[1..] + ([LF] + rest);
    }
  }

  lemma TakesPrinted(code: nat, seen: Bytes, text: Bytes, body: Bytes, last: bool)
    requires 100 <= code <= 999 && Plain(body) && (seen == [] || seen == CodeText(code))
    ensures TakeLine(seen, text, ReplyLine(code, body, last) + CRLF)
         == if last then Done(Reply(code, Bounded(text + body))) else More(CodeText(code), text + body + [LF])
  {
    var t := ReplyLine(code, body, last);
    CodeReads(code);
    assert Plain(t);
    TrimPlain(t);
    assert t[..3] == CodeText(code) && t[4..] == body;
    assert CodeOf(t) == CodeOf(CodeText(code));
  }

  lemma {:induction false} PrintedReadsOn(code: nat, seen: Bytes, text: Bytes, texts: seq<Bytes>, rest: Bytes)
    requires 100 <= code <= 999 && Printable(texts) && (seen == [] || seen == CodeText(code))
    ensures ReplyOf(seen, text, Printed(code, texts) + rest)
         == Some((Ok(Reply(code, Bounded(text + JoinLf(texts)))), rest))
    decreases |texts|
  {
    var last, after := |texts| == 1, Printed(code, texts[1..]) + rest;
    var line := ReplyLine(code, texts[0], last) + CRLF;
    Assoc(line, Printed(code, texts[1..]), rest);
    PrintedLine(code, texts[0], last, after);
    TakesPrinted(code, seen, text, texts[0], last);
    ReplyLineTaken(seen, text, line, after);
    if last {
      assert after == rest;
    } else {
      PrintedReadsOn(code, CodeText(code), text + texts[0] + [LF], texts[1..], rest);
      TextGrows(text, texts[0], JoinLf(texts[1..]));
    }
  }

  lemma TextGrows(text: Bytes, one: Bytes, more: Bytes)
    ensures text + one + [LF] + more == text + (one + [LF] + more)
  {
  }

  /** One step of the reference reading. */
  lemma ReplyLineTaken(code: Bytes, text: Bytes, line: Bytes, after: Bytes)
    requires FirstLf(line + after) == Some(|line| - 1) && 0 < |line| <= MAX_REPLY_BYTES + 1
    ensures var p := TakeLine(code, text, line);
      ReplyOf(code, text, line + after)
      == if p.Bad? then Some((Err(p.error), after))
         else if p.Done? then Some((Ok(p.reply), after))
         else ReplyOf(p.code, p.text, after)
  {
    assert (line + after)[..|line|] == line && (line + after)[|line|..] == after;
  }

  /** Reading what a relay prints gives back its code and its texts, cut to 500 characters, however it is chunked. */
  lemma PrintedReadsBack(code: nat, texts: seq<Bytes>, rest: Bytes, i: Input)
    requires 100 <= code <= 999 && Printable(texts) && All(i) == Printed(code, texts) + rest
    ensures NextReply([], [], i).0 == Ok(Reply(code, Bounded(JoinLf(texts)))) && All(NextReply([], [], i).1) == rest
  {
    PrintedReadsOn(code, [], [], texts, rest);
    assert [] + JoinLf(texts) == JoinLf(texts);
    RepliesDoNotDependOnChunks([], [], i);
  }

  // ---------------------------------------------------------------------
  // Capabilities
  // ---------------------------------------------------------------------

  /** `lines()`: no CR stands before an LF in a reply's text, and a final empty piece is dropped. */
  function TextLines(text: Bytes): seq<Bytes> {
    var parts := SplitLf(text);
    if parts[|parts| - 1] == [] then parts[..|parts| - 1] else parts
  }

  predicate IsBlank(b: byte) {
    b == SPACE || 9 <= b <= 13
  }

  lemma BlankExactly(b: byte)
    ensures IsBlank(b) <==> b in [9, 10, 11, 12, 13, 32]
  {
  }

  function WordEnd(line: Bytes): (r: nat)
    ensures r <= |line|
  {
    if line == [] || IsBlank(line[0]) then 0 else 1 + WordEnd(line[1..])
  }

  /** `split_whitespace().next()`. */
  function FirstWord(line: Bytes): Option<Bytes> {
    if line == [] then None
    else if IsBlank(line[0]) then FirstWord(line[1..])
    else Some(line[..WordEnd(line)])
  }

  function FirstWords(lines: seq<Bytes>): seq<Bytes> {
    if lines == [] then []
    else
      var rest := FirstWords(lines[1..]);
      match FirstWord(lines[0])
      case None => rest
      case Some(w) => [w] + rest
  }

  /** It is what stands between the white space a line starts with and the next. */
  lemma {:induction false} FirstWordIs(blanks: Bytes, word: Bytes, rest: Bytes)
    requires forall i :: 0 <= i < |blanks| ==> IsBlank(blanks[i])
    requires word != [] && forall i :: 0 <= i < |word| ==> !IsBlank(word[i])
    requires rest == [] || IsBlank(rest[0])
    ensures FirstWord(blanks + (word + rest)) == Some(word)
  {
    if blanks == [] {
      assert blanks + (word + rest) == word + rest;
      WordEndsAt(word, rest);
      assert (word + rest)[..|word|] == word;
    } else {
      FirstWordIs(blanks[1..], word, rest);
      assert (blanks + (word + rest))[1..] == blanks[1..] + (word + rest);
    }
  }

  lemma {:induction false} WordEndsAt(word: Bytes, rest: Bytes)
    requires forall i :: 0 <= i < |word| ==> !IsBlank(word[i])
    requires rest == [] || IsBlank(rest[0])
    ensures WordEnd(word + rest) == |word|
  {
    if word == [] {
      assert word + rest == rest;
    } else {
      WordEndsAt(word[1..], rest);
      assert (word + rest)[1..] == word[1..] + rest;
    }
  }

  /** And there is none on a line of nothing but white space. */
  lemma {:induction false} NoWordExactlyWhen(line: Bytes)
    ensures FirstWord(line).None? <==> forall i :: 0 <= i < |line| ==> IsBlank(line[i])
  {
    if line != [] && IsBlank(line[0]) {
      NoWordExactlyWhen(line[1..]);
      assert forall i :: 1 <= i < |line| ==> line[i] == line[1..][i - 1];
    }
  }

  /** The words of some lines are the first words of the lines that have one. */
  lemma {:induction false} WordIsOfALine(lines: seq<Bytes>, word: Bytes)
    ensures word in FirstWords(lines) <==> exists i :: 0 <= i < |lines| && FirstWord(lines[i]) == Some(word)
  {
    if lines != [] {
      WordIsOfALine(lines[1..], word);
      if word in FirstWords(lines[1..]) {
        var i :| 0 <= i < |lines[1..]| && FirstWord(lines[1..][i]) == Some(word);
        assert FirstWord(lines[i + 1]) == Some(word);
      }
      if i :| 0 < i < |lines| && FirstWord(lines[i]) == Some(word) {
        assert FirstWord(lines[1..][i - 1]) == Some(word);
      }
    }
  }

  /** The greeting line is no capability. */
  function Capabilities(text: Bytes): seq<Bytes> {
    var lines := TextLines(text);
    if lines == [] then [] else FirstWords(lines[1..])
  }

  lemma {:induction false} SplitJoined(texts: seq<Bytes>)
    requires texts != [] && forall i :: 0 <= i < |texts| ==> LF !in texts[i]
    ensures SplitLf(JoinLf(texts)) == texts
  {
    if |texts| == 1 {
      SplitOne(texts[0]);
    } else {
      SplitJoined(texts[1..]);
      SplitFirst(texts[0], JoinLf(texts[1..]));
      assert texts[0] + [LF] + JoinLf(texts[1..]) == texts[0] + ([LF] + JoinLf(texts[1..]));
    }
  }

  lemma {:induction false} SplitOne(line: Bytes)
    requires LF !in line
    ensures SplitLf(line) == [line]
  {
    if line != [] {
      SplitOne(line[1..]);
      assert line == [line[0]] + line[1..];
    }
  }

  lemma {:induction false} SplitFirst(line: Bytes, rest: Bytes)
    requires LF !in line
    ensures SplitLf(line + ([LF] + rest)) == [line] + SplitLf(rest)
  {
    if line == [] {
      assert line + ([LF] + rest) == [LF] + rest;
      SplitCons(LF, rest);
    } else {
      SplitFirst(line[1..], rest);
      assert line + ([LF] + rest) == [line[0]] + (line[1..] + ([LF] + rest));
      SplitCons(line[0], line[1..] + ([LF] + rest));
      assert line == [line[0]] + line[1..];
    }
  }

  lemma {:induction false} FirstWordsDropBlank(lines: seq<Bytes>)
    requires lines != [] && lines[|lines| - 1] == []
    ensures FirstWords(lines[..|lines| - 1]) == FirstWords(lines)
  {
    if |lines| > 1 {
      FirstWordsDropBlank(lines[1..]);
      assert lines[..|lines| - 1][1..] == lines[1..][..|lines| - 2];
    }
  }

  lemma LinesOfJoined(texts: seq<Bytes>)
    requires texts != []
    ensures var lines := if texts[|texts| - 1] == [] then texts[..|texts| - 1] else texts;
      (if lines == [] then [] else FirstWords(lines[1..])) == FirstWords(texts[1..])
  {
    if texts[|texts| - 1] == [] && |texts| > 1 {
      FirstWordsDropBlank(texts[1..]);
      assert texts[..|texts| - 1][1..] == texts[1..][..|texts| - 2];
    }
  }

  /** `hello` records every capability the relay printed, in order, when its joined text is at most 500 characters. */
  lemma EveryCapabilityIsRecorded(texts: seq<Bytes>)
    requires Printable(texts) && Chars(JoinLf(texts)) <= MAX_ERROR_CHARS
    ensures Capabilities(Bounded(JoinLf(texts))) == FirstWords(texts[1..])
  {
    SplitJoined(texts);
    LinesOfJoined(texts);
  }

  // ---------------------------------------------------------------------
  // A list cut by the bound
  // ---------------------------------------------------------------------

  ghost predicate IsAscii(text: Bytes) {
    forall i :: 0 <= i < |text| ==> text[i] < 128
  }

  lemma {:induction false} CharsOfAscii(text: Bytes, n: nat)
    requires IsAscii(text)
    ensures Chars(text) == |text| && CharsEnd(text, n) == if n <= |text| then n else |text|
  {
    if text != [] {
      assert IsAscii(text[1..]);
      CharsOfAscii(text[1..], if n == 0 then 0 else n - 1);
    }
  }

  lemma {:induction false} JoinIsAscii(texts: seq<Bytes>)
    requires forall i :: 0 <= i < |texts| ==> IsAscii(texts[i])
    ensures IsAscii(JoinLf(texts))
  {
    if |texts| > 1 {
      JoinIsAscii(texts[1..]);
    }
  }

  /** A cut in an ASCII text falls after that many bytes. */
  lemma BoundedAscii(texts: seq<Bytes>)
    requires forall i :: 0 <= i < |texts| ==> IsAscii(texts[i])
    ensures var text := JoinLf(texts);
      && Chars(text) == |text|
      && (|text| > MAX_ERROR_CHARS ==> Bounded(text) == text[..MAX_ERROR_CHARS] + ELLIPSIS)
  {
    JoinIsAscii(texts);
    CharsOfAscii(JoinLf(texts), MAX_ERROR_CHARS);
  }

  /** Where the cut after `room` characters falls: the line, and how many characters of it are kept. */
  function CutAt(texts: seq<Bytes>, room: nat): (at: (nat, nat))
    requires texts != [] && room < |JoinLf(texts)|
    ensures at.0 < |texts| && at.1 <= |texts[at.0]|
    decreases |texts|
  {
    if room <= |texts[0]| then (0, room)
    else
      var (line, kept) := CutAt(texts[1..], room - |texts[0]| - 1);
      (line + 1, kept)
  }

  /** The lines that are left of a list cut there. */
  function CutList(texts: seq<Bytes>, line: nat, kept: nat): seq<Bytes>
    requires line < |texts| && kept <= |texts[line]|
  {
    texts[..line] + [texts[line][..kept] + ELLIPSIS]
  }

  /** A whole word stands in this text: its first word, with something blank after it. */
  predicate HoldsWholeWord(text: Bytes) {
    text != [] && if IsBlank(text[0]) then HoldsWholeWord(text[1..]) else WordEnd(text) < |text|
  }

  /** The cut spares every capability: none is named below it, and the line it falls in has lost none of its name. */
  ghost predicate CutSparesCapabilities(texts: seq<Bytes>)
    requires texts != [] && MAX_ERROR_CHARS < |JoinLf(texts)|
  {
    var (line, kept) := CutAt(texts, MAX_ERROR_CHARS);
    CutSpares(texts, line, kept)
  }

  predicate CutSpares(texts: seq<Bytes>, line: nat, kept: nat)
    requires line < |texts| && kept <= |texts[line]|
  {
    FirstWords(texts[line + 1..]) == [] && (line == 0 || HoldsWholeWord(texts[line][..kept]))
  }

  lemma {:induction false} CutLines(texts: seq<Bytes>, room: nat)
    requires texts != [] && room < |JoinLf(texts)|
    ensures var at := CutAt(texts, room);
      JoinLf(texts)[..room] + ELLIPSIS == JoinLf(CutList(texts, at.0, at.1))
    decreases |texts|
  {
    if room <= |texts[0]| {
      CutFirstLine(texts, room);
    } else {
      CutIsBelow(texts, room);
      var left := room - |texts[0]| - 1;
      var at := CutAt(texts[1..], left);
      CutLines(texts[1..], left);
      CutBelow(texts, left, at.0, at.1);
    }
  }

  lemma CutIsBelow(texts: seq<Bytes>, room: nat)
    requires texts != [] && |texts[0]| < room < |JoinLf(texts)|
    ensures |texts| > 1 && room - |texts[0]| - 1 < |JoinLf(texts[1..])|
    ensures var at := CutAt(texts[1..], room - |texts[0]| - 1); CutAt(texts, room) == (at.0 + 1, at.1)
  {
  }

  lemma CutBelow(texts: seq<Bytes>, left: nat, line: nat, kept: nat)
    requires |texts| > 1 && left <= |JoinLf(texts[1..])| && line + 1 < |texts| && kept <= |texts[line + 1]|
    requires JoinLf(texts[1..])[..left] + ELLIPSIS == JoinLf(CutList(texts[1..], line, kept))
    ensures |texts[0]| + 1 + left <= |JoinLf(texts)|
    ensures JoinLf(texts)[..|texts[0]| + 1 + left] + ELLIPSIS == JoinLf(CutList(texts, line + 1, kept))
  {
    var head, more := texts[0] + [LF], JoinLf(texts[1..]);
    assert JoinLf(texts) == head + more;
    TakeBoth(head, more, left, ELLIPSIS);
    JoinBelow(texts, line + 1, texts[line + 1][..kept] + ELLIPSIS);
  }

  lemma CutFirstLine(texts: seq<Bytes>, room: nat)
    requires texts != [] && room <= |texts[0]|
    ensures JoinLf(texts)[..room] + ELLIPSIS == JoinLf(CutList(texts, 0, room))
  {
    assert JoinLf(texts)[..room] == texts[0][..room];
    assert texts[..0] + [texts[0][..room] + ELLIPSIS] == [texts[0][..room] + ELLIPSIS];
  }

  lemma TakeBoth(head: Bytes, more: Bytes, left: nat, mark: Bytes)
    requires left <= |more|
    ensures (head + more)[..|head| + left] + mark == head + (more[..left] + mark)
  {
  }

  lemma JoinBelow(texts: seq<Bytes>, line: nat, cut: Bytes)
    requires 0 < line < |texts|
    ensures JoinLf(texts[..line] + [cut]) == texts[0] + [LF] + JoinLf(texts[1..][..line - 1] + [cut])
  {
    var below := texts[1..][..line - 1] + [cut];
    assert texts[..line] + [cut] == [texts[0]] + below;
    assert ([texts[0]] + below)[1..] == below;
  }

  lemma AssocLines(x: seq<Bytes>, y: seq<Bytes>, z: seq<Bytes>)
    ensures x + (y + z) == x + y + z
  {
  }

  /** The word of the first line, if it has one. */
  lemma FirstWordsCons(line: Bytes, rest: seq<Bytes>)
    ensures FirstWords([line] + rest) == FirstWords([line]) + FirstWords(rest)
  {
    assert ([line] + rest)[1..] == rest;
    assert [line][1..] == [];
  }

  lemma {:induction false} FirstWordsConcat(a: seq<Bytes>, b: seq<Bytes>)
    ensures FirstWords(a + b) == FirstWords(a) + FirstWords(b)
  {
    if a == [] {
      assert a + b == b;
    } else {
      var line, rest := a[0], a[1..];
      FirstWordsConcat(rest, b);
      FirstWordsCons(line, rest);
      FirstWordsCons(line, rest + b);
      assert a == [line] + rest && a + b == [line] + (rest + b);
      AssocLines(FirstWords([line]), FirstWords(rest), FirstWords(b));
    }
  }

  lemma {:induction false} WordEndMark(text: Bytes, rest: Bytes)
    ensures WordEnd(text) < |text| ==> WordEnd(text + rest) == WordEnd(text)
    ensures WordEnd(text) == |text| ==> WordEnd(text + rest) == |text| + WordEnd(rest)
    ensures forall i :: 0 <= i < WordEnd(text) ==> !IsBlank(text[i])
  {
    if text == [] {
      assert text + rest == rest;
    } else {
      WordEndMark(text[1..], rest);
      assert (text + rest)[1..] == text[1..] + rest;
    }
  }

  /** With a whole word in it, the cut line keeps the word it had; without, its word ends in the ellipsis. */
  lemma {:induction false} WordOfCutLine(kept: Bytes, rest: Bytes)
    ensures FirstWord(kept + ELLIPSIS).Some?
    ensures HoldsWholeWord(kept) ==> FirstWord(kept + rest) == FirstWord(kept + ELLIPSIS)
    ensures !HoldsWholeWord(kept) ==> 0xE2 in FirstWord(kept + ELLIPSIS).value
  {
    if kept == [] {
      assert kept + ELLIPSIS == ELLIPSIS;
      assert WordEnd(ELLIPSIS) > 0;
    } else if IsBlank(kept[0]) {
      WordOfCutLine(kept[1..], rest);
      assert (kept + ELLIPSIS)[1..] == kept[1..] + ELLIPSIS;
      assert (kept + rest)[1..] == kept[1..] + rest;
    } else {
      WordEndMark(kept, rest);
      WordEndMark(kept, ELLIPSIS);
      var n := WordEnd(kept);
      if HoldsWholeWord(kept) {
        assert (kept + rest)[..n] == kept[..n] == (kept + ELLIPSIS)[..n];
      } else {
        assert WordEnd(ELLIPSIS) > 0;
        assert (kept + ELLIPSIS)[n] == 0xE2;
        assert FirstWord(kept + ELLIPSIS).value[n] == 0xE2;
      }
    }
  }

  lemma {:induction false} WordsOfAscii(line: Bytes)
    requires IsAscii(line)
    ensures FirstWord(line).Some? ==> 0xE2 !in FirstWord(line).value
  {
    if line != [] && IsBlank(line[0]) {
      WordsOfAscii(line[1..]);
    }
  }

  lemma {:induction false} FirstWordsOfAscii(lines: seq<Bytes>)
    requires forall i :: 0 <= i < |lines| ==> IsAscii(lines[i])
    ensures forall i :: 0 <= i < |FirstWords(lines)| ==> 0xE2 !in FirstWords(lines)[i]
  {
    if lines != [] {
      WordsOfAscii(lines[0]);
      FirstWordsOfAscii(lines[1..]);
    }
  }

  lemma OneLine(line: Bytes)
    ensures FirstWords([line]) == if FirstWord(line).Some? then [FirstWord(line).value] else []
  {
    assert [line][1..] == [];
  }

  lemma CutListHasNoLf(texts: seq<Bytes>, line: nat, kept: nat)
    requires Printable(texts) && line < |texts| && kept <= |texts[line]|
    ensures forall i :: 0 <= i < |CutList(texts, line, kept)| ==> LF !in CutList(texts, line, kept)[i]
  {
    assert LF !in texts[line];
  }

  /** What `hello` makes of a list cut there: the names above the cut, and what it leaves of the line it is in. */
  function WordsLeft(texts: seq<Bytes>, line: nat, kept: nat): seq<Bytes>
    requires line < |texts| && kept <= |texts[line]|
  {
    if line == 0 then [] else FirstWords(texts[1..line]) + FirstWords([texts[line][..kept] + ELLIPSIS])
  }

  /** What is recorded of a list that was cut. */
  lemma RecordedOfCut(texts: seq<Bytes>)
    requires Printable(texts) && forall i :: 0 <= i < |texts| ==> IsAscii(texts[i])
    requires MAX_ERROR_CHARS < |JoinLf(texts)|
    ensures var (line, kept) := CutAt(texts, MAX_ERROR_CHARS);
      Capabilities(Bounded(JoinLf(texts))) == WordsLeft(texts, line, kept)
  {
    var (line, kept) := CutAt(texts, MAX_ERROR_CHARS);
    BoundedAscii(texts);
    CutLines(texts, MAX_ERROR_CHARS);
    CutListHasNoLf(texts, line, kept);
    RecordedOfLines(CutList(texts, line, kept));
    WordsOfCutList(texts, line, kept);
  }

  lemma WordsOfCutList(texts: seq<Bytes>, line: nat, kept: nat)
    requires line < |texts| && kept <= |texts[line]|
    ensures FirstWords(CutList(texts, line, kept)[1..]) == WordsLeft(texts, line, kept)
  {
    if line > 0 {
      var cut := [texts[line][..kept] + ELLIPSIS];
      assert CutList(texts, line, kept)[1..] == texts[1..line] + cut;
      FirstWordsConcat(texts[1..line], cut);
    }
  }

  lemma RecordedOfLines(lines: seq<Bytes>)
    requires lines != [] && lines[|lines| - 1] != [] && forall i :: 0 <= i < |lines| ==> LF !in lines[i]
    ensures Capabilities(JoinLf(lines)) == FirstWords(lines[1..])
  {
    SplitJoined(lines);
    RecordedOfParts(JoinLf(lines), lines);
  }

  lemma RecordedOfParts(text: Bytes, parts: seq<Bytes>)
    requires SplitLf(text) == parts && parts != [] && parts[|parts| - 1] != []
    ensures Capabilities(text) == FirstWords(parts[1..])
  {
  }

  lemma WordsAround(texts: seq<Bytes>, line: nat)
    requires 0 < line < |texts|
    ensures FirstWords(texts[1..])
         == FirstWords(texts[1..line]) + (FirstWords([texts[line]]) + FirstWords(texts[line + 1..]))
  {
    assert texts[1..] == texts[1..line] + ([texts[line]] + texts[line + 1..]);
    FirstWordsConcat(texts[1..line], [texts[line]] + texts[line + 1..]);
    FirstWordsConcat([texts[line]], texts[line + 1..]);
  }

  /** The cut line's own word, against the words it stands for. */
  lemma CutLineKeepsExactlyWhen(text: Bytes, kept: nat, below: seq<Bytes>)
    requires kept <= |text| && IsAscii(text) && forall i :: 0 <= i < |below| ==> IsAscii(below[i])
    ensures FirstWords([text[..kept] + ELLIPSIS]) == FirstWords([text]) + FirstWords(below)
       <==> HoldsWholeWord(text[..kept]) && FirstWords(below) == []
  {
    var head := text[..kept];
    assert text == head + text[kept..];
    WordOfCutLine(head, text[kept..]);
    OneLine(head + ELLIPSIS);
    OneLine(text);
    WordsOfAscii(text);
    FirstWordsOfAscii(below);
    KeptExactlyWhen(FirstWord(text), FirstWord(head + ELLIPSIS).value, FirstWords(below), HoldsWholeWord(head));
  }

  /** A word ending in the ellipsis is none of the words there are. */
  lemma KeptExactlyWhen(word: Option<Bytes>, cut: Bytes, below: seq<Bytes>, whole: bool)
    requires whole ==> word == Some(cut)
    requires !whole ==> 0xE2 in cut
    requires word.Some? ==> 0xE2 !in word.value
    requires forall i :: 0 <= i < |below| ==> 0xE2 !in below[i]
    ensures [cut] == (if word.Some? then [word.value] else []) + below <==> whole && below == []
  {
    var words := (if word.Some? then [word.value] else []) + below;
    if whole {
      assert |words| == 1 + |below|;
    } else if word.Some? {
      assert words[0] == word.value;
    } else {
      assert words == below;
      assert words != [] ==> words[0] == below[0];
    }
  }

  /**
   * `hello` records every capability the relay printed, in order, exactly when the joined text has
   * at most 500 characters, or the cut spares what it names: nothing is named on a line below the
   * cut, and the cut falls in the greeting, or behind the first word of its line and a blank. The
   * bound is meant for error texts; past it a name is lost, or one is made up of the ellipsis.
   */
  lemma CapabilitiesRecordedExactlyWhen(texts: seq<Bytes>)
    requires Printable(texts) && forall i :: 0 <= i < |texts| ==> IsAscii(texts[i])
    ensures Capabilities(Bounded(JoinLf(texts))) == FirstWords(texts[1..])
       <==> |JoinLf(texts)| <= MAX_ERROR_CHARS || CutSparesCapabilities(texts)
  {
    if |JoinLf(texts)| <= MAX_ERROR_CHARS {
      BoundedAscii(texts);
      EveryCapabilityIsRecorded(texts);
    } else {
      CutRecordsExactlyWhen(texts);
    }
  }

  lemma CutRecordsExactlyWhen(texts: seq<Bytes>)
    requires Printable(texts) && forall i :: 0 <= i < |texts| ==> IsAscii(texts[i])
    requires MAX_ERROR_CHARS < |JoinLf(texts)|
    ensures Capabilities(Bounded(JoinLf(texts))) == FirstWords(texts[1..]) <==> CutSparesCapabilities(texts)
  {
    var (line, kept) := CutAt(texts, MAX_ERROR_CHARS);
    RecordedOfCut(texts);
    SparedExactlyWhen(texts, line, kept);
  }

  lemma SparedExactlyWhen(texts: seq<Bytes>, line: nat, kept: nat)
    requires line < |texts| && kept <= |texts[line]| && forall i :: 0 <= i < |texts| ==> IsAscii(texts[i])
    ensures WordsLeft(texts, line, kept) == FirstWords(texts[1..]) <==> CutSpares(texts, line, kept)
  {
    if line > 0 {
      CutBelowGreeting(texts, line, kept);
    }
  }

  lemma CutBelowGreeting(texts: seq<Bytes>, line: nat, kept: nat)
    requires 0 < line < |texts| && kept <= |texts[line]| && forall i :: 0 <= i < |texts| ==> IsAscii(texts[i])
    ensures FirstWords(texts[1..line]) + FirstWords([texts[line][..kept] + ELLIPSIS]) == FirstWords(texts[1..])
       <==> HoldsWholeWord(texts[line][..kept]) && FirstWords(texts[line + 1..]) == []
  {
    var above, below := FirstWords(texts[1..line]), texts[line + 1..];
    WordsAround(texts, line);
    assert forall i :: 0 <= i < |below| ==> below[i] == texts[line + 1 + i];
    CutLineKeepsExactlyWhen(texts[line], kept, below);
    SamePrefix(above, FirstWords([texts[line][..kept] + ELLIPSIS]), FirstWords([texts[line]]) + FirstWords(below));
  }

  lemma SamePrefix(p: seq<Bytes>, a: seq<Bytes>, b: seq<Bytes>)
    ensures p + a == p + b <==> a == b
  {
    assert (p + a)[|p|..] == a && (p + b)[|p|..] == b;
  }

  lemma {:induction false} CharsConcat(a: Bytes, b: Bytes, n: nat)
    ensures Chars(a + b) == Chars(a) + Chars(b)
    ensures n < Chars(a) ==> CharsEnd(a + b, n) <= |a|
    ensures n == Chars(a) && b != [] && !IsContinuation(b[0]) ==> CharsEnd(a + b, n) == |a|
  {
    if a == [] {
      assert a + b == b;
    } else {
      CharsConcat(a[1..], b, if IsContinuation(a[0]) || n == 0 then n else n - 1);
      assert (a + b)[1..] == a[1..] + b;
    }
  }

  /** A code point in UTF-8. */
  function Utf8(c: nat): Bytes
    requires c < 0x110000
  {
    if c < 0x80 then [c]
    else if c < 0x800 then [0xC0 + c / 0x40, 0x80 + c % 0x40]
    else if c < 0x10000 then [0xE0 + c / 0x1000, 0x80 + c / 0x40 % 0x40, 0x80 + c % 0x40]
    else [0xF0 + c / 0x40000, 0x80 + c / 0x1000 % 0x40, 0x80 + c / 0x40 % 0x40, 0x80 + c % 0x40]
  }

  type CodePoint = c: nat | c < 0x110000

  function Utf8All(text: seq<CodePoint>): Bytes {
    if text == [] then [] else Utf8(text[0]) + Utf8All(text[1..])
  }

  lemma {:induction false} Continuations(s: Bytes, rest: Bytes, n: nat)
    requires forall i :: 0 <= i < |s| ==> IsContinuation(s[i])
    ensures Chars(s + rest) == Chars(rest) && CharsEnd(s + rest, n) == |s| + CharsEnd(rest, n)
  {
    if s == [] {
      assert s + rest == rest;
    } else {
      Continuations(s[1..], rest, n);
      assert (s + rest)[1..] == s[1..] + rest;
    }
  }

  lemma OneCharacter(c: CodePoint, rest: Bytes, n: nat)
    ensures Chars(Utf8(c) + rest) == 1 + Chars(rest)
    ensures n > 0 ==> CharsEnd(Utf8(c) + rest, n) == |Utf8(c)| + CharsEnd(rest, n - 1)
    ensures CharsEnd(Utf8(c) + rest, 0) == 0
  {
    var code := Utf8(c);
    assert (code + rest)[1..] == code[1..] + rest;
    Continuations(code[1..], rest, if n == 0 then 0 else n - 1);
  }

  /** In UTF-8 the bound counts code points, and keeps the first ones whole. */
  lemma {:induction false} CharsAreCodePoints(text: seq<CodePoint>, n: nat)
    ensures Chars(Utf8All(text)) == |text|
    ensures n <= |text| ==> CharsEnd(Utf8All(text), n) == |Utf8All(text[..n])|
    ensures n <= |text| ==> Utf8All(text)[..CharsEnd(Utf8All(text), n)] == Utf8All(text[..n])
  {
    if text != [] {
      OneCharacter(text[0], Utf8All(text[1..]), n);
      CharsAreCodePoints(text[1..], if n == 0 then 0 else n - 1);
      if 0 < n <= |text| {
        assert text[..n][1..] == text[1..][..n - 1];
      }
    }
  }

  /** So a text keeps its first 500 code points, and shows an ellipsis for the rest. */
  lemma BoundedKeepsCodePoints(text: seq<CodePoint>, room: nat)
    requires room == MAX_ERROR_CHARS
    ensures Bounded(Utf8All(text)) == if |text| <= room then Utf8All(text) else Utf8All(text[..room]) + ELLIPSIS
  {
    CharsAreCodePoints(text, room);
    BoundedIs(Utf8All(text), room);
  }

  lemma BoundedIs(text: Bytes, room: nat)
    requires room == MAX_ERROR_CHARS
    ensures Bounded(text) == if Chars(text) <= room then text else text[..CharsEnd(text, room)] + ELLIPSIS
  {
  }

  lemma EllipsisIsOneCharacter()
    ensures ELLIPSIS == Utf8(0x2026)
  {
  }

  lemma OneLineHasNoCapabilities(line: Bytes)
    requires LF !in line
    ensures Capabilities(line) == []
  {
    SplitOne(line);
  }

  /** A greeting of 500 characters hides them all, and the session is then taken not to offer STARTTLS. */
  lemma LongGreetingHidesEveryCapability(texts: seq<Bytes>)
    requires Printable(texts) && |texts| > 1 && Chars(texts[0]) >= MAX_ERROR_CHARS
    ensures Capabilities(Bounded(JoinLf(texts))) == []
  {
    var greeting, below := texts[0], [LF] + JoinLf(texts[1..]);
    assert JoinLf(texts) == greeting + below;
    CharsConcat(greeting, below, MAX_ERROR_CHARS);
    assert Chars(below) == 1 + Chars(below[1..]);
    var end := CharsEnd(greeting + below, MAX_ERROR_CHARS);
    assert (greeting + below)[..end] == greeting[..end];
    OneLineHasNoCapabilities(greeting[..end] + ELLIPSIS);
  }
}
