/**
 * One SMTP conversation (`src/billing/email.rs`): what `send` does against a relay that may answer
 * anything, in any chunks, and stop at any byte. `Session` proves the client itself against these.
 */
module Conversation {
  import opened Prelude
  import opened MailMessage
  import opened Replies

  /** How one write of the client fares: the bytes that get out, and whether it reports success. */
  datatype WriteOutcome = WriteOutcome(bytes: nat, ok: bool)

  /** A socket, or a socket under TLS: everything the peer will do on it. */
  datatype Wire = Wire(tls: bool, chunks: seq<Event>, writes: seq<WriteOutcome>)

  datatype Command = Greeting | Ehlo | StartTls | Auth | MailFrom | RcptTo | DataStart | EndOfData | Quit

  datatype SendError =
    | CredentialsWithoutTls
    | NoUpgrade
    | Refused(command: Command, code: nat, text: Bytes)
    | BadReply(error: ReadError)
    | DataBeforeHandshake
    | LostConnection
    | Io

  /** A byte and whether it went out under TLS. */
  datatype Sent = Sent(tls: bool, value: byte)

  /**
   * A session: its wire, the wire an upgrade would give it, the bytes read and not consumed, and a
   * record of what it has sent and which reply codes it has been given.
   */
  datatype Conn = Conn(wire: Option<Wire>, upgraded: Option<Wire>, buffer: Bytes, capabilities: seq<Bytes>,
                       encrypted: bool, sent: seq<Sent>, heard: seq<(Command, nat)>)

  datatype Step<T> = Step(conn: Conn, result: Result<T, SendError>)

  /** The relay's settings; the credential already base64-encoded as `AUTH PLAIN` wants it. */
  datatype Settings = Settings(fromAddress: Bytes, credentials: Option<Bytes>)

  function Labelled(tls: bool, bytes: Bytes): (r: seq<Sent>)
    ensures |r| == |bytes|
  {
    seq(|bytes|, i requires 0 <= i < |bytes| => Sent(tls, bytes[i]))
  }

  // ---------------------------------------------------------------------
  // The session's operations
  // ---------------------------------------------------------------------

  function WriteAll(c: Conn, bytes: Bytes): Step<()> {
    if c.wire.None? then Step(c, Err(LostConnection))
    else
      var w := c.wire.value;
      if w.writes == [] then Step(c, Err(Io))
      else
        var n := Min(w.writes[0].bytes, |bytes|);
        var after := c.(wire := Some(w.(writes := w.writes[1..])), sent := c.sent + Labelled(w.tls, bytes[..n]));
        Step(after, if w.writes[0].ok && n == |bytes| then Ok(()) else Err(Io))
  }

  function ChunksOf(c: Conn): seq<Event> {
    if c.wire.Some? then c.wire.value.chunks else []
  }

  function WithInput(c: Conn, i: Input): Conn {
    c.(buffer := i.buffer, wire := if c.wire.Some? then Some(c.wire.value.(chunks := i.chunks)) else None)
  }

  function ErrorOf(c: Conn, e: ReadError): SendError {
    if e == Broken then Io else if e == Closed && c.wire.None? then LostConnection else BadReply(e)
  }

  function ReadReply(c: Conn): Step<Reply> {
    var (reply, left) := NextReply([], [], Input(c.buffer, ChunksOf(c)));
    Step(WithInput(c, left), if reply.Ok? then Ok(reply.value) else Err(ErrorOf(c, reply.error)))
  }

  /** The code each command is sent with the wish for. */
  function Wanted(command: Command): nat {
    match command
    case Greeting => 220
    case Ehlo => 250
    case StartTls => 220
    case Auth => 235
    case MailFrom => 250
    case RcptTo => 250
    case DataStart => 354
    case EndOfData => 250
    case Quit => 221
  }

  /** 251 counts wherever 250 is expected, although only RCPT gives it. */
  predicate Accepts(expected: nat, code: nat) {
    code == expected || (expected == 250 && code == 251)
  }

  function Expect(c: Conn, command: Command): Step<Reply> {
    var read := ReadReply(c);
    if read.result.Err? then read
    else
      var reply := read.result.value;
      Step(read.conn.(heard := read.conn.heard + [(command, reply.code)]),
           if Accepts(Wanted(command), reply.code) then Ok(reply) else Err(Refused(command, reply.code, reply.text)))
  }

  function Say(c: Conn, command: Command, line: Bytes): Step<Reply> {
    var wrote := WriteAll(c, line + CRLF);
    if wrote.result.Err? then Step(wrote.conn, Err(wrote.result.error)) else Expect(wrote.conn, command)
  }

  /** The part after the last `@`, or `localhost` when there is none. */
  function DomainOf(address: Bytes): Bytes {
    var domain := AfterLastAt(address);
    if domain == [] then Ascii("localhost") else domain
  }

  function AfterLastAt(address: Bytes): Bytes {
    if AT !in address then []
    else if AT in address[1..] then AfterLastAt(address[1..])
    else if address[0] == AT then address[1..] else []
  }

  /** The domain is what follows the last `@`, if there is one and anything follows it. */
  lemma {:induction false} DomainFollowsTheLastAt(local: Bytes, domain: Bytes)
    requires AT !in domain
    ensures DomainOf(local + ([AT] + domain)) == if domain == [] then Ascii("localhost") else domain
    ensures DomainOf(domain) == Ascii("localhost")
    ensures AfterLastAt(local + ([AT] + domain)) == domain
  {
    var address := local + ([AT] + domain);
    if local == [] {
      assert address == [AT] + domain && address[1..] == domain;
    } else {
      DomainFollowsTheLastAt(local[1..], domain);
      assert address[1..] == local[1..] + ([AT] + domain);
      assert address[1..][|local| - 1] == AT && address[|local|] == AT;
    }
  }

  function HelloLine(s: Settings): Bytes {
    Ascii("EHLO ") + DomainOf(s.fromAddress)
  }

  /** `EHLO`, and remember what the relay said it can do. */
  function Hello(c: Conn, line: Bytes): Step<()> {
    var said := Say(c, Ehlo, line);
    if said.result.Err? then Step(said.conn, Err(said.result.error))
    else Step(said.conn.(capabilities := Capabilities(said.result.value.text)), Ok(()))
  }

  function Lower(b: byte): byte {
    if 65 <= b <= 90 then b + 32 else b
  }

  predicate SameKeyword(a: Bytes, b: Bytes) {
    |a| == |b| && forall i :: 0 <= i < |a| ==> Lower(a[i]) == Lower(b[i])
  }

  predicate Supports(capabilities: seq<Bytes>, keyword: Bytes) {
    exists i :: 0 <= i < |capabilities| && SameKeyword(capabilities[i], keyword)
  }

  /** Replaces the wire, once the relay has agreed and nothing it sent is left unread. */
  function Upgrade(c: Conn): Step<()> {
    if c.buffer != [] then Step(c, Err(DataBeforeHandshake))
    else if c.wire.None? then Step(c, Err(LostConnection))
    else if c.upgraded.None? then Step(c.(wire := None), Err(NoUpgrade))
    else Step(c.(wire := c.upgraded, upgraded := None, encrypted := true, capabilities := []), Ok(()))
  }

  function GoSecure(c: Conn): Step<()> {
    var agreed := Say(c, StartTls, Ascii("STARTTLS"));
    if agreed.result.Err? then Step(agreed.conn, Err(agreed.result.error))
    else
      var upgraded := Upgrade(agreed.conn);
      if upgraded.result.Err? then upgraded else Hello(upgraded.conn, Ascii("EHLO"))
  }

  function AuthLine(encoded: Bytes): Bytes {
    Ascii("AUTH PLAIN ") + encoded
  }

  /** A relay that asks for the response separately, with 334, is answered once. */
  function Authenticate(c: Conn, encoded: Bytes): Step<Reply> {
    var first := Say(c, Auth, AuthLine(encoded));
    if first.result.Err? && first.result.error.Refused? && first.result.error.code == 334
    then Say(first.conn, Auth, encoded)
    else first
  }

  function MailLine(s: Settings): Bytes {
    Ascii("MAIL FROM:<") + s.fromAddress + Ascii(">")
  }

  function RcptLine(to: Bytes): Bytes {
    Ascii("RCPT TO:<") + to + Ascii(">")
  }

  /** `DATA`, the payload, and the relay's word that it has the message. */
  function Deliver(c: Conn, payload: Bytes): Step<Reply> {
    var started := Say(c, DataStart, Ascii("DATA"));
    if started.result.Err? then started
    else
      var wrote := WriteAll(started.conn, payload);
      if wrote.result.Err? then Step(wrote.conn, Err(wrote.result.error))
      else
        var dot := WriteAll(wrote.conn, [DOT] + CRLF);
        if dot.result.Err? then Step(dot.conn, Err(dot.result.error)) else Expect(dot.conn, EndOfData)
  }

  /** From `MAIL` on; `QUIT` is said and its outcome ignored. */
  function Mail(c: Conn, s: Settings, to: Bytes, payload: Bytes): Step<()> {
    var mail := Say(c, MailFrom, MailLine(s));
    if mail.result.Err? then Step(mail.conn, Err(mail.result.error))
    else
      var rcpt := Say(mail.conn, RcptTo, RcptLine(to));
      if rcpt.result.Err? then Step(rcpt.conn, Err(rcpt.result.error))
      else
        var delivered := Deliver(rcpt.conn, payload);
        if delivered.result.Err? then Step(delivered.conn, Err(delivered.result.error))
        else Step(Say(delivered.conn, Quit, Ascii("QUIT")).conn, Ok(()))
  }

  function Login(c: Conn, s: Settings): Step<()> {
    if s.credentials.None? then Step(c, Ok(()))
    else if !c.encrypted then Step(c, Err(CredentialsWithoutTls))
    else
      var auth := Authenticate(c, s.credentials.value);
      Step(auth.conn, if auth.result.Err? then Err(auth.result.error) else Ok(()))
  }

  /** The greeting, `EHLO`, and TLS if the relay offers it. */
  function Open(c: Conn, s: Settings): Step<()> {
    var greeted := Expect(c, Greeting);
    if greeted.result.Err? then Step(greeted.conn, Err(greeted.result.error))
    else
      var hello := Hello(greeted.conn, HelloLine(s));
      if hello.result.Err? || !Supports(hello.conn.capabilities, Ascii("STARTTLS")) then hello
      else GoSecure(hello.conn)
  }

  function Send(c: Conn, s: Settings, to: Bytes, payload: Bytes): Step<()> {
    var begun := Open(c, s);
    if begun.result.Err? then begun
    else
      var login := Login(begun.conn, s);
      if login.result.Err? then login else Mail(login.conn, s, to, payload)
  }

  // ---------------------------------------------------------------------
  // The script
  // ---------------------------------------------------------------------

  datatype Frame = Frame(tls: bool, bytes: Bytes)

  function Flat(frames: seq<Frame>): seq<Sent> {
    if frames == [] then []
    else
      var last := frames[|frames| - 1];
      Flat(frames[..|frames| - 1]) + Labelled(last.tls, last.bytes)
  }

  lemma FlatSnoc(frames: seq<Frame>, f: Frame)
    ensures Flat(frames + [f]) == Flat(frames) + Labelled(f.tls, f.bytes)
  {
    var all := frames + [f];
    assert all[..|all| - 1] == frames && all[|all| - 1] == f;
  }

  lemma {:induction false} FlatConcat(a: seq<Frame>, b: seq<Frame>)
    ensures Flat(a + b) == Flat(a) + Flat(b)
  {
    if b == [] {
      assert a + b == a;
    } else {
      var most, last := b[..|b| - 1], b[|b| - 1];
      FlatConcat(a, most);
      FlatSnoc(a + most, last);
      FlatSnoc(most, last);
      assert b == most + [last] && a + b == a + most + [last];
      AssocSent(Flat(a), Flat(most), Labelled(last.tls, last.bytes));
    }
  }

  lemma AssocSent(x: seq<Sent>, y: seq<Sent>, z: seq<Sent>)
    ensures x + (y + z) == x + y + z
  {
  }

  function SecureFrames(tls: bool): seq<Frame> {
    if tls then [Frame(false, Ascii("STARTTLS") + CRLF)] + [Frame(true, Ascii("EHLO") + CRLF)] else []
  }

  function AuthFrames(encoded: Bytes, tls: bool, asked: bool): seq<Frame> {
    [Frame(tls, Ascii("AUTH PLAIN ") + encoded + CRLF)] + if asked then [Frame(tls, encoded + CRLF)] else []
  }

  function LoginFrames(s: Settings, tls: bool, asked: bool): seq<Frame> {
    if s.credentials.Some? && tls then AuthFrames(s.credentials.value, tls, asked) else []
  }

  function MailFrames(s: Settings, to: Bytes, payload: Bytes, tls: bool): seq<Frame> {
    [Frame(tls, Ascii("MAIL FROM:<") + s.fromAddress + Ascii(">") + CRLF)] +
    [Frame(tls, Ascii("RCPT TO:<") + to + Ascii(">") + CRLF)] + DataFrames(payload, tls)
  }

  function DataFrames(payload: Bytes, tls: bool): seq<Frame> {
    [Frame(tls, Ascii("DATA") + CRLF)] + [Frame(tls, payload)] + [Frame(tls, [DOT] + CRLF)]
  }

  function HelloFrame(s: Settings): seq<Frame> {
    [Frame(false, Ascii("EHLO ") + DomainOf(s.fromAddress) + CRLF)]
  }

  function QuitFrame(tls: bool): seq<Frame> {
    [Frame(tls, Ascii("QUIT") + CRLF)]
  }

  /** What a whole conversation says, with or without TLS, and with or without the second half of `AUTH`. */
  function Script(s: Settings, to: Bytes, payload: Bytes, tls: bool, asked: bool): seq<Frame> {
    LoggedIn(s, tls, asked) +
    if s.credentials.Some? && !tls then [] else MailFrames(s, to, payload, tls) + QuitFrame(tls)
  }

  /** Going from `before` to `after` said these frames, or, where it failed, the start of them. */
  ghost predicate Says(before: Conn, after: Conn, ok: bool, frames: seq<Frame>) {
    && after.sent <= before.sent + Flat(frames)
    && (ok ==> after.sent == before.sent + Flat(frames))
  }

  lemma PrefixOfMore<T>(a: seq<T>, b: seq<T>, more: seq<T>)
    requires a <= b
    ensures a <= b + more
  {
  }

  lemma SaysAnd(a: Conn, b: Conn, c: Conn, ok: bool, f: seq<Frame>, g: seq<Frame>)
    requires Says(a, b, true, f) && Says(b, c, ok, g)
    ensures Says(a, c, ok, f + g)
  {
    FlatConcat(f, g);
    AssocSent(a.sent, Flat(f), Flat(g));
  }

  lemma SaysLess(a: Conn, b: Conn, f: seq<Frame>, g: seq<Frame>)
    requires Says(a, b, false, f)
    ensures Says(a, b, false, f + g)
  {
    FlatConcat(f, g);
    AssocSent(a.sent, Flat(f), Flat(g));
    PrefixOfMore(b.sent, a.sent + Flat(f), Flat(g));
  }

  // ---------------------------------------------------------------------
  // Whatever the relay does, the client says the start of the script
  // ---------------------------------------------------------------------

  /** The wire is there, and TLS exactly when the session says so. */
  ghost predicate On(c: Conn, tls: bool) {
    c.wire.Some? && c.wire.value.tls == tls && c.encrypted == tls
  }

  lemma FlatOne(f: Frame)
    ensures Flat([f]) == Labelled(f.tls, f.bytes)
  {
    assert [f][..0] == [];
  }

  lemma WriteSays(c: Conn, bytes: Bytes, tls: bool)
    requires On(c, tls)
    ensures var w := WriteAll(c, bytes);
      Says(c, w.conn, w.result.Ok?, [Frame(tls, bytes)]) && On(w.conn, tls) && w.conn.upgraded == c.upgraded
  {
    FlatOne(Frame(tls, bytes));
    if c.wire.value.writes != [] {
      var n := Min(c.wire.value.writes[0].bytes, |bytes|);
      assert Labelled(tls, bytes[..n]) == Labelled(tls, bytes)[..n];
      assert n == |bytes| ==> bytes[..n] == bytes;
    }
  }

  lemma ExpectSaysNothing(c: Conn, command: Command, tls: bool)
    requires On(c, tls)
    ensures var e := Expect(c, command);
      e.conn.sent == c.sent && On(e.conn, tls) && e.conn.upgraded == c.upgraded
  {
  }

  lemma SaySays(c: Conn, command: Command, line: Bytes, tls: bool)
    requires On(c, tls)
    ensures var said := Say(c, command, line);
      && Says(c, said.conn, said.result.Ok?, [Frame(tls, line + CRLF)]) && On(said.conn, tls)
      && said.conn.upgraded == c.upgraded
      && (said.result.Err? && said.result.error.Refused? ==> Says(c, said.conn, true, [Frame(tls, line + CRLF)]))
  {
    WriteSays(c, line + CRLF, tls);
    var wrote := WriteAll(c, line + CRLF);
    if wrote.result.Ok? {
      ExpectSaysNothing(wrote.conn, command, tls);
    }
  }

  lemma HelloSays(c: Conn, line: Bytes, tls: bool)
    requires On(c, tls)
    ensures var hello := Hello(c, line);
      && Says(c, hello.conn, hello.result.Ok?, [Frame(tls, line + CRLF)]) && On(hello.conn, tls)
      && hello.conn.upgraded == c.upgraded
  {
    SaySays(c, Ehlo, line, tls);
  }

  lemma GoSecureSays(c: Conn)
    requires On(c, false) && (c.upgraded.Some? ==> c.upgraded.value.tls)
    ensures var secure := GoSecure(c);
      Says(c, secure.conn, secure.result.Ok?, SecureFrames(true)) && (secure.result.Ok? ==> On(secure.conn, true))
  {
    var starttls, ehlo := [Frame(false, Ascii("STARTTLS") + CRLF)], [Frame(true, Ascii("EHLO") + CRLF)];
    SaySays(c, StartTls, Ascii("STARTTLS"), false);
    var agreed := Say(c, StartTls, Ascii("STARTTLS"));
    var up := Upgrade(agreed.conn);
    if agreed.result.Err? || up.result.Err? {
      SaysLess(c, GoSecure(c).conn, starttls, ehlo);
    } else {
      HelloSays(up.conn, Ascii("EHLO"), true);
      SaysAnd(c, up.conn, GoSecure(c).conn, GoSecure(c).result.Ok?, starttls, ehlo);
    }
  }

  lemma OpenSays(c: Conn, s: Settings) returns (tls: bool)
    requires On(c, false) && (c.upgraded.Some? ==> c.upgraded.value.tls)
    ensures var begun := Open(c, s);
      && Says(c, begun.conn, begun.result.Ok?, HelloFrame(s) + SecureFrames(tls))
      && (begun.result.Ok? ==> On(begun.conn, tls))
  {
    ExpectSaysNothing(c, Greeting, false);
    var greeted := Expect(c, Greeting);
    tls := false;
    assert HelloFrame(s) + SecureFrames(false) == HelloFrame(s);
    if greeted.result.Err? {
      assert Says(c, greeted.conn, false, HelloFrame(s));
    } else {
      HelloSays(greeted.conn, HelloLine(s), false);
      var hello := Hello(greeted.conn, HelloLine(s));
      if hello.result.Ok? && Supports(hello.conn.capabilities, Ascii("STARTTLS")) {
        tls := true;
        GoSecureSays(hello.conn);
        SaysAnd(c, hello.conn, Open(c, s).conn, Open(c, s).result.Ok?, HelloFrame(s), SecureFrames(true));
      }
    }
  }

  lemma LoginSays(c: Conn, s: Settings, tls: bool) returns (asked: bool)
    requires On(c, tls)
    ensures var login := Login(c, s);
      && Says(c, login.conn, login.result.Ok?, LoginFrames(s, tls, asked))
      && (login.result.Ok? ==> On(login.conn, tls) && (s.credentials.Some? ==> tls))
  {
    asked := false;
    if s.credentials.Some? && tls {
      var encoded := s.credentials.value;
      var one, two := [Frame(true, AuthLine(encoded) + CRLF)], [Frame(true, encoded + CRLF)];
      var first := Say(c, Auth, AuthLine(encoded));
      SaySays(c, Auth, AuthLine(encoded), true);
      assert one + [] == one;
      if first.result.Err? && first.result.error.Refused? && first.result.error.code == 334 {
        asked := true;
        SaySays(first.conn, Auth, encoded, true);
        SaysAnd(c, first.conn, Login(c, s).conn, Login(c, s).result.Ok?, one, two);
      }
    }
  }

  lemma DeliverSays(c: Conn, payload: Bytes, tls: bool)
    requires On(c, tls)
    ensures var delivered := Deliver(c, payload);
      Says(c, delivered.conn, delivered.result.Ok?, DataFrames(payload, tls)) && On(delivered.conn, tls)
  {
    var data, body, dot := [Frame(tls, Ascii("DATA") + CRLF)], [Frame(tls, payload)], [Frame(tls, [DOT] + CRLF)];
    var end := Deliver(c, payload);
    SaySays(c, DataStart, Ascii("DATA"), tls);
    var started := Say(c, DataStart, Ascii("DATA"));
    if started.result.Err? {
      SaysLess(c, end.conn, data, body);
      SaysLess(c, end.conn, data + body, dot);
    } else {
      WriteSays(started.conn, payload, tls);
      var wrote := WriteAll(started.conn, payload);
      SaysAnd(c, started.conn, wrote.conn, wrote.result.Ok?, data, body);
      if wrote.result.Err? {
        SaysLess(c, end.conn, data + body, dot);
      } else {
        WriteSays(wrote.conn, [DOT] + CRLF, tls);
        var dotted := WriteAll(wrote.conn, [DOT] + CRLF);
        SaysAnd(c, wrote.conn, dotted.conn, dotted.result.Ok?, data + body, dot);
        if dotted.result.Ok? {
          ExpectSaysNothing(dotted.conn, EndOfData, tls);
        }
      }
    }
  }

  /** Up to the end of the data; `QUIT` follows only a delivered message. */
  lemma MailSays(c: Conn, s: Settings, to: Bytes, payload: Bytes, tls: bool)
    requires On(c, tls)
    ensures var mail := Mail(c, s, to, payload);
      && Says(c, mail.conn, false, MailFrames(s, to, payload, tls) + QuitFrame(tls))
      && (mail.result.Ok? ==> c.sent + Flat(MailFrames(s, to, payload, tls)) <= mail.conn.sent)
  {
    var from, rcpt := [Frame(tls, MailLine(s) + CRLF)], [Frame(tls, RcptLine(to) + CRLF)];
    var data := DataFrames(payload, tls);
    var end := Mail(c, s, to, payload);
    SaySays(c, MailFrom, MailLine(s), tls);
    var mail := Say(c, MailFrom, MailLine(s));
    if mail.result.Err? {
      SaysLess(c, end.conn, from, rcpt);
      SaysLess(c, end.conn, from + rcpt, data);
      SaysLess(c, end.conn, from + rcpt + data, QuitFrame(tls));
    } else {
      SaySays(mail.conn, RcptTo, RcptLine(to), tls);
      var asked := Say(mail.conn, RcptTo, RcptLine(to));
      SaysAnd(c, mail.conn, asked.conn, asked.result.Ok?, from, rcpt);
      if asked.result.Err? {
        SaysLess(c, end.conn, from + rcpt, data);
        SaysLess(c, end.conn, from + rcpt + data, QuitFrame(tls));
      } else {
        DeliverAndQuitSay(c, asked.conn, payload, tls, from + rcpt);
      }
    }
  }

  lemma DeliverAndQuitSay(c: Conn, asked: Conn, payload: Bytes, tls: bool, said: seq<Frame>)
    requires Says(c, asked, true, said) && On(asked, tls)
    ensures var delivered := Deliver(asked, payload);
      var quit := Say(delivered.conn, Quit, Ascii("QUIT"));
      var all := said + DataFrames(payload, tls);
      && (delivered.result.Err? ==> Says(c, delivered.conn, false, all + QuitFrame(tls)))
      && (delivered.result.Ok? ==> Says(c, quit.conn, false, all + QuitFrame(tls)))
      && (delivered.result.Ok? ==> c.sent + Flat(all) <= quit.conn.sent)
  {
    var delivered, all := Deliver(asked, payload), said + DataFrames(payload, tls);
    DeliverSays(asked, payload, tls);
    SaysAnd(c, asked, delivered.conn, delivered.result.Ok?, said, DataFrames(payload, tls));
    if delivered.result.Err? {
      SaysLess(c, delivered.conn, all, QuitFrame(tls));
    } else {
      SaySays(delivered.conn, Quit, Ascii("QUIT"), tls);
      SentGrows(delivered.conn, Quit, Ascii("QUIT"));
      var quit := Say(delivered.conn, Quit, Ascii("QUIT"));
      SaysAnd(c, delivered.conn, quit.conn, false, all, QuitFrame(tls));
    }
  }

  lemma SentGrows(c: Conn, command: Command, line: Bytes)
    ensures c.sent <= Say(c, command, line).conn.sent
  {
  }

  function LoggedIn(s: Settings, tls: bool, asked: bool): seq<Frame> {
    HelloFrame(s) + SecureFrames(tls) + LoginFrames(s, tls, asked)
  }

  lemma MailEndsTheScript(c: Conn, mid: Conn, s: Settings, to: Bytes, payload: Bytes, tls: bool, asked: bool)
    requires c.sent == [] && Says(c, mid, true, LoggedIn(s, tls, asked)) && On(mid, tls)
    requires s.credentials.Some? ==> tls
    ensures var end := Mail(mid, s, to, payload);
      && end.conn.sent <= Flat(Script(s, to, payload, tls, asked))
      && (end.result.Ok? ==> Flat(LoggedIn(s, tls, asked) + MailFrames(s, to, payload, tls)) <= end.conn.sent)
  {
    var end := Mail(mid, s, to, payload).conn;
    MailSays(mid, s, to, payload, tls);
    SaysAnd(c, mid, end, false, LoggedIn(s, tls, asked), MailFrames(s, to, payload, tls) + QuitFrame(tls));
    assert Script(s, to, payload, tls, asked)
        == LoggedIn(s, tls, asked) + (MailFrames(s, to, payload, tls) + QuitFrame(tls));
    if Mail(mid, s, to, payload).result.Ok? {
      AllSaid(c, mid, end, LoggedIn(s, tls, asked), MailFrames(s, to, payload, tls));
    }
  }

  lemma AllSaid(c: Conn, mid: Conn, end: Conn, said: seq<Frame>, more: seq<Frame>)
    requires c.sent == [] && Says(c, mid, true, said) && mid.sent + Flat(more) <= end.sent
    ensures Flat(said + more) <= end.sent
  {
    FlatConcat(said, more);
    assert [] + Flat(said) == Flat(said);
  }

  /**
   * Whatever the relay answers and wherever the connection fails, the client has said the start of
   * the script: for some choice of TLS, and of answering one request for the rest of `AUTH`. If it
   * reports success, everything up to the dot line has been said.
   */
  lemma SaysTheStartOfTheScript(c: Conn, s: Settings, to: Bytes, payload: Bytes) returns (tls: bool, asked: bool)
    requires On(c, false) && (c.upgraded.Some? ==> c.upgraded.value.tls) && c.sent == []
    ensures var end := Send(c, s, to, payload);
      && end.conn.sent <= Flat(Script(s, to, payload, tls, asked))
      && (end.result.Ok? && s.credentials.Some? ==> tls)
      && (end.result.Ok? ==> Flat(LoggedIn(s, tls, asked) + MailFrames(s, to, payload, tls)) <= end.conn.sent)
  {
    asked := false;
    tls := OpenSays(c, s);
    var begun, first := Open(c, s), HelloFrame(s) + SecureFrames(tls);
    if begun.result.Err? {
      ScriptStarts(c, begun.conn, s, to, payload, tls, asked, first, LoginFrames(s, tls, asked));
    } else {
      asked := LoginSays(begun.conn, s, tls);
      var login := Login(begun.conn, s);
      SaysAnd(c, begun.conn, login.conn, login.result.Ok?, first, LoginFrames(s, tls, asked));
      if login.result.Err? {
        assert LoggedIn(s, tls, asked) + [] == LoggedIn(s, tls, asked);
        ScriptStarts(c, login.conn, s, to, payload, tls, asked, LoggedIn(s, tls, asked), []);
      } else {
        MailEndsTheScript(c, login.conn, s, to, payload, tls, asked);
      }
    }
  }

  lemma ScriptStarts(c: Conn, end: Conn, s: Settings, to: Bytes, payload: Bytes, tls: bool, asked: bool,
                     said: seq<Frame>, next: seq<Frame>)
    requires c.sent == [] && Says(c, end, false, said)
    requires said + next == LoggedIn(s, tls, asked)
    ensures end.sent <= Flat(Script(s, to, payload, tls, asked))
  {
    var rest := if s.credentials.Some? && !tls then [] else MailFrames(s, to, payload, tls) + QuitFrame(tls);
    SaysLess(c, end, said, next);
    SaysLess(c, end, LoggedIn(s, tls, asked), rest);
    assert Script(s, to, payload, tls, asked) == LoggedIn(s, tls, asked) + rest;
  }

  // ---------------------------------------------------------------------
  // Which replies let the conversation go on
  // ---------------------------------------------------------------------

  /** The rule as it is documented: 251 is for RCPT. */
  predicate Documented(command: Command, code: nat) {
    code == Wanted(command) || (command == RcptTo && code == 251)
  }

  /** The code keeps the documented rule for every command but EHLO, MAIL FROM and the end of the data. */
  lemma DocumentedRuleExactlyWhen(command: Command)
    ensures (forall code: nat :: Accepts(Wanted(command), code) <==> Documented(command, code))
       <==> command != Ehlo && command != MailFrom && command != EndOfData
  {
    if command == Ehlo || command == MailFrom || command == EndOfData {
      assert Accepts(Wanted(command), 251) && !Documented(command, 251);
    }
  }

  /**
   * However its reply is chunked, a relay that prints this code is taken at its word if the code is
   * accepted, and otherwise refused with the code and the text it gave.
   */
  lemma PrintedReplyDecides(c: Conn, command: Command, code: nat, texts: seq<Bytes>, rest: Bytes)
    requires 100 <= code <= 999 && Printable(texts)
    requires All(Input(c.buffer, ChunksOf(c))) == Printed(code, texts) + rest
    ensures var reply := Reply(code, Bounded(JoinLf(texts)));
      Expect(c, command).result
      == if Accepts(Wanted(command), code) then Ok(reply) else Err(Refused(command, code, reply.text))
  {
    PrintedReadsBack(code, texts, rest, Input(c.buffer, ChunksOf(c)));
  }

  /** So a relay that answers 251 is accepted exactly after the four commands that wait for 250. */
  lemma RelayAnswering251(c: Conn, command: Command, texts: seq<Bytes>, rest: Bytes)
    requires Printable(texts) && All(Input(c.buffer, ChunksOf(c))) == Printed(251, texts) + rest
    ensures Expect(c, command).result.Ok?
       <==> command == Ehlo || command == MailFrom || command == RcptTo || command == EndOfData
  {
    PrintedReplyDecides(c, command, 251, texts, rest);
  }

  /** The codes each command is answered with, for it to go on. */
  lemma AcceptedCodes(c: Conn, command: Command, code: nat, texts: seq<Bytes>, rest: Bytes)
    requires 100 <= code <= 999 && Printable(texts)
    requires All(Input(c.buffer, ChunksOf(c))) == Printed(code, texts) + rest
    ensures Expect(c, command).result.Ok? <==>
      match command
      case Greeting => code == 220
      case StartTls => code == 220
      case Auth => code == 235
      case DataStart => code == 354
      case Quit => code == 221
      case Ehlo => code == 250 || code == 251
      case MailFrom => code == 250 || code == 251
      case RcptTo => code == 250 || code == 251
      case EndOfData => code == 250 || code == 251
  {
    PrintedReplyDecides(c, command, code, texts, rest);
  }

  // ---------------------------------------------------------------------
  // TLS exactly when it is offered
  // ---------------------------------------------------------------------

  /** A keyword in capitals, in any letter case. */
  ghost predicate IgnoringCase(word: Bytes, keyword: string) {
    |word| == |keyword| && forall i :: 0 <= i < |word| ==>
      word[i] == keyword[i] as int || word[i] == keyword[i] as int + 32
  }

  /** A line after the greeting starts with this word. */
  ghost predicate Offers(texts: seq<Bytes>, keyword: string) {
    exists i :: 1 <= i < |texts| && FirstWord(texts[i]).Some? && IgnoringCase(FirstWord(texts[i]).value, keyword)
  }

  lemma SameKeywordExactlyWhen(word: Bytes)
    ensures SameKeyword(word, Ascii("STARTTLS")) <==> IgnoringCase(word, "STARTTLS")
  {
    var keyword := "STARTTLS";
    assert forall i :: 0 <= i < |keyword| ==> Ascii(keyword)[i] == keyword[i] as int && 65 <= keyword[i] as int <= 90;
  }

  lemma SupportsExactlyWhen(texts: seq<Bytes>)
    requires texts != []
    ensures Supports(FirstWords(texts[1..]), Ascii("STARTTLS")) <==> Offers(texts, "STARTTLS")
  {
    var words := FirstWords(texts[1..]);
    if Supports(words, Ascii("STARTTLS")) {
      var k :| 0 <= k < |words| && SameKeyword(words[k], Ascii("STARTTLS"));
      WordIsOfALine(texts[1..], words[k]);
      var i :| 0 <= i < |texts[1..]| && FirstWord(texts[1..][i]) == Some(words[k]);
      SameKeywordExactlyWhen(words[k]);
      assert FirstWord(texts[i + 1]) == Some(words[k]);
    }
    if Offers(texts, "STARTTLS") {
      var i :| 1 <= i < |texts| && FirstWord(texts[i]).Some? && IgnoringCase(FirstWord(texts[i]).value, "STARTTLS");
      var word := FirstWord(texts[i]).value;
      assert FirstWord(texts[1..][i - 1]) == Some(word);
      WordIsOfALine(texts[1..], word);
      SameKeywordExactlyWhen(word);
      var k :| 0 <= k < |words| && words[k] == word;
    }
  }

  /** The next write on this wire gets out whole. */
  ghost predicate WritesNext(c: Conn, n: nat) {
    c.wire.Some? && c.wire.value.writes != [] && c.wire.value.writes[0].ok && c.wire.value.writes[0].bytes >= n
  }

  /** That is when a write of this size succeeds. */
  lemma WritesExactlyWhen(c: Conn, bytes: Bytes)
    ensures WriteAll(c, bytes).result.Ok? <==> WritesNext(c, |bytes|)
  {
  }

  lemma SaysWhole(c: Conn, command: Command, line: Bytes, tls: bool)
    requires On(c, tls) && WritesNext(c, |line + CRLF|)
    ensures Say(c, command, line).conn.sent == c.sent + Labelled(tls, line + CRLF)
  {
    assert (line + CRLF)[..|line + CRLF|] == line + CRLF;
  }

  lemma GoSecureGrows(c: Conn)
    ensures Say(c, StartTls, Ascii("STARTTLS")).conn.sent <= GoSecure(c).conn.sent
  {
    var agreed := Say(c, StartTls, Ascii("STARTTLS"));
    if agreed.result.Ok? && Upgrade(agreed.conn).result.Ok? {
      SentGrows(Upgrade(agreed.conn).conn, Ehlo, Ascii("EHLO"));
    }
  }

  lemma LoginGrows(c: Conn, s: Settings)
    ensures c.sent <= Login(c, s).conn.sent
  {
    if s.credentials.Some? {
      var first := Say(c, Auth, AuthLine(s.credentials.value));
      SentGrows(c, Auth, AuthLine(s.credentials.value));
      SentGrows(first.conn, Auth, s.credentials.value);
    }
  }

  lemma DeliverGrows(c: Conn, payload: Bytes)
    ensures c.sent <= Deliver(c, payload).conn.sent
  {
    SentGrows(c, DataStart, Ascii("DATA"));
  }

  lemma MailGrows(c: Conn, s: Settings, to: Bytes, payload: Bytes)
    ensures c.sent <= Mail(c, s, to, payload).conn.sent
  {
    var mail := Say(c, MailFrom, MailLine(s));
    SentGrows(c, MailFrom, MailLine(s));
    SentGrows(mail.conn, RcptTo, RcptLine(to));
    var rcpt := Say(mail.conn, RcptTo, RcptLine(to));
    DeliverGrows(rcpt.conn, payload);
    SentGrows(Deliver(rcpt.conn, payload).conn, Quit, Ascii("QUIT"));
  }

  lemma SendGrows(c: Conn, s: Settings, to: Bytes, payload: Bytes)
    ensures Open(c, s).conn.sent <= Send(c, s, to, payload).conn.sent
  {
    LoginGrows(Open(c, s).conn, s);
    MailGrows(Login(Open(c, s).conn, s).conn, s, to, payload);
  }

  /** Without TLS, a message starts with `MAIL`, or nothing of it is said. */
  lemma MailIsNotStartTls(c: Conn, s: Settings, to: Bytes, payload: Bytes, line: Bytes)
    requires On(c, false) && line != [] && line[0] != 77
    ensures !(c.sent + Labelled(false, line) <= Mail(c, s, to, payload).conn.sent)
  {
    var end, first := Mail(c, s, to, payload).conn.sent, MailFrames(s, to, payload, false)[0];
    var rest := MailFrames(s, to, payload, false)[1..] + QuitFrame(false);
    MailSays(c, s, to, payload, false);
    assert MailFrames(s, to, payload, false) + QuitFrame(false) == [first] + rest;
    FlatConcat([first], rest);
    FlatOne(first);
    assert first.bytes[0] == Ascii("MAIL FROM:<")[0] == 77;
    StartsOtherwise(c.sent, end, Labelled(false, line), Labelled(false, first.bytes) + Flat(rest));
  }

  lemma StartsOtherwise(before: seq<Sent>, end: seq<Sent>, mine: seq<Sent>, theirs: seq<Sent>)
    requires end <= before + theirs && mine != [] && theirs != [] && mine[0] != theirs[0]
    ensures !(before + mine <= end)
  {
    assert (before + mine)[|before|] == mine[0];
    if |end| > |before| {
      assert end[|before|] == (before + theirs)[|before|] == theirs[0];
    }
  }

  /** What is known of a session once a printed EHLO reply has been taken. */
  lemma HelloTakes(c: Conn, s: Settings, code: nat, texts: seq<Bytes>, rest: Bytes)
    requires On(c, false) && (code == 250 || code == 251) && Printable(texts) && Chars(JoinLf(texts)) <= MAX_ERROR_CHARS
    requires WriteAll(c, HelloLine(s) + CRLF).result.Ok?
    requires var asked := WriteAll(c, HelloLine(s) + CRLF).conn;
      All(Input(asked.buffer, ChunksOf(asked))) == Printed(code, texts) + rest
    ensures var hello, asked := Hello(c, HelloLine(s)), WriteAll(c, HelloLine(s) + CRLF).conn;
      && hello.result.Ok? && hello.conn.capabilities == FirstWords(texts[1..])
      && hello.conn.sent == asked.sent && On(hello.conn, false)
      && hello.conn.wire.value.writes == asked.wire.value.writes
  {
    var asked := WriteAll(c, HelloLine(s) + CRLF).conn;
    WriteSays(c, HelloLine(s) + CRLF, false);
    PrintedReplyDecides(asked, Ehlo, code, texts, rest);
    EveryCapabilityIsRecorded(texts);
  }

  /**
   * To a relay that prints a reply of at most 500 characters to `EHLO`, the client next says
   * `STARTTLS` exactly when a line after the greeting starts with that word, in any letter case.
   */
  lemma UpgradesExactlyWhenOffered(c: Conn, s: Settings, to: Bytes, payload: Bytes, code: nat, texts: seq<Bytes>,
                                   rest: Bytes)
    requires On(c, false) && Expect(c, Greeting).result.Ok?
    requires (code == 250 || code == 251) && Printable(texts) && Chars(JoinLf(texts)) <= MAX_ERROR_CHARS
    requires WriteAll(Expect(c, Greeting).conn, HelloLine(s) + CRLF).result.Ok?
    requires var asked := WriteAll(Expect(c, Greeting).conn, HelloLine(s) + CRLF).conn;
      && All(Input(asked.buffer, ChunksOf(asked))) == Printed(code, texts) + rest
      && WritesNext(asked, |Ascii("STARTTLS") + CRLF|)
    ensures var asked := WriteAll(Expect(c, Greeting).conn, HelloLine(s) + CRLF).conn;
      asked.sent + Labelled(false, Ascii("STARTTLS") + CRLF) <= Send(c, s, to, payload).conn.sent
      <==> Offers(texts, "STARTTLS")
  {
    var greeted, line := Expect(c, Greeting).conn, Ascii("STARTTLS") + CRLF;
    ExpectSaysNothing(c, Greeting, false);
    HelloTakes(greeted, s, code, texts, rest);
    SupportsExactlyWhen(texts);
    var hello := Hello(greeted, HelloLine(s)).conn;
    if Offers(texts, "STARTTLS") {
      SaysWhole(hello, StartTls, Ascii("STARTTLS"), false);
      GoSecureGrows(hello);
      SendGrows(c, s, to, payload);
    } else if s.credentials.None? {
      assert line[0] == 83;
      MailIsNotStartTls(hello, s, to, payload, line);
    }
  }

  /** The other half of `AUTH` is said exactly to a relay that answers the first with 334. */
  lemma AnswersExactlyA334(c: Conn, encoded: Bytes, tls: bool, code: nat, texts: seq<Bytes>, rest: Bytes)
    requires On(c, tls) && 100 <= code <= 999 && Printable(texts)
    requires WriteAll(c, Ascii("AUTH PLAIN ") + encoded + CRLF).result.Ok?
    requires var asked := WriteAll(c, Ascii("AUTH PLAIN ") + encoded + CRLF).conn;
      && All(Input(asked.buffer, ChunksOf(asked))) == Printed(code, texts) + rest
      && WritesNext(asked, |encoded + CRLF|)
    ensures var asked := WriteAll(c, Ascii("AUTH PLAIN ") + encoded + CRLF).conn;
      && asked.sent + Labelled(tls, encoded + CRLF) <= Authenticate(c, encoded).conn.sent <==> code == 334
  {
    var asked := WriteAll(c, AuthLine(encoded) + CRLF).conn;
    WriteSays(c, AuthLine(encoded) + CRLF, tls);
    PrintedReplyDecides(asked, Auth, code, texts, rest);
    ExpectSaysNothing(asked, Auth, tls);
    if code == 334 {
      SaysWhole(Say(c, Auth, AuthLine(encoded)).conn, Auth, encoded, tls);
    }
  }

  // ---------------------------------------------------------------------
  // Credentials only under TLS
  // ---------------------------------------------------------------------

  /** All that may be said before the upgrade when there is a credential to protect. */
  function ClearFrames(s: Settings): seq<Frame> {
    HelloFrame(s) + [Frame(false, Ascii("STARTTLS") + CRLF)]
  }

  lemma {:induction false} FlatUnderTls(frames: seq<Frame>)
    requires forall i :: 0 <= i < |frames| ==> frames[i].tls
    ensures forall i :: 0 <= i < |Flat(frames)| ==> Flat(frames)[i].tls
  {
    if frames != [] {
      FlatUnderTls(frames[..|frames| - 1]);
    }
  }

  /** What follows the clear frames of a script with a credential. */
  function SecretFrames(s: Settings, to: Bytes, payload: Bytes, asked: bool): seq<Frame>
    requires s.credentials.Some?
  {
    [Frame(true, Ascii("EHLO") + CRLF)] + AuthFrames(s.credentials.value, true, asked) +
    (MailFrames(s, to, payload, true) + QuitFrame(true))
  }

  lemma ScriptWithCredentials(s: Settings, to: Bytes, payload: Bytes, tls: bool, asked: bool)
    requires s.credentials.Some?
    ensures Script(s, to, payload, tls, asked)
         == if tls then ClearFrames(s) + SecretFrames(s, to, payload, asked) else HelloFrame(s)
  {
    if tls {
      assert LoggedIn(s, tls, asked)
          == ClearFrames(s) + ([Frame(true, Ascii("EHLO") + CRLF)] + AuthFrames(s.credentials.value, true, asked));
    }
  }

  /**
   * With a credential configured, the bytes that leave in the clear are a beginning of `EHLO` and
   * `STARTTLS`, whatever the relay does: no part of `AUTH`, and no part of the message.
   */
  lemma CredentialsNeverGoInTheClear(c: Conn, s: Settings, to: Bytes, payload: Bytes, i: nat)
    requires On(c, false) && (c.upgraded.Some? ==> c.upgraded.value.tls) && c.sent == [] && s.credentials.Some?
    requires i < |Send(c, s, to, payload).conn.sent| && !Send(c, s, to, payload).conn.sent[i].tls
    ensures i < |Flat(ClearFrames(s))| && Send(c, s, to, payload).conn.sent[i] == Flat(ClearFrames(s))[i]
  {
    var sent := Send(c, s, to, payload).conn.sent;
    var tls, asked := SaysTheStartOfTheScript(c, s, to, payload);
    ScriptWithCredentials(s, to, payload, tls, asked);
    if tls {
      FlatConcat(ClearFrames(s), SecretFrames(s, to, payload, asked));
      SecretFramesAreUnderTls(s, to, payload, asked);
      ClearBytesComeFirst(sent, Flat(ClearFrames(s)), Flat(SecretFrames(s, to, payload, asked)), i);
    } else {
      FlatConcat(HelloFrame(s), [Frame(false, Ascii("STARTTLS") + CRLF)]);
      PrefixOfMore(sent, Flat(HelloFrame(s)), Flat([Frame(false, Ascii("STARTTLS") + CRLF)]));
    }
  }

  lemma SecretFramesAreUnderTls(s: Settings, to: Bytes, payload: Bytes, asked: bool)
    requires s.credentials.Some?
    ensures forall i :: 0 <= i < |Flat(SecretFrames(s, to, payload, asked))| ==>
      Flat(SecretFrames(s, to, payload, asked))[i].tls
  {
    FlatUnderTls(SecretFrames(s, to, payload, asked));
  }

  lemma ClearBytesComeFirst(sent: seq<Sent>, clear: seq<Sent>, secret: seq<Sent>, i: nat)
    requires sent <= clear + secret && forall j :: 0 <= j < |secret| ==> secret[j].tls
    requires i < |sent| && !sent[i].tls
    ensures i < |clear| && sent[i] == clear[i]
  {
    assert sent[i] == (clear + secret)[i];
  }

  /**
   * A byte the relay slips in after agreeing to `STARTTLS` ends the session. Otherwise the session
   * goes on with nothing read, and what it can do is what a fresh `EHLO` over the new wire says.
   */
  lemma UpgradeStartsAfresh(c: Conn)
    requires On(c, false) && Say(c, StartTls, Ascii("STARTTLS")).result.Ok?
    ensures var agreed := Say(c, StartTls, Ascii("STARTTLS")).conn;
      && (agreed.buffer != [] ==> GoSecure(c) == Step(agreed, Err(DataBeforeHandshake)))
      && (GoSecure(c).result.Ok? ==>
           && c.upgraded.Some? && NextReply([], [], Input([], c.upgraded.value.chunks)).0.Ok?
           && GoSecure(c).conn.capabilities
              == Capabilities(NextReply([], [], Input([], c.upgraded.value.chunks)).0.value.text))
  {
    SaySays(c, StartTls, Ascii("STARTTLS"), false);
  }

  // ---------------------------------------------------------------------
  // Success means the relay has the message
  // ---------------------------------------------------------------------

  ghost predicate NothingDelivered(heard: seq<(Command, nat)>) {
    forall i :: 0 <= i < |heard| ==> heard[i].0 != EndOfData
  }

  /** The relay answered the end of the data with a code this client takes for acceptance. */
  ghost predicate Accepted(heard: seq<(Command, nat)>) {
    exists i :: 0 <= i < |heard| && heard[i].0 == EndOfData && Accepts(250, heard[i].1)
  }

  lemma SayHears(c: Conn, command: Command, line: Bytes)
    requires command != EndOfData
    ensures NothingDelivered(c.heard) ==> NothingDelivered(Say(c, command, line).conn.heard)
    ensures Accepted(c.heard) ==> Accepted(Say(c, command, line).conn.heard)
  {
    var after := Say(c, command, line).conn.heard;
    assert c.heard <= after;
    assert forall i :: |c.heard| <= i < |after| ==> after[i].0 == command;
  }

  lemma DeliverHears(c: Conn, payload: Bytes)
    requires NothingDelivered(c.heard)
    ensures var delivered := Deliver(c, payload);
      if delivered.result.Ok? then Accepted(delivered.conn.heard)
      else forall i :: 0 <= i < |delivered.conn.heard| && delivered.conn.heard[i].0 == EndOfData ==>
             !Accepts(250, delivered.conn.heard[i].1)
  {
    SayHears(c, DataStart, Ascii("DATA"));
    var started := Say(c, DataStart, Ascii("DATA"));
    if started.result.Ok? {
      var wrote := WriteAll(started.conn, payload);
      if wrote.result.Ok? {
        var dotted := WriteAll(wrote.conn, [DOT] + CRLF);
        if dotted.result.Ok? {
          LastHeard(dotted.conn);
        }
      }
    }
  }

  lemma LastHeard(c: Conn)
    requires NothingDelivered(c.heard)
    ensures var e := Expect(c, EndOfData);
      if e.result.Ok? then Accepted(e.conn.heard)
      else forall i :: 0 <= i < |e.conn.heard| && e.conn.heard[i].0 == EndOfData ==> !Accepts(250, e.conn.heard[i].1)
  {
    var e, n := Expect(c, EndOfData), |c.heard|;
    if e.result.Ok? {
      assert e.conn.heard[n].0 == EndOfData && Accepts(250, e.conn.heard[n].1);
    }
  }

  lemma OpenHears(c: Conn, s: Settings)
    requires NothingDelivered(c.heard)
    ensures NothingDelivered(Open(c, s).conn.heard)
  {
    var greeted := Expect(c, Greeting);
    assert NothingDelivered(greeted.conn.heard);
    if greeted.result.Ok? {
      HelloHears(greeted.conn, HelloLine(s));
      GoSecureHears(Hello(greeted.conn, HelloLine(s)).conn);
    }
  }

  lemma HelloHears(c: Conn, line: Bytes)
    requires NothingDelivered(c.heard)
    ensures NothingDelivered(Hello(c, line).conn.heard)
  {
    SayHears(c, Ehlo, line);
  }

  lemma GoSecureHears(c: Conn)
    requires NothingDelivered(c.heard)
    ensures NothingDelivered(GoSecure(c).conn.heard)
  {
    SayHears(c, StartTls, Ascii("STARTTLS"));
    HelloHears(Upgrade(Say(c, StartTls, Ascii("STARTTLS")).conn).conn, Ascii("EHLO"));
  }

  lemma LoginHears(c: Conn, s: Settings)
    requires NothingDelivered(c.heard)
    ensures NothingDelivered(Login(c, s).conn.heard)
  {
    if s.credentials.Some? {
      SayHears(c, Auth, AuthLine(s.credentials.value));
      SayHears(Say(c, Auth, AuthLine(s.credentials.value)).conn, Auth, s.credentials.value);
    }
  }

  lemma MailHears(c: Conn, s: Settings, to: Bytes, payload: Bytes)
    requires NothingDelivered(c.heard)
    ensures Mail(c, s, to, payload).result.Ok? <==> Accepted(Mail(c, s, to, payload).conn.heard)
  {
    SayHears(c, MailFrom, MailLine(s));
    var mail := Say(c, MailFrom, MailLine(s));
    if mail.result.Ok? {
      SayHears(mail.conn, RcptTo, RcptLine(to));
      var rcpt := Say(mail.conn, RcptTo, RcptLine(to));
      if rcpt.result.Ok? {
        DeliverHears(rcpt.conn, payload);
        SayHears(Deliver(rcpt.conn, payload).conn, Quit, Ascii("QUIT"));
      }
    }
  }

  /** `send` reports success exactly when the relay accepted the end of the data: `QUIT` decides nothing. */
  lemma OkExactlyWhenAccepted(c: Conn, s: Settings, to: Bytes, payload: Bytes)
    requires NothingDelivered(c.heard)
    ensures Send(c, s, to, payload).result.Ok? <==> Accepted(Send(c, s, to, payload).conn.heard)
  {
    OpenHears(c, s);
    var begun := Open(c, s);
    if begun.result.Ok? {
      LoginHears(begun.conn, s);
      if Login(begun.conn, s).result.Ok? {
        MailHears(Login(begun.conn, s).conn, s, to, payload);
      }
    }
  }

  /** A session starts in the clear, with nothing said and nothing delivered: what the theorems here ask of it. */
  lemma FreshSession(socket: Wire, upgraded: Option<Wire>)
    requires !socket.tls
    ensures var c := Conn(Some(socket), upgraded, [], [], false, [], []);
      On(c, false) && NothingDelivered(c.heard) && Unread(c) == Content(socket.chunks)
  {
  }

  // ---------------------------------------------------------------------
  // A relay that is willing gets the message
  // ---------------------------------------------------------------------

  /** What a relay prints in answer to one command. */
  datatype Answer = Answer(code: nat, texts: seq<Bytes>)

  function Heard(a: Answer): Bytes {
    if 100 <= a.code <= 999 then Printed(a.code, a.texts) else []
  }

  /** An answer that lets this command go on. */
  ghost predicate Agrees(a: Answer, command: Command) {
    100 <= a.code <= 999 && Printable(a.texts) && Accepts(Wanted(command), a.code)
  }

  /** The wanted code and no text is such an answer. */
  lemma BareCodeAgrees(command: Command)
    ensures Agrees(Answer(Wanted(command), [[]]), command)
  {
  }

  function Unread(c: Conn): Bytes {
    All(Input(c.buffer, ChunksOf(c)))
  }

  /** The next `n` writes on this wire get out whole, up to this size. */
  ghost predicate Writes(c: Conn, n: nat, size: nat) {
    c.wire.Some? && |c.wire.value.writes| >= n &&
    forall i :: 0 <= i < n ==> c.wire.value.writes[i].ok && c.wire.value.writes[i].bytes >= size
  }

  /** The session is on its wire, with that left to read and that many writes that work. */
  ghost predicate Ready(c: Conn, tls: bool, unread: Bytes, n: nat, size: nat) {
    On(c, tls) && Unread(c) == unread && Writes(c, n, size)
  }

  lemma WriteGoesOn(c: Conn, bytes: Bytes, tls: bool, unread: Bytes, n: nat, size: nat)
    requires Ready(c, tls, unread, n + 1, size) && |bytes| <= size
    ensures var w := WriteAll(c, bytes);
      w.result.Ok? && Ready(w.conn, tls, unread, n, size) && w.conn.upgraded == c.upgraded
  {
  }

  lemma ExpectGoesOn(c: Conn, command: Command, tls: bool, a: Answer, rest: Bytes, n: nat, size: nat)
    requires Agrees(a, command) && Ready(c, tls, Heard(a) + rest, n, size)
    ensures var e := Expect(c, command);
      && e.result == Ok(Reply(a.code, Bounded(JoinLf(a.texts))))
      && Ready(e.conn, tls, rest, n, size) && e.conn.upgraded == c.upgraded
  {
    PrintedReadsBack(a.code, a.texts, rest, Input(c.buffer, ChunksOf(c)));
  }

  lemma SayGoesOn(c: Conn, command: Command, line: Bytes, tls: bool, a: Answer, rest: Bytes, n: nat, size: nat)
    requires Agrees(a, command) && Ready(c, tls, Heard(a) + rest, n + 1, size) && |line + CRLF| <= size
    ensures var said := Say(c, command, line);
      && said.result == Ok(Reply(a.code, Bounded(JoinLf(a.texts))))
      && Ready(said.conn, tls, rest, n, size) && said.conn.upgraded == c.upgraded
  {
    WriteGoesOn(c, line + CRLF, tls, Heard(a) + rest, n, size);
    ExpectGoesOn(WriteAll(c, line + CRLF).conn, command, tls, a, rest, n, size);
  }

  /** Answers to the four steps of a message; what is said to `QUIT` does not matter. */
  datatype MailAnswers = MailAnswers(sender: Answer, recipient: Answer, data: Answer, end: Answer)

  ghost predicate AgreesToMail(m: MailAnswers) {
    Agrees(m.sender, MailFrom) && Agrees(m.recipient, RcptTo) && Agrees(m.data, DataStart) && Agrees(m.end, EndOfData)
  }

  function MailHeard(m: MailAnswers, rest: Bytes): Bytes {
    Heard(m.sender) + (Heard(m.recipient) + (Heard(m.data) + (Heard(m.end) + rest)))
  }

  /** Everything there is to say fits one write. */
  ghost predicate FitsWrites(s: Settings, to: Bytes, payload: Bytes, size: nat) {
    && |HelloLine(s) + CRLF| <= size && |MailLine(s) + CRLF| <= size && |RcptLine(to) + CRLF| <= size
    && |payload| <= size && 20 <= size
    && (s.credentials.Some? ==> |AuthLine(s.credentials.value) + CRLF| <= size)
  }

  lemma MailGoesOn(c: Conn, s: Settings, to: Bytes, payload: Bytes, tls: bool, m: MailAnswers, rest: Bytes, size: nat)
    requires AgreesToMail(m) && Ready(c, tls, MailHeard(m, rest), 5, size) && FitsWrites(s, to, payload, size)
    ensures Mail(c, s, to, payload).result.Ok?
  {
    SayGoesOn(c, MailFrom, MailLine(s), tls, m.sender, Heard(m.recipient) + (Heard(m.data) + (Heard(m.end) + rest)),
              4, size);
    var from := Say(c, MailFrom, MailLine(s)).conn;
    SayGoesOn(from, RcptTo, RcptLine(to), tls, m.recipient, Heard(m.data) + (Heard(m.end) + rest), 3, size);
    DeliverGoesOn(Say(from, RcptTo, RcptLine(to)).conn, payload, tls, m, rest, size);
  }

  lemma DeliverGoesOn(c: Conn, payload: Bytes, tls: bool, m: MailAnswers, rest: Bytes, size: nat)
    requires AgreesToMail(m) && Ready(c, tls, Heard(m.data) + (Heard(m.end) + rest), 3, size)
    requires |payload| <= size && 20 <= size
    ensures Deliver(c, payload).result.Ok?
  {
    SayGoesOn(c, DataStart, Ascii("DATA"), tls, m.data, Heard(m.end) + rest, 2, size);
    var started := Say(c, DataStart, Ascii("DATA")).conn;
    WriteGoesOn(started, payload, tls, Heard(m.end) + rest, 1, size);
    var wrote := WriteAll(started, payload).conn;
    WriteGoesOn(wrote, [DOT] + CRLF, tls, Heard(m.end) + rest, 0, size);
    ExpectGoesOn(WriteAll(wrote, [DOT] + CRLF).conn, EndOfData, tls, m.end, rest, 0, size);
  }

  /** The greeting and `EHLO`, agreed to, with a reply short enough to be recorded whole. */
  lemma HelloGoesOn(c: Conn, line: Bytes, tls: bool, a: Answer, rest: Bytes, n: nat, size: nat)
    requires Agrees(a, Ehlo) && Ready(c, tls, Heard(a) + rest, n + 1, size) && |line + CRLF| <= size
    requires Chars(JoinLf(a.texts)) <= MAX_ERROR_CHARS
    ensures var hello := Hello(c, line);
      && hello.result.Ok? && Ready(hello.conn, tls, rest, n, size) && hello.conn.upgraded == c.upgraded
      && (Supports(hello.conn.capabilities, Ascii("STARTTLS")) <==> Offers(a.texts, "STARTTLS"))
  {
    SayGoesOn(c, Ehlo, line, tls, a, rest, n, size);
    EveryCapabilityIsRecorded(a.texts);
    SupportsExactlyWhen(a.texts);
  }

  /** Without a credential, a relay that offers no TLS and agrees to everything is sent the message. */
  lemma WillingRelayIsSentTheMessage(c: Conn, s: Settings, to: Bytes, payload: Bytes, greeting: Answer, hello: Answer,
                                     m: MailAnswers, rest: Bytes, size: nat)
    requires s.credentials.None? && FitsWrites(s, to, payload, size)
    requires Agrees(greeting, Greeting) && Agrees(hello, Ehlo) && AgreesToMail(m)
    requires Chars(JoinLf(hello.texts)) <= MAX_ERROR_CHARS && !Offers(hello.texts, "STARTTLS")
    requires Ready(c, false, Heard(greeting) + (Heard(hello) + MailHeard(m, rest)), 6, size)
    ensures Send(c, s, to, payload).result.Ok?
  {
    ExpectGoesOn(c, Greeting, false, greeting, Heard(hello) + MailHeard(m, rest), 6, size);
    var greeted := Expect(c, Greeting).conn;
    HelloGoesOn(greeted, HelloLine(s), false, hello, MailHeard(m, rest), 5, size);
    MailGoesOn(Hello(greeted, HelloLine(s)).conn, s, to, payload, false, m, rest, size);
  }

  lemma GoSecureGoesOn(c: Conn, agreed: Answer, wire: Wire, again: Answer, rest: Bytes, n: nat, size: nat)
    requires Ready(c, false, Heard(agreed), 1, size) && Agrees(agreed, StartTls) && 20 <= size
    requires c.upgraded == Some(wire) && wire.tls && Content(wire.chunks) == Heard(again) + rest
    requires Agrees(again, Ehlo) && Chars(JoinLf(again.texts)) <= MAX_ERROR_CHARS
    requires Writes(c.(wire := Some(wire)), n + 1, size)
    ensures GoSecure(c).result.Ok? && Ready(GoSecure(c).conn, true, rest, n, size)
  {
    assert Heard(agreed) + [] == Heard(agreed);
    SayGoesOn(c, StartTls, Ascii("STARTTLS"), false, agreed, [], 0, size);
    var said := Say(c, StartTls, Ascii("STARTTLS")).conn;
    assert said.buffer == [];
    var upgraded := Upgrade(said).conn;
    assert Unread(upgraded) == [] + Content(wire.chunks) == Content(wire.chunks);
    HelloGoesOn(upgraded, Ascii("EHLO"), true, again, rest, n, size);
  }

  /** What a relay says under TLS once `EHLO` is answered: about the credential, if there is one, and the message. */
  function SecretHeard(s: Settings, login: Answer, m: MailAnswers, rest: Bytes): Bytes {
    if s.credentials.Some? then Heard(login) + MailHeard(m, rest) else MailHeard(m, rest)
  }

  lemma SecretsGoOn(c: Conn, s: Settings, to: Bytes, payload: Bytes, login: Answer, m: MailAnswers, rest: Bytes,
                    size: nat)
    requires FitsWrites(s, to, payload, size) && Agrees(login, Auth) && AgreesToMail(m)
    requires Ready(c, true, SecretHeard(s, login, m, rest), 6, size)
    ensures Login(c, s).result.Ok? && Mail(Login(c, s).conn, s, to, payload).result.Ok?
  {
    if s.credentials.Some? {
      SayGoesOn(c, Auth, AuthLine(s.credentials.value), true, login, MailHeard(m, rest), 5, size);
    }
    MailGoesOn(Login(c, s).conn, s, to, payload, true, m, rest, size);
  }

  /** The relay's side up to the handshake and the `EHLO` after it. */
  datatype OpenAnswers = OpenAnswers(greeting: Answer, hello: Answer, agreed: Answer, wire: Wire, again: Answer)

  ghost predicate AgreesToOpen(o: OpenAnswers) {
    && Agrees(o.greeting, Greeting) && Agrees(o.hello, Ehlo) && Agrees(o.agreed, StartTls) && Agrees(o.again, Ehlo)
    && Chars(JoinLf(o.hello.texts)) <= MAX_ERROR_CHARS && Offers(o.hello.texts, "STARTTLS")
    && Chars(JoinLf(o.again.texts)) <= MAX_ERROR_CHARS && o.wire.tls
  }

  lemma OpenGoesOn(c: Conn, s: Settings, o: OpenAnswers, rest: Bytes, n: nat, size: nat)
    requires AgreesToOpen(o) && |HelloLine(s) + CRLF| <= size && 20 <= size
    requires Ready(c, false, Heard(o.greeting) + (Heard(o.hello) + Heard(o.agreed)), 2, size)
    requires c.upgraded == Some(o.wire) && Writes(c.(wire := Some(o.wire)), n + 1, size)
    requires Content(o.wire.chunks) == Heard(o.again) + rest
    ensures Open(c, s).result.Ok? && Ready(Open(c, s).conn, true, rest, n, size)
  {
    ExpectGoesOn(c, Greeting, false, o.greeting, Heard(o.hello) + Heard(o.agreed), 2, size);
    var greeted := Expect(c, Greeting).conn;
    HelloGoesOn(greeted, HelloLine(s), false, o.hello, Heard(o.agreed), 1, size);
    GoSecureGoesOn(Hello(greeted, HelloLine(s)).conn, o.agreed, o.wire, o.again, rest, n, size);
  }

  /**
   * A relay that offers TLS, can do it, says nothing between agreeing to it and the handshake, and
   * agrees to everything is sent the message, after the credential if there is one.
   */
  lemma SecureRelayIsSentTheMessage(c: Conn, s: Settings, to: Bytes, payload: Bytes, o: OpenAnswers, login: Answer,
                                    m: MailAnswers, rest: Bytes, size: nat)
    requires FitsWrites(s, to, payload, size) && AgreesToOpen(o) && Agrees(login, Auth) && AgreesToMail(m)
    requires Ready(c, false, Heard(o.greeting) + (Heard(o.hello) + Heard(o.agreed)), 2, size)
    requires c.upgraded == Some(o.wire) && Writes(c.(wire := Some(o.wire)), 7, size)
    requires Content(o.wire.chunks) == Heard(o.again) + SecretHeard(s, login, m, rest)
    ensures Send(c, s, to, payload).result.Ok?
  {
    OpenGoesOn(c, s, o, SecretHeard(s, login, m, rest), 6, size);
    SecretsGoOn(Open(c, s).conn, s, to, payload, login, m, rest, size);
  }

  /** Why a reply cannot be read, when no byte of it has come: the socket failed, closed, or was lost before. */
  lemma UnreadableReply(c: Conn, command: Command)
    requires c.buffer == [] && Unread(c) == []
    ensures Expect(c, command).result == Err(
      if c.wire.None? then LostConnection
      else if c.wire.value.chunks != [] && c.wire.value.chunks[0].Fails? then Io
      else BadReply(Closed))
  {
  }
}
