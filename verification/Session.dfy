/** The SMTP client itself (`src/billing/email.rs`): its buffer, its wire, and the order it does things in. */
module Session {
  import opened Prelude
  import opened MailMessage
  import opened Replies
  import C = Conversation

  class Session {
    var wire: Option<C.Wire>
    var upgraded: Option<C.Wire>
    var buffer: Bytes
    var consumed: nat
    var capabilities: seq<Bytes>
    var encrypted: bool
    var sent: seq<C.Sent>
    var heard: seq<(C.Command, nat)>

    /** A fresh connection; `upgraded` is what a TLS handshake on it would give, if it can succeed. */
    constructor (socket: C.Wire, upgraded: Option<C.Wire>)
      requires ChunksFit(socket.chunks) && (upgraded.Some? ==> ChunksFit(upgraded.value.chunks))
      ensures Valid() && Contents() == C.Conn(Some(socket), upgraded, [], [], false, [], [])
    {
      this.wire, this.upgraded := Some(socket), upgraded;
      buffer, consumed, capabilities, encrypted, sent, heard := [], 0, [], false, [], [];
    }

    /** The buffer holds at most one chunk over its bound. */
    ghost predicate Valid()
      reads this
    {
      && consumed <= |buffer| <= MAX_REPLY_BYTES + CHUNK
      && ChunksFit(Chunks()) && (upgraded.Some? ==> ChunksFit(upgraded.value.chunks))
    }

    function Chunks(): seq<Event>
      reads this
    {
      if wire.Some? then wire.value.chunks else []
    }

    ghost function Unread(): Input
      requires consumed <= |buffer|
      reads this
    {
      Input(buffer[consumed..], Chunks())
    }

    ghost function Contents(): C.Conn
      requires consumed <= |buffer|
      reads this
    {
      C.Conn(wire, upgraded, buffer[consumed..], capabilities, encrypted, sent, heard)
    }

    /** The wire with only its incoming chunks used up. */
    twostate predicate OnlyReads()
      reads this
    {
      if old(wire).None? then wire.None? else wire == Some(old(wire).value.(chunks := Chunks()))
    }

    /** Drops what has been consumed and reads more, or says why it cannot. */
    method Fill() returns (e: Option<ReadError>)
      requires Valid() && FirstLf(Unread().buffer).None?
      modifies this`wire, this`buffer, this`consumed
      ensures Valid() && OnlyReads()
      ensures NextLine(old(Unread())) == if e.Some? then (Err(e.value), Unread()) else NextLine(Unread())
      ensures e.None? ==> |Chunks()| < |old(Chunks())|
    {
      buffer := buffer[consumed..];
      consumed := 0;
      assert buffer[0..] == buffer;
      if |buffer| > MAX_REPLY_BYTES {
        return Some(LineTooLong);
      }
      if wire.None? || wire.value.chunks == [] {
        return Some(Closed);
      }
      var read := wire.value.chunks[0];
      wire := Some(wire.value.(chunks := wire.value.chunks[1..]));
      if read.Fails? {
        return Some(Broken);
      }
      if read.bytes == [] {
        return Some(Closed);
      }
      buffer := buffer + read.bytes;
      assert buffer[0..] == buffer;
      return None;
    }

    /** Takes a line that is buffered whole. */
    method TakeBuffered(offset: nat) returns (line: Bytes)
      requires Valid() && FirstLf(Unread().buffer) == Some(offset)
      modifies this`consumed
      ensures Valid() && (Ok(line), Unread()) == NextLine(old(Unread()))
    {
      var end := consumed + offset + 1;
      line := buffer[consumed..end];
      assert line == buffer[consumed..][..offset + 1];
      assert buffer[end..] == buffer[consumed..][offset + 1..];
      consumed := end;
    }

    /** Reads one line, waiting for more bytes when the buffer runs out. It always returns. */
    method ReadLine() returns (r: Result<Bytes, ReadError>)
      requires Valid()
      modifies this`wire, this`buffer, this`consumed
      ensures Valid() && OnlyReads() && (r, Unread()) == NextLine(old(Unread()))
    {
      while true
        invariant Valid() && OnlyReads() && NextLine(Unread()) == NextLine(old(Unread()))
        decreases |Chunks()|
      {
        var offset := FirstLf(buffer[consumed..]);
        if offset.Some? {
          var line := TakeBuffered(offset.value);
          return Ok(line);
        }
        var e := Fill();
        if e.Some? {
          return Err(e.value);
        }
      }
    }

    /** Reads lines until one of them ends a reply, or makes it no reply. */
    method ReadLines() returns (r: Result<Reply, ReadError>)
      requires Valid()
      modifies this`wire, this`buffer, this`consumed
      ensures Valid() && OnlyReads() && (r, Unread()) == NextReply([], [], old(Unread()))
    {
      var code: Bytes, text: Bytes := [], [];
      while true
        invariant Valid() && OnlyReads()
        invariant NextReply(code, text, Unread()) == NextReply([], [], old(Unread()))
        decreases |All(Unread())|
      {
        ghost var before := Unread();
        var line := ReadLine();
        if line.Err? {
          return Err(line.error);
        }
        LineConsumes(before);
        match TakeLine(code, text, line.value) {
          case Bad(e) => return Err(e);
          case Done(reply) => return Ok(reply);
          case More(c, t) => code, text := c, t;
        }
      }
    }

    /** Reads one reply, following its continuation lines to the end. */
    method ReadReply() returns (r: Result<Reply, C.SendError>)
      requires Valid()
      modifies this`wire, this`buffer, this`consumed
      ensures Valid() && C.Step(Contents(), r) == C.ReadReply(old(Contents()))
    {
      var reply := ReadLines();
      if reply.Ok? {
        return Ok(reply.value);
      }
      return Err(if reply.error == Broken then C.Io
                 else if reply.error == Closed && wire.None? then C.LostConnection
                 else C.BadReply(reply.error));
    }

    method WriteAll(bytes: Bytes) returns (r: Result<(), C.SendError>)
      requires Valid()
      modifies this
      ensures Valid() && C.Step(Contents(), r) == C.WriteAll(old(Contents()), bytes)
    {
      if wire.None? {
        return Err(C.LostConnection);
      }
      var w := wire.value;
      if w.writes == [] {
        return Err(C.Io);
      }
      var n := Min(w.writes[0].bytes, |bytes|);
      sent := sent + C.Labelled(w.tls, bytes[..n]);
      wire := Some(w.(writes := w.writes[1..]));
      if !w.writes[0].ok || n < |bytes| {
        return Err(C.Io);
      }
      return Ok(());
    }

    method Expect(command: C.Command) returns (r: Result<Reply, C.SendError>)
      requires Valid()
      modifies this
      ensures Valid() && C.Step(Contents(), r) == C.Expect(old(Contents()), command)
    {
      r := ReadReply();
      if r.Ok? {
        var reply := r.value;
        heard := heard + [(command, reply.code)];
        if !C.Accepts(C.Wanted(command), reply.code) {
          r := Err(C.Refused(command, reply.code, reply.text));
        }
      }
    }

    method Say(command: C.Command, line: Bytes) returns (r: Result<Reply, C.SendError>)
      requires Valid()
      modifies this
      ensures Valid() && C.Step(Contents(), r) == C.Say(old(Contents()), command, line)
    {
      var wrote := WriteAll(line + CRLF);
      if wrote.Err? {
        return Err(wrote.error);
      }
      r := Expect(command);
    }

    method Hello(line: Bytes) returns (r: Result<(), C.SendError>)
      requires Valid()
      modifies this
      ensures Valid() && C.Step(Contents(), r) == C.Hello(old(Contents()), line)
    {
      var reply := Say(C.Ehlo, line);
      if reply.Err? {
        return Err(reply.error);
      }
      capabilities := Capabilities(reply.value.text);
      return Ok(());
    }

    /** Takes the wire for the handshake, once nothing the relay sent in the clear is left unread. */
    method Upgrade() returns (r: Result<(), C.SendError>)
      requires Valid()
      modifies this
      ensures Valid() && C.Step(Contents(), r) == C.Upgrade(old(Contents()))
    {
      if |buffer| != consumed {
        return Err(C.DataBeforeHandshake);
      }
      buffer, consumed := [], 0;
      if wire.None? {
        return Err(C.LostConnection);
      }
      wire := None;
      if upgraded.None? {
        return Err(C.NoUpgrade);
      }
      wire, upgraded, encrypted, capabilities := upgraded, None, true, [];
      return Ok(());
    }

    method GoSecure() returns (r: Result<(), C.SendError>)
      requires Valid()
      modifies this
      ensures Valid() && C.Step(Contents(), r) == C.GoSecure(old(Contents()))
    {
      var agreed := Say(C.StartTls, Ascii("STARTTLS"));
      if agreed.Err? {
        return Err(agreed.error);
      }
      r := Upgrade();
      if r.Ok? {
        r := Hello(Ascii("EHLO"));
      }
    }

    method Authenticate(encoded: Bytes) returns (r: Result<Reply, C.SendError>)
      requires Valid()
      modifies this
      ensures Valid() && C.Step(Contents(), r) == C.Authenticate(old(Contents()), encoded)
    {
      r := Say(C.Auth, C.AuthLine(encoded));
      if r.Err? && r.error.Refused? && r.error.code == 334 {
        r := Say(C.Auth, encoded);
      }
    }

    method Deliver(m: Message, date: Bytes) returns (r: Result<Reply, C.SendError>)
      requires Valid()
      modifies this
      ensures Valid()
      ensures C.Step(Contents(), r) == C.Deliver(old(Contents()), StuffFrom(Join(WireLines(m, date)), true))
    {
      r := Say(C.DataStart, Ascii("DATA"));
      if r.Err? {
        return;
      }
      var wireBytes := WireBytes(m, date);
      var payload := Stuffed(wireBytes);
      var wrote := WriteAll(payload);
      if wrote.Err? {
        return Err(wrote.error);
      }
      wrote := WriteAll([DOT] + CRLF);
      if wrote.Err? {
        return Err(wrote.error);
      }
      r := Expect(C.EndOfData);
    }

    method Mail(s: C.Settings, m: Message, date: Bytes) returns (r: Result<(), C.SendError>)
      requires Valid()
      modifies this
      ensures Valid()
      ensures C.Step(Contents(), r) == C.Mail(old(Contents()), s, m.to, StuffFrom(Join(WireLines(m, date)), true))
    {
      var mail := Say(C.MailFrom, C.MailLine(s));
      if mail.Err? {
        return Err(mail.error);
      }
      var rcpt := Say(C.RcptTo, C.RcptLine(m.to));
      if rcpt.Err? {
        return Err(rcpt.error);
      }
      var delivered := Deliver(m, date);
      if delivered.Err? {
        return Err(delivered.error);
      }
      var quit := Say(C.Quit, Ascii("QUIT"));
      return Ok(());
    }

    method Open(s: C.Settings) returns (r: Result<(), C.SendError>)
      requires Valid()
      modifies this
      ensures Valid() && C.Step(Contents(), r) == C.Open(old(Contents()), s)
    {
      var greeting := Expect(C.Greeting);
      if greeting.Err? {
        return Err(greeting.error);
      }
      r := Hello(C.HelloLine(s));
      if r.Ok? && C.Supports(capabilities, Ascii("STARTTLS")) {
        r := GoSecure();
      }
    }

    method Login(s: C.Settings) returns (r: Result<(), C.SendError>)
      requires Valid()
      modifies this
      ensures Valid() && C.Step(Contents(), r) == C.Login(old(Contents()), s)
    {
      if s.credentials.None? {
        return Ok(());
      }
      if !encrypted {
        return Err(C.CredentialsWithoutTls);
      }
      var auth := Authenticate(s.credentials.value);
      return if auth.Err? then Err(auth.error) else Ok(());
    }

    /** The whole of `send`, once connected. */
    method Send(s: C.Settings, m: Message, date: Bytes) returns (r: Result<(), C.SendError>)
      requires Valid()
      modifies this
      ensures Valid()
      ensures C.Step(Contents(), r) == C.Send(old(Contents()), s, m.to, StuffFrom(Join(WireLines(m, date)), true))
    {
      r := Open(s);
      if r.Err? {
        return;
      }
      r := Login(s);
      if r.Err? {
        return;
      }
      r := Mail(s, m, date);
    }
  }
}
