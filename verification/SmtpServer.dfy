/** smtp.c: the command loop over the buffers and the two connections, against the turns of SmtpSession. */
module SmtpServer {
  import opened Views
  import opened Base64
  import opened BufferedIO
  import opened SmtpSession
  import Relay

  class Server {
    const cfg: Config
    const bio: BufIO
    const plain: Transport
    /** What the TLS layer gives and takes on the same socket. */
    const secure: Transport
    var phase: Phase
    var tlsActive: bool
    var authenticated: bool
    var mailFrom: string
    var rcptTo: string
    var ehloHost: string

    /** All bytes either connection will ever give, and whether the peer takes everything written. */
    ghost const plainStream: string
    ghost const secureStream: string
    ghost const healthy: bool

    /** A client on `plain` that may go on over `secure`; the greeting is out. */
    constructor (cfg: Config, plain: Transport, secure: Transport, capacity: nat, writeCapacity: nat)
      requires capacity >= 10 && writeCapacity >= 1 && plain != secure && plain.sent == "" && secure.sent == ""
      modifies plain`acks, plain`sent
      ensures Ready() && Untouched() && At(Begin(cfg))
      ensures this.cfg == cfg && this.plain == plain && this.secure == secure
      ensures fresh(bio) && fresh(bio.rbuf) && fresh(bio.wbuf)
      ensures plainStream == old(plain.Supply()) && secureStream == old(secure.Supply())
      ensures healthy <==> old(Healthy(plain.acks) && Healthy(secure.acks))
    {
      this.cfg, this.plain, this.secure := cfg, plain, secure;
      bio := new BufIO(plain, capacity, writeCapacity);
      phase, tlsActive, authenticated, mailFrom, rcptTo, ehloHost := Connected, false, false, "", "", "";
      plainStream, secureStream := plain.Supply(), secure.Supply();
      healthy := Healthy(plain.acks) && Healthy(secure.acks);
      new;
      hide Healthy;
      var _ := bio.SendLine("220 " + cfg.hostname + " ESMTP ready");
    }

    ghost function State(): Session
      reads this
    {
      Session(phase, tlsActive, authenticated, mailFrom, rcptTo, ehloHost)
    }

    /** Between lines: the right transport is in place and nothing waits to be sent. */
    ghost predicate Ready()
      reads this, bio, plain`acks, secure`acks
    {
      && bio.Valid() && bio.rbuf.Length >= 10
      && plain != secure
      && bio.transport == (if tlsActive then secure else plain)
      && (healthy ==> Healthy(plain.acks) && Healthy(secure.acks) && bio.written == 0)
    }

    /** The secure connection has not been touched. */
    ghost predicate Untouched()
      reads this, secure`input, secure`sent
    {
      !tlsActive ==> secure.Supply() == secureStream && secure.sent == ""
    }

    /** The session is where the run r is: same state, the bytes heard, the bytes said. */
    ghost predicate At(r: Run)
      reads this, bio, bio.rbuf, bio.transport`input, bio.transport`sent
      requires bio.Valid()
    {
      && State() == r.session
      && r.heard + bio.Pending() == (if tlsActive then secureStream else plainStream)
      && (healthy ==> bio.transport.sent == r.said)
    }

    /** The fields are those after response a, and its lines were sent after o or, with TLS now up, all starts anew. */
    ghost predicate Answered(a: Response, o: string)
      reads this, bio, bio.rbuf, bio.transport`input, bio.transport`sent
      requires bio.Valid()
    {
      && State() == a.session
      && (healthy && a.effect != TlsUp ==> bio.transport.sent == o + Wire(cfg, a.lines))
      && (a.effect == TlsUp ==> bio.Pending() == secureStream && bio.transport.sent == "")
    }

    /** The session goes on and nothing but answering was done. */
    ghost predicate Quiet(a: Response) {
      !a.over && a.effect == Nothing
    }

    method Answer(reply: Reply)
      requires Ready()
      modifies bio`written, bio.wbuf, bio.transport`acks, bio.transport`sent
      ensures Ready() && (healthy ==> bio.transport.sent == old(bio.transport.sent) + Text(cfg, reply) + CRLF)
      ensures bio.Pending() == old(bio.Pending())
    {
      hide Text, Healthy;
      var _ := bio.SendLine(Text(cfg, reply));
    }

    /** bufio_write_line of a reply, not sent yet. */
    method Put(reply: Reply)
      requires bio.Valid()
      modifies bio`written, bio.wbuf, bio.transport`acks, bio.transport`sent
      ensures bio.Valid() && bio.Pending() == old(bio.Pending())
      ensures old(Healthy(bio.transport.acks)) ==>
                Healthy(bio.transport.acks) && bio.Output() == old(bio.Output()) + Text(cfg, reply) + CRLF
    {
      hide Text, Healthy;
      bio.WriteLine(Text(cfg, reply));
    }

    method HandleEhlo(rest: string)
      requires Ready()
      modifies this`phase, this`ehloHost, bio`written, bio.wbuf, bio.transport`acks, bio.transport`sent
      ensures Ready() && Answered(Ehlo(old(State()), rest), old(bio.transport.sent))
      ensures bio.Pending() == old(bio.Pending()) && Quiet(Ehlo(old(State()), rest))
    {
      hide Text, Healthy, Wire;
      phase, ehloHost := Greeted, rest;
      AnswerAll(Greets(true, rest), Size, EightBit, if tlsActive then OfferAuth else OfferTls);
    }

    /** Four lines in the write buffer, then one flush. */
    method AnswerAll(a: Reply, b: Reply, c: Reply, d: Reply)
      requires Ready()
      modifies bio`written, bio.wbuf, bio.transport`acks, bio.transport`sent
      ensures Ready() && bio.Pending() == old(bio.Pending())
      ensures healthy ==> bio.transport.sent == old(bio.transport.sent) + Wire(cfg, [a, b, c, d])
    {
      hide Text, Healthy, Wire;
      ghost var o := bio.transport.sent;
      assert healthy ==> bio.Output() == o;
      Put(a);
      Put(b);
      Put(c);
      Put(d);
      var _ := bio.Flush();
      FourLines(cfg, o, a, b, c, d);
    }

    method HandleHelo(rest: string)
      requires Ready()
      modifies this`phase, this`ehloHost, bio`written, bio.wbuf, bio.transport`acks, bio.transport`sent
      ensures Ready()
      ensures Answered(Response(old(State()).(phase := Greeted, ehloHost := rest),
                                [Greets(false, rest)], Nothing, false), old(bio.transport.sent))
      ensures bio.Pending() == old(bio.Pending())
    {
      hide Text, Healthy, Wire;
      ghost var o := bio.transport.sent;
      phase, ehloHost := Greeted, rest;
      Answer(Greets(false, rest));
      OneLine(cfg, o, Greets(false, rest));
    }

    /** What was read ahead in the clear is dropped before the transport is swapped. */
    method HandleStartTls(handshake: bool) returns (over: bool, effect: Effect)
      requires Ready() && Untouched()
      modifies this`phase, this`tlsActive, this`authenticated, this`mailFrom, this`rcptTo, this`ehloHost
      modifies bio, bio.wbuf, bio.transport`acks, bio.transport`sent
      ensures Ready() && Untouched()
      ensures var a := StartTls(old(State()), handshake);
              Answered(a, old(bio.transport.sent)) && over == a.over && effect == a.effect
      ensures effect == TlsUp && healthy ==> plain.sent == old(plain.sent) + Wire(cfg, [ReadyForTls])
      ensures !over && effect != TlsUp ==> bio.Pending() == old(bio.Pending())
    {
      hide Text, Healthy, Wire;
      ghost var o := bio.transport.sent;
      OneLine(cfg, o, TlsActive);
      OneLine(cfg, o, ReadyForTls);
      if tlsActive {
        Answer(TlsActive);
        return false, Nothing;
      }
      Answer(ReadyForTls);
      bio.ResetRead();
      if !handshake {
        return true, Nothing;
      }
      Upgrade();
      over, effect := false, TlsUp;
    }

    method Upgrade()
      requires Ready() && Untouched() && !tlsActive && bio.consumed == bio.filled == 0
      modifies this`phase, this`tlsActive, this`authenticated, this`mailFrom, this`rcptTo, this`ehloHost, bio`transport
      ensures Ready() && Untouched() && State() == START.(tls := true)
      ensures bio.Pending() == secureStream
    {
      hide Healthy;
      bio.transport := secure;
      tlsActive := true;
      phase, mailFrom, rcptTo, ehloHost, authenticated := Connected, "", "", "", false;
    }

    method HandleMail(rest: string)
      requires Ready()
      modifies this`phase, this`mailFrom, bio`written, bio.wbuf, bio.transport`acks, bio.transport`sent
      ensures Ready() && Answered(Mail(old(State()), rest), old(bio.transport.sent))
      ensures bio.Pending() == old(bio.Pending()) && Quiet(Mail(old(State()), rest))
    {
      hide Text, Healthy, Wire;
      ghost var o := bio.transport.sent;
      var _, after := SvSplitDelim(rest, '<');
      var address, _ := SvSplitDelim(after, '>');
      mailFrom := address;
      phase := MailFrom;
      Answer(Fine);
      OneLine(cfg, o, Fine);
    }

    method Local(address: string) returns (local: bool, domain: string)
      ensures local == IsLocal(cfg, address) && domain == Domain(address)
    {
      var _, d := SvSplitDelim(address, '@');
      domain := d;
      local := EqualIgnoreCase(domain, cfg.localDomain) || EqualIgnoreCase(domain, "localhost");
    }

    method HandleRcpt(rest: string)
      requires Ready()
      modifies this`phase, this`rcptTo, bio`written, bio.wbuf, bio.transport`acks, bio.transport`sent
      ensures Ready() && Answered(Rcpt(cfg, old(State()), rest), old(bio.transport.sent))
      ensures bio.Pending() == old(bio.Pending()) && Quiet(Rcpt(cfg, old(State()), rest))
    {
      hide Text, Healthy, Wire, IsLocal, Domain;
      ghost var o := bio.transport.sent;
      OneLine(cfg, o, Denied);
      OneLine(cfg, o, Fine);
      var _, after := SvSplitDelim(rest, '<');
      var address, _ := SvSplitDelim(after, '>');
      var local, _ := Local(address);
      if !local && !authenticated {
        Answer(Denied);
        return;
      }
      rcptTo := address;
      phase := RcptTo;
      Answer(Fine);
    }

    /** What a turn read after its command line: a record with this end, and nothing else is gone. */
    ghost predicate Took(extra: Option<string>, term: Option<string>, p: string)
      reads this, bio, bio.rbuf, bio.transport`input
      requires bio.Valid()
    {
      match extra
      case None => term == None && bio.Pending() == p
      case Some(text) => term.Some? && Record(text, term.value) && p == text + bio.Pending()
    }

    method HandleAuth(rest: string) returns (extra: Option<string>, over: bool, effect: Effect)
      requires Ready()
      modifies this`authenticated, bio`consumed, bio`filled, bio.rbuf, bio.transport`input
      modifies bio`written, bio.wbuf, bio.transport`acks, bio.transport`sent
      ensures Ready()
      ensures var a := Auth(cfg, old(State()), rest, extra);
              Answered(a, old(bio.transport.sent)) && over == a.over && effect == a.effect
      ensures var prompts := tlsActive && AuthArgs(rest) == (true, "");
              && (!over ==> Took(extra, if prompts then Some(CRLF) else None, old(bio.Pending())))
              && (over ==> extra == None && prompts && NoShortLine(old(bio.Pending())))
      ensures effect != TlsUp
    {
      hide Text, Healthy, Wire, AuthArgs, LogIn;
      ghost var o := bio.transport.sent;
      NoLines(cfg, o);
      extra, over, effect := None, false, Nothing;
      if !tlsActive {
        Answer(TlsFirst);
        OneLine(cfg, o, TlsFirst);
        return;
      }
      var isPlain, b64 := Mechanism(rest);
      if !isPlain {
        Answer(BadMechanism);
        OneLine(cfg, o, BadMechanism);
        return;
      }
      ghost var prompt := [];
      if b64 == "" {
        Answer(Prompt);
        OneLine(cfg, o, Prompt);
        prompt := [Prompt];
        extra := ReadLine();
        if extra.None? {
          over := true;
          return;
        }
        b64 := SvTrim(extra.value);
      }
      effect := Login(b64, prompt, o);
    }

    method Mechanism(rest: string) returns (isPlain: bool, initial: string)
      ensures (isPlain, initial) == AuthArgs(rest)
    {
      var mech, arg := SvSplitDelim(rest, ' ');
      mech := SvTrim(mech);
      initial := SvTrim(arg);
      isPlain := EqualIgnoreCase(mech, "PLAIN");
    }

    method Login(b64: string, ghost prompt: seq<Reply>, ghost o: string) returns (effect: Effect)
      requires Ready() && (healthy ==> bio.transport.sent == o + Wire(cfg, prompt))
      modifies this`authenticated, bio`written, bio.wbuf, bio.transport`acks, bio.transport`sent
      ensures Ready()
      ensures var a := LogIn(cfg, old(State()), b64, prompt); Answered(a, o) && effect == a.effect != TlsUp && !a.over
    {
      hide Text, Healthy, Wire, Credentials, Decode;
      var decoded := Base64Decode(b64);
      var authcid, passwd := SplitCredentials(decoded);
      if cfg.user != [] && cfg.password != [] && authcid == cfg.user && passwd == cfg.password {
        authenticated := true;
        Answer(AuthOk);
        NextLine(cfg, o, prompt, AuthOk);
        effect := LoggedIn;
      } else {
        Answer(AuthBad);
        NextLine(cfg, o, prompt, AuthBad);
        effect := Nothing;
      }
    }

    /** The effect is the call into the mailbox or the delivery, `success` how it went. */
    method HandleData(success: bool) returns (extra: Option<string>, over: bool, effect: Effect)
      requires Ready()
      modifies this`phase, bio`consumed, bio`filled, bio.rbuf, bio.transport`input
      modifies bio`written, bio.wbuf, bio.transport`acks, bio.transport`sent
      ensures Ready()
      ensures var a := SmtpSession.Data(cfg, old(State()), extra, success);
              Answered(a, old(bio.transport.sent)) && over == a.over && effect == a.effect
      ensures if over then extra == None && RecordEnd(old(bio.Pending()), Relay.DOT_LINE).None?
              else Took(extra, Some(Relay.DOT_LINE), old(bio.Pending()))
      ensures effect != TlsUp
    {
      hide Text, Healthy, Wire, SmtpSession.Data, Dispatch;
      DataParts(cfg, State(), success);
      ghost var o := bio.transport.sent;
      phase := InData;
      Answer(GoAhead);
      OneLine(cfg, o, GoAhead);
      extra := ReadBody();
      if extra.None? {
        return None, true, Nothing;
      }
      over := false;
      effect := Finish(extra.value[..|extra.value| - |Relay.DOT_LINE|], success, o);
    }

    method ReadLine() returns (line: Option<string>)
      requires Ready()
      modifies bio`consumed, bio`filled, bio.rbuf, bio.transport`input
      ensures Ready() && (line.Some? ==> Took(line, Some(CRLF), old(bio.Pending())))
      ensures line.None? ==> bio.Pending() == old(bio.Pending()) && NoShortLine(bio.Pending())
      ensures line.Some? ==> line.value != ""
    {
      hide Healthy;
      ghost var p := bio.Pending();
      var r := bio.ReadUntil(CRLF);
      if r.Err? {
        return None;
      }
      FrontIsRecord(r.value, p, CRLF);
      line := Some(r.value);
    }

    /** The length of a line that is always accepted. */
    ghost function Sure(): nat {
      bio.rbuf.Length - bio.rbuf.Length / 2
    }

    ghost predicate NoShortLine(p: string) {
      NoLineWithin(p, Sure())
    }

    /** A turn that ended the session read nothing more because there was nothing it could read. */
    ghost predicate Ended(term: Option<string>, p: string) {
      term.Some? ==> Missing(p, term.value, Sure())
    }

    method ReadBody() returns (body: Option<string>)
      requires Ready()
      modifies bio`consumed, bio`filled, bio.rbuf, bio.transport`input
      ensures Ready()
      ensures if body.Some? then Took(body, Some(Relay.DOT_LINE), old(bio.Pending()))
              else RecordEnd(old(bio.Pending()), Relay.DOT_LINE).None?
      ensures body.Some? ==> |body.value| >= |Relay.DOT_LINE|
    {
      hide Healthy;
      ghost var p := bio.Pending();
      var sb := new StringBuilder();
      var err := bio.ReadUntilInto(Relay.DOT_LINE, sb);
      if err.Some? {
        return None;
      }
      assert sb.contents[|""|..] == sb.contents;
      FrontIsRecord(sb.contents, p, Relay.DOT_LINE);
      body := Some(sb.contents);
    }

    method Finish(body: string, success: bool, ghost o: string) returns (effect: Effect)
      requires Ready() && (healthy ==> bio.transport.sent == o + Wire(cfg, [GoAhead]))
      modifies bio`written, bio.wbuf, bio.transport`acks, bio.transport`sent
      ensures Ready()
      ensures var (e, line) := Dispatch(cfg, State(), body, success);
              effect == e && (healthy ==> bio.transport.sent == o + Wire(cfg, [GoAhead, line]))
    {
      hide Text, Healthy, Wire, IsLocal, Domain;
      var reply;
      var local, domain := Local(rcptTo);
      if local {
        var senderHost := if ehloHost != "" then ehloHost else "localhost";
        effect := Stored(senderHost, rcptTo, body, success);
        reply := if success then Queued else StoreFailed;
      } else if domain == "" {
        effect := NoDomain(rcptTo);
        reply := DeliveryFailed;
      } else {
        effect := Relayed(mailFrom, rcptTo, body, success);
        reply := if success then Delivered else DeliveryFailed;
      }
      Answer(reply);
      NextLine(cfg, o, [GoAhead], reply);
      assert [GoAhead] + [reply] == [GoAhead, reply];
    }

    method HandleQuit()
      requires Ready()
      modifies this`phase, bio`written, bio.wbuf, bio.transport`acks, bio.transport`sent
      ensures Ready() && Answered(Response(old(State()).(phase := Quit), [Bye], Nothing, true), old(bio.transport.sent))
    {
      hide Text, Healthy, Wire;
      ghost var o := bio.transport.sent;
      phase := Quit;
      Answer(Bye);
      OneLine(cfg, o, Bye);
    }

    method HandleOther()
      requires Ready()
      modifies bio`written, bio.wbuf, bio.transport`acks, bio.transport`sent
      ensures Ready() && Answered(Say(State(), NotImplemented), old(bio.transport.sent))
      ensures bio.Pending() == old(bio.Pending())
    {
      hide Text, Healthy, Wire;
      ghost var o := bio.transport.sent;
      Answer(NotImplemented);
      OneLine(cfg, o, NotImplemented);
    }

    method Words(line: string) returns (cmd: string, rest: string)
      ensures Parse(line) == (VerbOf(cmd), rest)
    {
      hide VerbOf;
      var trimmed := SvTrim(line);
      cmd, rest := SvSplitDelim(trimmed, ' ');
      cmd := SvTrim(cmd);
      rest := SvTrim(rest);
    }

    /** One pass of the loop after the line was read. */
    method Handle(line: string, success: bool) returns (extra: Option<string>, over: bool, effect: Effect)
      requires Ready() && Untouched()
      modifies this, bio, bio.rbuf, bio.wbuf, bio.transport
      ensures Ready() && Untouched()
      ensures var a := Respond(cfg, old(State()), Turn(line, extra, success));
              Answered(a, old(bio.transport.sent)) && over == a.over && effect == a.effect
      ensures !over && effect != TlsUp ==> Took(extra, Wants(old(State()), line), old(bio.Pending()))
      ensures over || effect == TlsUp ==> extra == None
      ensures over ==> Ended(Wants(old(State()), line), old(bio.Pending()))
      ensures effect == TlsUp ==> Wants(old(State()), line) == None
    {
      hide Answered, Text, Healthy, Wire, Record, EqualIgnoreCase, Parse;
      hide Ehlo, StartTls, Auth, Mail, Rcpt, SmtpSession.Data;
      var cmd, rest := Words(line);
      extra, over, effect := None, false, Nothing;
      if EqualIgnoreCase(cmd, "EHLO") {
        HandleEhlo(rest);
      } else if EqualIgnoreCase(cmd, "HELO") {
        HandleHelo(rest);
      } else if EqualIgnoreCase(cmd, "STARTTLS") {
        over, effect := HandleStartTls(success);
      } else if EqualIgnoreCase(cmd, "AUTH") {
        extra, over, effect := HandleAuth(rest);
      } else {
        extra, over, effect := HandleTransaction(line, cmd, rest, success);
      }
    }

    /** The second half of the chain of commands. */
    method HandleTransaction(line: string, cmd: string, rest: string, success: bool)
      returns (extra: Option<string>, over: bool, effect: Effect)
      requires Ready() && Untouched()
      requires Parse(line) == (VerbOf(cmd), rest) && VerbOf(cmd) !in {VEhlo, VHelo, VStartTls, VAuth}
      modifies this, bio, bio.rbuf, bio.wbuf, bio.transport
      ensures Ready() && Untouched()
      ensures var a := Respond(cfg, old(State()), Turn(line, extra, success));
              Answered(a, old(bio.transport.sent)) && over == a.over && effect == a.effect
      ensures !over && effect != TlsUp ==> Took(extra, Wants(old(State()), line), old(bio.Pending()))
      ensures over || effect == TlsUp ==> extra == None
      ensures over ==> Ended(Wants(old(State()), line), old(bio.Pending()))
      ensures effect == TlsUp ==> Wants(old(State()), line) == None
    {
      hide Answered, Text, Healthy, Wire, Record, EqualIgnoreCase, Parse, Mail, Rcpt, SmtpSession.Data;
      extra, over, effect := None, false, Nothing;
      if EqualIgnoreCase(cmd, "MAIL") {
        HandleMail(rest);
      } else if EqualIgnoreCase(cmd, "RCPT") {
        HandleRcpt(rest);
      } else if EqualIgnoreCase(cmd, "DATA") {
        extra, over, effect := HandleData(success);
      } else if EqualIgnoreCase(cmd, "QUIT") {
        HandleQuit();
        over := true;
      } else {
        HandleOther();
      }
    }

    /** What is left to interpret, on this connection and the next. */
    ghost function Measure(): nat
      reads this, bio, bio.rbuf, bio.transport`input
      requires bio.Valid()
    {
      |bio.Pending()| + (if tlsActive then 0 else |secureStream| + 1)
    }

    /** One pass of the loop takes the session from run r to r with one more turn. */
    method Pass(success: bool, ghost r: Run)
      returns (line: Option<string>, extra: Option<string>, over: bool, effect: Effect)
      requires Ready() && Untouched() && At(r) && !r.over
      modifies this, bio, bio.rbuf, bio.wbuf, bio.transport
      ensures Ready() && Untouched()
      ensures line.None? ==> At(r) && NoShortLine(bio.Pending())
      ensures line.Some? ==>
                var t := Turn(line.value, extra, success);
                var r' := Advance(cfg, r, t);
                && Received(r.session, t, old(bio.Pending()), Sure())
                && State() == r'.session && over == r'.over && r'.effects == r.effects + [effect]
                && (healthy ==> bio.transport.sent == r'.said)
                && (!over ==> At(r') && Measure() < old(Measure()))
    {
      hide Text, Healthy, Wire, Record, Respond, Wants;
      ghost var p := bio.Pending();
      extra, over, effect := None, false, Nothing;
      line := ReadLine();
      if line.None? {
        return;
      }
      ghost var q := bio.Pending();
      extra, over, effect := Handle(line.value, success);
      ghost var t := Turn(line.value, extra, success);
      LineAndMore(r.session, t, p, q, bio.Pending(), Sure());
      Progress(cfg, r, t, p, q, bio.Pending());
      TlsUpResets(cfg, r.session, t);
      assert "" + bio.Pending() == bio.Pending();
    }

    /** The whole session, until a turn ends it or no line comes. */
    method Serve(answers: seq<bool>) returns (ghost turns: seq<Turn>, effects: seq<Effect>, gone: bool)
      requires Ready() && Untouched() && At(Begin(cfg))
      modifies this, bio, bio.rbuf, bio.wbuf, plain, secure
      ensures AllReceived(cfg, turns, plainStream, secureStream, Sure()) && AllHeard(cfg, turns)
      ensures var r := Play(cfg, turns);
              && r.heard <= Stream(r.session, plainStream, secureStream)
              && State() == r.session && effects == r.effects && gone == !r.over
              && bio.Valid() && (healthy ==> bio.transport.sent == r.said)
              && (gone ==> At(r) && NoShortLine(bio.Pending()))
              && Justified(cfg, r)
    {
      hide Justified, Text, Healthy, Wire, Record, Respond, Wants, Heard, Advance;
      turns, effects, gone := [], [], false;
      var over, k := false, 0;
      while !over
        invariant Ready() && Untouched() && over == Play(cfg, turns).over
        invariant AllReceived(cfg, turns, plainStream, secureStream, Sure())
        invariant State() == Play(cfg, turns).session && effects == Play(cfg, turns).effects
        invariant healthy ==> bio.transport.sent == Play(cfg, turns).said
        invariant !over ==> At(Play(cfg, turns))
        decreases !over, Measure()
      {
        var success := k < |answers| && answers[k];
        k := k + 1;
        ghost var r := Play(cfg, turns);
        AtFront(r, bio.Pending());
        var line, extra, stop, effect := Pass(success, r);
        if line.None? {
          gone := true;
          Concluded(cfg, turns, plainStream, secureStream, Sure());
          return;
        }
        over := stop;
        effects := effects + [effect];
        ReceivedSnoc(cfg, turns, Turn(line.value, extra, success), plainStream, secureStream, Sure());
        turns := turns + [Turn(line.value, extra, success)];
      }
      Concluded(cfg, turns, plainStream, secureStream, Sure());
    }
  }

  lemma ReceivedSnoc(cfg: Config, turns: seq<Turn>, t: Turn, plain: string, secure: string, sure: nat)
    requires AllReceived(cfg, turns, plain, secure, sure) && !Play(cfg, turns).over
    requires var r := Play(cfg, turns);
             var stream := Stream(r.session, plain, secure);
             r.heard <= stream && Received(r.session, t, stream[|r.heard|..], sure)
    ensures AllReceived(cfg, turns + [t], plain, secure, sure)
    ensures Play(cfg, turns + [t]) == Advance(cfg, Play(cfg, turns), t)
  {
    hide Received, Advance, PlayFrom;
    PlaySnoc(cfg, Begin(cfg), turns, t);
    assert (turns + [t])[..|turns|] == turns;
    forall n | 0 <= n < |turns| + 1 ensures ReceivedAt(cfg, turns + [t], n, plain, secure, sure) {
      if n < |turns| {
        assert (turns + [t])[..n] == turns[..n];
        assert ReceivedAt(cfg, turns, n, plain, secure, sure);
      }
    }
  }

  lemma Concluded(cfg: Config, turns: seq<Turn>, plain: string, secure: string, sure: nat)
    requires AllReceived(cfg, turns, plain, secure, sure)
    ensures AllHeard(cfg, turns) && Justified(cfg, Play(cfg, turns))
    ensures var r := Play(cfg, turns); r.heard <= Stream(r.session, plain, secure)
  {
    AllReceivedIsHeard(cfg, turns, plain, secure, sure);
    HeardIsFront(cfg, turns, plain, secure, sure);
    EveryRunIsJustified(cfg, turns);
  }

  lemma AtFront(r: Run, p: string)
    ensures r.heard <= r.heard + p && (r.heard + p)[|r.heard|..] == p
  {
  }

  /** A line, and the record behind it or the lack of one, is a turn received. */
  lemma LineAndMore(s: Session, t: Turn, p: string, q: string, rest: string, sure: nat)
    requires Record(t.line, CRLF) && p == t.line + q
    requires match (Wants(s, t.line), t.extra)
             case (None, extra) => extra == None
             case (Some(term), None) => Missing(q, term, sure)
             case (Some(term), Some(text)) => Record(text, term) && q == text + rest
    ensures Received(s, t, p, sure)
  {
    hide Wants, Record, Missing, FrontOf;
    RecordIsFront(t.line, q, CRLF);
    if Wants(s, t.line).Some? && t.extra.Some? {
      RecordIsFront(t.extra.value, rest, Wants(s, t.line).value);
    }
  }

  /** The line and what was read after it are the front of what was pending. */
  lemma Progress(cfg: Config, r: Run, t: Turn, p: string, q: string, rest: string)
    requires !r.over && p == t.line + q
    requires var a := Respond(cfg, r.session, t);
             !a.over && a.effect != TlsUp ==> q == (if t.extra.Some? then t.extra.value else "") + rest
    ensures var a := Respond(cfg, r.session, t);
            !a.over && a.effect != TlsUp ==> Advance(cfg, r, t).heard + rest == r.heard + p
  {
    hide Respond, Wire;
    var x := if t.extra.Some? then t.extra.value else "";
    assert r.heard + t.line + x + rest == r.heard + (t.line + (x + rest));
  }

  /** DATA step by step: the state, then what becomes of the body if one came. */
  lemma DataParts(cfg: Config, s: Session, success: bool)
    ensures SmtpSession.Data(cfg, s, None, success) == Response(s.(phase := InData), [GoAhead], Nothing, true)
    ensures forall text: string :: |text| >= |Relay.DOT_LINE| ==>
              var d := s.(phase := InData);
              var (e, line) := Dispatch(cfg, d, text[..|text| - |Relay.DOT_LINE|], success);
              && SmtpSession.Data(cfg, s, Some(text), success) == Response(d, [GoAhead, line], e, false)
              && e != TlsUp
  {
    hide IsLocal, Domain;
  }

  lemma NoLines(cfg: Config, o: string)
    ensures o + Wire(cfg, []) == o
  {
  }

  lemma OneLine(cfg: Config, o: string, a: Reply)
    ensures o + Text(cfg, a) + CRLF == o + Wire(cfg, [a])
  {
    hide Text;
    var x := Text(cfg, a);
    assert [a][..0] == [];
    assert Wire(cfg, [a]) == "" + x + CRLF;
    assert o + x + CRLF == o + ("" + x + CRLF);
  }

  lemma NextLine(cfg: Config, o: string, lines: seq<Reply>, a: Reply)
    ensures o + Wire(cfg, lines) + Text(cfg, a) + CRLF == o + Wire(cfg, lines + [a])
  {
    hide Text;
    var w, x := Wire(cfg, lines), Text(cfg, a);
    assert (lines + [a])[..|lines|] == lines;
    assert Wire(cfg, lines + [a]) == w + x + CRLF;
    assert o + w + x + CRLF == o + (w + x + CRLF);
  }

  lemma FourLines(cfg: Config, o: string, a: Reply, b: Reply, c: Reply, d: Reply)
    ensures o + Text(cfg, a) + CRLF + Text(cfg, b) + CRLF + Text(cfg, c) + CRLF + Text(cfg, d) + CRLF ==
            o + Wire(cfg, [a, b, c, d])
  {
    hide Text, Wire;
    OneLine(cfg, o, a);
    NextLine(cfg, o, [a], b);
    assert [a] + [b] == [a, b];
    NextLine(cfg, o, [a, b], c);
    assert [a, b] + [c] == [a, b, c];
    NextLine(cfg, o, [a, b, c], d);
    assert [a, b, c] + [d] == [a, b, c, d];
  }
}
